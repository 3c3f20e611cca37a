/** The JavaScript string built-ins the plugin relies on, over `string` (`seq<char>`).
    Only one-character patterns occur in the plugin, so the pattern is a `char`. */
module JsString {

  /** `s.indexOf(c)`: the first index of `c`, or -1. */
  function IndexOf(s: string, c: char): (i: int)
    ensures -1 <= i < |s|
    ensures i == -1 <==> c !in s
    ensures 0 <= i ==> s[i] == c && c !in s[..i]
  {
    if s == [] then -1
    else if s[0] == c then 0
    else
      var j := IndexOf(s[1..], c);
      if j < 0 then -1
      else
        assert s[..j + 1] == [s[0]] + s[1..][..j];
        j + 1
  }

  /** `s.lastIndexOf(c)`: the last index of `c`, or -1. */
  function LastIndexOf(s: string, c: char): (i: int)
    ensures -1 <= i < |s|
    ensures i == -1 <==> c !in s
    ensures 0 <= i ==> s[i] == c && c !in s[i + 1..]
  {
    if s == [] then -1
    else if s[|s| - 1] == c then |s| - 1
    else
      assert s == s[..|s| - 1] + [s[|s| - 1]];
      LastIndexOf(s[..|s| - 1], c)
  }

  /** JavaScript's argument clamping for `substring`: below 0 reads as 0, above the length as the length. */
  function Clamp(i: int, n: nat): (r: nat)
    ensures r <= n
    ensures 0 <= i <= n ==> r == i
  {
    if i < 0 then 0 else if i > n then n else i
  }

  /** `s.substring(from, to)`: both ends clamped, and swapped when `from` exceeds `to`. */
  function Substring(s: string, from: int, to: int): (r: string)
    ensures 0 <= from <= to <= |s| ==> r == s[from..to]
    ensures 0 <= to <= from <= |s| ==> r == s[to..from]
    ensures from <= 0 && to <= 0 ==> r == []
    ensures to <= 0 <= from <= |s| ==> r == s[..from]
  {
    var a, b := Clamp(from, |s|), Clamp(to, |s|);
    if a <= b then s[a..b] else s[b..a]
  }

  /** `s.substring(from)`: from the clamped `from` to the end. */
  function SubstringFrom(s: string, from: int): (r: string)
    ensures 0 <= from <= |s| ==> r == s[from..]
    ensures from <= 0 ==> r == s
  {
    Substring(s, from, |s|)
  }

  /** `s.replaceAll(c, "")`: every occurrence of `c` removed, the rest kept in order. */
  function RemoveAll(s: string, c: char): (r: string)
    ensures c !in r
    ensures |r| <= |s|
    ensures c !in s ==> r == s
    ensures multiset(r) == multiset(s)[c := 0]
  {
    if s == [] then []
    else
      assert s == [s[0]] + s[1..];
      if s[0] == c then RemoveAll(s[1..], c)
      else [s[0]] + RemoveAll(s[1..], c)
  }

  lemma {:induction false} RemoveAllAppend(a: string, b: string, c: char)
    ensures RemoveAll(a + b, c) == RemoveAll(a, c) + RemoveAll(b, c)
  {
    if a == [] {
      assert a + b == b;
    } else {
      assert (a + b)[0] == a[0];
      assert (a + b)[1..] == a[1..] + b;
      RemoveAllAppend(a[1..], b, c);
    }
  }

  /** Removing every `c` from a text that `c` merely wraps gives back the inside. */
  lemma RemoveAllWrapped(s: string, c: char)
    requires c !in s
    ensures RemoveAll([c] + s + [c], c) == s
  {
    RemoveAllAppend([c] + s, [c], c);
    RemoveAllAppend([c], s, c);
  }

  /** `s.replace(c, "")` with a one-character string pattern: only the first `c` is removed. */
  function RemoveFirst(s: string, c: char): (r: string)
    ensures c !in s ==> r == s
    ensures c in s ==> |r| == |s| - 1 && s == r[..IndexOf(s, c)] + [c] + r[IndexOf(s, c)..]
  {
    var i := IndexOf(s, c);
    if i < 0 then s
    else
      var r := s[..i] + s[i + 1..];
      assert r[..i] == s[..i] && r[i..] == s[i + 1..];
      assert s == s[..i] + [s[i]] + s[i + 1..];
      r
  }

  /** `RemoveFirst` keeps every character that is not the one removed. */
  lemma RemoveFirstKeeps(s: string, c: char, x: char)
    requires x != c
    ensures x in RemoveFirst(s, c) <==> x in s
  {
    if c in s {
      var i := IndexOf(s, c);
      var r := RemoveFirst(s, c);
      assert s == r[..i] + [c] + r[i..];
      assert r == r[..i] + r[i..];
    }
  }

  /** `s.split(c)`: the pieces between occurrences of `c`, left to right. */
  function Split(s: string, c: char): (r: seq<string>)
    ensures |r| >= 1
    ensures |r| == 1 <==> c !in s
    ensures c !in r[0] && (|r| >= 2 ==> c !in r[1])
    decreases |s|
  {
    var i := IndexOf(s, c);
    if i < 0 then [s] else [s[..i]] + Split(s[i + 1..], c)
  }

  /** `pieces.join(c)`, the inverse of `Split`. */
  function Join(pieces: seq<string>, c: char): string
    requires |pieces| >= 1
  {
    if |pieces| == 1 then pieces[0] else pieces[0] + [c] + Join(pieces[1..], c)
  }

  /** Splitting loses nothing: joining the pieces back gives the text. */
  lemma {:induction false} JoinSplit(s: string, c: char)
    ensures Join(Split(s, c), c) == s
    decreases |s|
  {
    if c in s {
      var head, rest := SplitStep(s, c);
      JoinSplit(rest, c);
      JoinCons(head, Split(rest, c), c);
    }
  }

  /** One step of `Split`: the piece before the first `c`, and the text after it. */
  lemma SplitStep(s: string, c: char) returns (head: string, rest: string)
    requires c in s
    ensures s == head + [c] + rest && |rest| < |s|
    ensures Split(s, c) == [head] + Split(rest, c)
  {
    var i := IndexOf(s, c);
    head, rest := s[..i], s[i + 1..];
    assert s == s[..i] + [s[i]] + s[i + 1..];
  }

  lemma JoinCons(a: string, pieces: seq<string>, c: char)
    requires |pieces| >= 1
    ensures Join([a] + pieces, c) == a + [c] + Join(pieces, c)
  {
    assert ([a] + pieces)[1..] == pieces;
  }

  /** When `c` is absent from `a`, splitting `a + c + b` yields `a` and then the pieces of `b`. */
  lemma SplitAtFirst(a: string, b: string, c: char)
    requires c !in a
    ensures Split(a + [c] + b, c) == [a] + Split(b, c)
  {
    var s := a + [c] + b;
    assert s[|a|] == c;
    assert s[..|a|] == a;
    assert s[|a| + 1..] == b;
  }

  /** The first two pieces of `a + c + b + rest`, when neither `a` nor `b` holds `c` and
      `rest` is empty or starts with `c`, are `a` and `b`. */
  lemma SplitFirstTwo(a: string, b: string, rest: string, c: char)
    requires c !in a && c !in b
    requires rest == [] || rest[0] == c
    ensures |Split(a + [c] + b + rest, c)| >= 2
    ensures Split(a + [c] + b + rest, c)[0] == a && Split(a + [c] + b + rest, c)[1] == b
  {
    var tail := b + rest;
    assert a + [c] + b + rest == a + [c] + tail;
    SplitAtFirst(a, tail, c);
    SplitHead(b, rest, c);
  }

  /** The first piece of `b + rest` is `b` when `b` has no `c` and `rest` is empty or starts with `c`. */
  lemma SplitHead(b: string, rest: string, c: char)
    requires c !in b
    requires rest == [] || rest[0] == c
    ensures Split(b + rest, c)[0] == b
  {
    if rest == [] {
      assert b + rest == b;
    } else {
      var after := rest[1..];
      assert b + rest == b + [c] + after;
      SplitAtFirst(b, after, c);
    }
  }

  /** `s.includes(t)`. */
  predicate Includes(s: string, t: string)
    decreases |s|
  {
    t <= s || (s != [] && Includes(s[1..], t))
  }

  /** When `s` includes `t`, `t` occurs in `s` at some index. */
  lemma {:induction false} IncludesSound(s: string, t: string) returns (i: nat)
    requires Includes(s, t)
    ensures i + |t| <= |s| && s[i..i + |t|] == t
    decreases |s|
  {
    if t <= s {
      i := 0;
    } else {
      var j := IncludesSound(s[1..], t);
      i := j + 1;
      assert s[i..i + |t|] == s[1..][j..j + |t|];
    }
  }

  /** When `t` occurs in `s` at some index, `s` includes `t`. */
  lemma {:induction false} IncludesComplete(s: string, t: string, i: nat)
    requires i + |t| <= |s| && s[i..i + |t|] == t
    ensures Includes(s, t)
    decreases i
  {
    if i == 0 {
      assert t == s[..|t|];
    } else {
      assert s[1..][i - 1..i - 1 + |t|] == s[i..i + |t|];
      IncludesComplete(s[1..], t, i - 1);
    }
  }
}
