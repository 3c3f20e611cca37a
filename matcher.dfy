/** The two depth-first searches of dist/index.js: findNodeInTree (first match) and
    findNodesInTree (all matches, never descending into a match), with their callers. */
module Matcher {
  import opened Optional
  import opened Syntax
  import opened Patterns

  /** `{ node, key }`: a literal and the key of the condition it met. */
  datatype Match = Match(node: Node, key: Key)

  /** "Some condition of the list holds for this node". */
  function IsMatch(conds: seq<Key>, position: Option<int>): Node -> bool
  {
    n => KeyOf(conds, position, n).Some?
  }

  /** Pairs a found node with its key. */
  function Lift(conds: seq<Key>, position: Option<int>, found: Option<Node>): Option<Match>
  {
    if found.Some? && KeyOf(conds, position, found.value).Some?
    then Some(Match(found.value, KeyOf(conds, position, found.value).value))
    else None
  }

  /** What findNodeInTree returns: the first node of the search that meets a condition, with its key. */
  function FirstMatch(n: Node, conds: seq<Key>, position: Option<int>): Option<Match>
  {
    Lift(conds, position, FirstWhere(n, IsMatch(conds, position)))
  }

  /** findNodeInTree: test the node's conditions in order; on a hit return it, otherwise
      search the children left to right until one yields a result. */
  method FindNodeInTree(n: Node, conds: seq<Key>, position: Option<int>) returns (r: Option<Match>)
    ensures r == FirstMatch(n, conds, position)
    decreases n
  {
    var key := FindKey(n, conds, position);
    if key.Some? {
      return Some(Match(n, key.value));
    }
    ghost var p := IsMatch(conds, position);
    r := None;
    var i := 0;
    while r.None? && i < |n.children|
      invariant 0 <= i <= |n.children|
      invariant FirstMatch(n, conds, position) ==
        if r.Some? then r else Lift(conds, position, FirstWhereAll(n.children[i..], p))
    {
      assert n.children[i..][0] == n.children[i] && n.children[i..][1..] == n.children[i + 1..];
      FirstWhereSound(n.children[i], p);
      r := FindNodeInTree(n.children[i], conds, position);
      i := i + 1;
    }
  }

  /** findTargetNode: the first literal enclosing `position` that meets one of the three conditions. */
  method FindTargetNode(root: Node, position: int) returns (r: Option<Match>)
    ensures r == FirstMatch(root, Conditions, Some(position))
    ensures r.Some? ==> r.value.node.start <= position <= r.value.node.end
  {
    r := FindNodeInTree(root, Conditions, Some(position));
    FirstMatchSound(root, Conditions, Some(position));
  }

  /** A reported match meets its key's condition, its key is the one the ordered condition
      list assigns, and nothing is reported exactly when no node of the tree meets a condition. */
  lemma FirstMatchSound(n: Node, conds: seq<Key>, position: Option<int>)
    ensures FirstMatch(n, conds, position).Some? ==>
              var m := FirstMatch(n, conds, position).value;
              Holds(m.key, position, m.node) && KeyOf(conds, position, m.node) == Some(m.key)
    ensures FirstMatch(n, conds, position).None? <==>
              forall x :: x in PreOrder(n) ==> KeyOf(conds, position, x).None?
  {
    FirstWhereSound(n, IsMatch(conds, position));
    if FirstMatch(n, conds, position).Some? {
      KeyOfFirstHit(conds, position, FirstMatch(n, conds, position).value.node);
    }
  }

  /** The reported match is the first node in pre-order that meets a condition. */
  lemma FirstMatchIsFirstInPreOrder(n: Node, conds: seq<Key>, position: Option<int>)
    ensures var s := PreOrder(n);
            var i := FirstIndex(s, IsMatch(conds, position));
            FirstMatch(n, conds, position) ==
              if i == -1 then None else Some(Match(s[i], KeyOf(conds, position, s[i]).value))
  {
    FirstWhereIsFirstInPreOrder(n, IsMatch(conds, position));
  }

  /** What findNodesInTree appends: a matching node alone (its subtree is not searched),
      otherwise the matches of the children, left to right. */
  function AllMatches(n: Node, conds: seq<Key>, position: Option<int>): seq<Match>
  {
    var key := KeyOf(conds, position, n);
    if key.Some? then [Match(n, key.value)] else AllMatchesIn(n.children, conds, position)
  }

  function AllMatchesIn(cs: seq<Node>, conds: seq<Key>, position: Option<int>): seq<Match>
  {
    if cs == [] then [] else AllMatches(cs[0], conds, position) + AllMatchesIn(cs[1..], conds, position)
  }

  lemma {:induction false} AllMatchesInAppend(a: seq<Node>, b: seq<Node>, conds: seq<Key>, position: Option<int>)
    ensures AllMatchesIn(a + b, conds, position) == AllMatchesIn(a, conds, position) + AllMatchesIn(b, conds, position)
  {
    if a == [] {
      assert a + b == b;
    } else {
      var ab := a + b;
      assert ab[0] == a[0] && ab[1..] == a[1..] + b;
      AllMatchesInAppend(a[1..], b, conds, position);
      assert AllMatchesIn(ab, conds, position)
          == AllMatches(a[0], conds, position) + AllMatchesIn(a[1..] + b, conds, position);
    }
  }

  /** One more child visited: its matches follow those of the children before it. */
  lemma AllMatchesInSnoc(cs: seq<Node>, i: nat, conds: seq<Key>, position: Option<int>)
    requires i < |cs|
    ensures AllMatchesIn(cs[..i + 1], conds, position)
         == AllMatchesIn(cs[..i], conds, position) + AllMatches(cs[i], conds, position)
  {
    assert cs[..i + 1] == cs[..i] + [cs[i]];
    AllMatchesInAppend(cs[..i], [cs[i]], conds, position);
    assert [cs[i]][1..] == [];
  }

  /** The shared `results` array that findNodesInTree pushes into. */
  class MatchList {
    var items: seq<Match>

    constructor ()
      ensures items == []
    {
      items := [];
    }

    /** `results.push(m)`. */
    method Push(m: Match)
      modifies this
      ensures items == old(items) + [m]
    {
      items := items + [m];
    }
  }

  /** findNodesInTree: push the node when a condition holds (and then return nothing);
      otherwise recurse into every child and return the array. */
  method FindNodesInTree(n: Node, conds: seq<Key>, position: Option<int>, results: MatchList)
    returns (returned: bool)
    modifies results
    ensures results.items == old(results.items) + AllMatches(n, conds, position)
    ensures returned <==> KeyOf(conds, position, n).None?
    decreases n
  {
    var key := FindKey(n, conds, position);
    if key.Some? {
      results.Push(Match(n, key.value));
      returned := false;
    } else {
      var i := 0;
      while i < |n.children|
        invariant 0 <= i <= |n.children|
        invariant results.items == old(results.items) + AllMatchesIn(n.children[..i], conds, position)
      {
        AllMatchesInSnoc(n.children, i, conds, position);
        var _ := FindNodesInTree(n.children[i], conds, position, results);
        i := i + 1;
      }
      assert n.children[..i] == n.children;
      returned := true;
    }
  }

  /** The matches getSemanticDiagnostics works through: none when the root itself matched
      (findNodesInTree then returns nothing), otherwise every match. */
  function TargetMatches(root: Node): seq<Match>
  {
    if KeyOf(Conditions, None, root).Some? then [] else AllMatches(root, Conditions, None)
  }

  /** findTargetNodes: run findNodesInTree over the whole file with an empty array. */
  method FindTargetNodes(root: Node) returns (r: Option<seq<Match>>)
    ensures r.None? <==> KeyOf(Conditions, None, root).Some?
    ensures r.Some? ==> r.value == AllMatches(root, Conditions, None)
  {
    var results := new MatchList();
    var returned := FindNodesInTree(root, Conditions, None, results);
    r := if returned then Some(results.items) else None;
  }

  /** findNodeInTree and findNodesInTree agree: the first match is the head of all matches. */
  lemma {:induction false} FirstMatchIsHeadOfAll(n: Node, conds: seq<Key>, position: Option<int>)
    ensures FirstMatch(n, conds, position) ==
              if AllMatches(n, conds, position) == [] then None else Some(AllMatches(n, conds, position)[0])
  {
    if KeyOf(conds, position, n).None? {
      FirstAllIsHeadOfAll(n.children, conds, position);
    }
  }

  lemma {:induction false} FirstAllIsHeadOfAll(cs: seq<Node>, conds: seq<Key>, position: Option<int>)
    ensures Lift(conds, position, FirstWhereAll(cs, IsMatch(conds, position))) ==
              if AllMatchesIn(cs, conds, position) == [] then None else Some(AllMatchesIn(cs, conds, position)[0])
  {
    if cs != [] {
      FirstMatchIsHeadOfAll(cs[0], conds, position);
      FirstAllIsHeadOfAll(cs[1..], conds, position);
      FirstWhereSound(cs[0], IsMatch(conds, position));
    }
  }

  /** Prefixes every path with the child index `k`. */
  function Prepend(k: nat, paths: seq<seq<nat>>): (r: seq<seq<nat>>)
    ensures |r| == |paths|
    ensures forall i :: 0 <= i < |paths| ==> r[i] == [k] + paths[i]
  {
    seq(|paths|, i requires 0 <= i < |paths| => [k] + paths[i])
  }

  /** Where each element of `AllMatches(n, ..)` sits, as a path of child indices from `n`. */
  function MatchPaths(n: Node, conds: seq<Key>, position: Option<int>): seq<seq<nat>>
  {
    if KeyOf(conds, position, n).Some? then [[]] else PathsFrom(n.children, 0, conds, position)
  }

  function PathsFrom(cs: seq<Node>, k: nat, conds: seq<Key>, position: Option<int>): seq<seq<nat>>
  {
    if cs == [] then []
    else Prepend(k, MatchPaths(cs[0], conds, position)) + PathsFrom(cs[1..], k + 1, conds, position)
  }

  /** The node at `path` meets one of the conditions. */
  predicate MatchesAt(n: Node, conds: seq<Key>, position: Option<int>, path: seq<nat>)
  {
    Subtree(n, path).Some? && KeyOf(conds, position, Subtree(n, path).value).Some?
  }

  /** The node at `path` meets a condition and none of its ancestors does. */
  predicate FirstOnPath(n: Node, conds: seq<Key>, position: Option<int>, path: seq<nat>)
  {
    MatchesAt(n, conds, position, path)
    && forall m :: 0 <= m < |path| ==> !MatchesAt(n, conds, position, path[..m])
  }

  /** The i-th path leads to the i-th reported node, whose key is the one its conditions give. */
  lemma {:induction false} MatchPathsLocate(n: Node, conds: seq<Key>, position: Option<int>)
    ensures |MatchPaths(n, conds, position)| == |AllMatches(n, conds, position)|
    ensures forall i :: 0 <= i < |AllMatches(n, conds, position)| ==>
              var m := AllMatches(n, conds, position)[i];
              Subtree(n, MatchPaths(n, conds, position)[i]) == Some(m.node)
              && KeyOf(conds, position, m.node) == Some(m.key)
    decreases n, 1
  {
    if KeyOf(conds, position, n).None? {
      assert n.children[0..] == n.children;
      PathsFromLocate(n, 0, conds, position);
    }
  }

  lemma {:induction false} PathsFromLocate(n: Node, k: nat, conds: seq<Key>, position: Option<int>)
    requires k <= |n.children|
    ensures var paths := PathsFrom(n.children[k..], k, conds, position);
            var ms := AllMatchesIn(n.children[k..], conds, position);
            |paths| == |ms|
            && forall i :: 0 <= i < |ms| ==>
                 Subtree(n, paths[i]) == Some(ms[i].node) && KeyOf(conds, position, ms[i].node) == Some(ms[i].key)
    decreases n, 0, |n.children| - k
  {
    if k < |n.children| {
      var cs, child := n.children[k..], n.children[k];
      assert cs[0] == child && cs[1..] == n.children[k + 1..];
      MatchPathsLocate(child, conds, position);
      PathsFromLocate(n, k + 1, conds, position);
      var inner := MatchPaths(child, conds, position);
      var here := Prepend(k, inner);
      forall i | 0 <= i < |here|
        ensures Subtree(n, here[i]) == Subtree(child, inner[i])
      {
        assert here[i][0] == k && here[i][1..] == inner[i];
      }
    }
  }

  /** Membership in `PathsFrom`: a path through child `path[0]` (at least `k`) continuing as a
      match path of that child. */
  lemma {:induction false} PathsFromMembers(n: Node, k: nat, conds: seq<Key>, position: Option<int>, path: seq<nat>)
    requires k <= |n.children|
    ensures path in PathsFrom(n.children[k..], k, conds, position) <==>
              |path| > 0 && k <= path[0] < |n.children|
              && path[1..] in MatchPaths(n.children[path[0]], conds, position)
    decreases |n.children| - k
  {
    if k < |n.children| {
      var cs, child := n.children[k..], n.children[k];
      assert cs[0] == child && cs[1..] == n.children[k + 1..];
      PathsFromMembers(n, k + 1, conds, position, path);
      var inner := MatchPaths(child, conds, position);
      if path in Prepend(k, inner) {
        var i :| 0 <= i < |inner| && Prepend(k, inner)[i] == path;
        assert path[1..] == inner[i];
      }
      if |path| > 0 && path[0] == k && path[1..] in inner {
        var i :| 0 <= i < |inner| && inner[i] == path[1..];
        assert Prepend(k, inner)[i] == path;
      }
    }
  }

  /** One step down a path: the first match on it below a non-matching node is the first match
      on the rest of the path below the child it enters. */
  lemma FirstOnPathStep(n: Node, conds: seq<Key>, position: Option<int>, path: seq<nat>)
    requires |path| > 0 && path[0] < |n.children|
    ensures FirstOnPath(n, conds, position, path) <==>
              !MatchesAt(n, conds, position, []) && FirstOnPath(n.children[path[0]], conds, position, path[1..])
  {
    var child, rest := n.children[path[0]], path[1..];
    assert Subtree(n, path) == Subtree(child, rest);
    forall m | 0 < m <= |path|
      ensures Subtree(n, path[..m]) == Subtree(child, rest[..m - 1])
    {
      assert path[..m][0] == path[0] && path[..m][1..] == rest[..m - 1];
    }
    assert path[..0] == [];
    if FirstOnPath(n, conds, position, path) {
      forall m | 0 <= m < |rest|
        ensures !MatchesAt(child, conds, position, rest[..m])
      {
        assert !MatchesAt(n, conds, position, path[..m + 1]);
      }
    }
    if !MatchesAt(n, conds, position, []) && FirstOnPath(child, conds, position, rest) {
      forall m | 0 < m < |path|
        ensures !MatchesAt(n, conds, position, path[..m])
      {
        assert !MatchesAt(child, conds, position, rest[..m - 1]);
      }
    }
  }

  /** findNodesInTree reports exactly the nodes that meet a condition and have no matching
      ancestor: every match is reported, and the search never looks inside a match. */
  lemma {:induction false} MatchPathsExactly(n: Node, conds: seq<Key>, position: Option<int>, path: seq<nat>)
    ensures path in MatchPaths(n, conds, position) <==> FirstOnPath(n, conds, position, path)
    decreases n
  {
    if KeyOf(conds, position, n).Some? {
      if path != [] {
        assert path[..0] == [];
      }
    } else {
      assert n.children[0..] == n.children;
      PathsFromMembers(n, 0, conds, position, path);
      if path != [] && path[0] < |n.children| {
        MatchPathsExactly(n.children[path[0]], conds, position, path[1..]);
        FirstOnPathStep(n, conds, position, path);
      }
    }
  }

  /** Path `p` lies strictly to the left of path `q` in the tree: they agree up to some depth
      and there `p` takes an earlier child. Neither node is then an ancestor of the other,
      and `p` comes first in pre-order. */
  ghost predicate LeftOf(p: seq<nat>, q: seq<nat>)
  {
    exists d :: 0 <= d < |p| && d < |q| && p[..d] == q[..d] && p[d] < q[d]
  }

  lemma LeftOfCons(k: nat, p: seq<nat>, q: seq<nat>)
    requires LeftOf(p, q)
    ensures LeftOf([k] + p, [k] + q)
  {
    var d :| 0 <= d < |p| && d < |q| && p[..d] == q[..d] && p[d] < q[d];
    assert ([k] + p)[..d + 1] == [k] + p[..d];
    assert ([k] + q)[..d + 1] == [k] + q[..d];
    assert ([k] + p)[d + 1] == p[d] && ([k] + q)[d + 1] == q[d];
  }

  /** Neither of two paths in `LeftOf` order is a prefix of the other. */
  lemma LeftOfNotNested(p: seq<nat>, q: seq<nat>)
    requires LeftOf(p, q)
    ensures !(p <= q) && !(q <= p)
  {
    var d :| 0 <= d < |p| && d < |q| && p[..d] == q[..d] && p[d] < q[d];
  }

  /** findNodesInTree appends its matches in pre-order: each reported node lies strictly to the
      left of every node reported after it. */
  lemma {:induction false} MatchPathsOrdered(n: Node, conds: seq<Key>, position: Option<int>)
    ensures forall i, j :: 0 <= i < j < |MatchPaths(n, conds, position)| ==>
              LeftOf(MatchPaths(n, conds, position)[i], MatchPaths(n, conds, position)[j])
  {
    if KeyOf(conds, position, n).None? {
      assert MatchPaths(n, conds, position) == PathsFrom(n.children, 0, conds, position);
      PathsFromOrdered(n.children, 0, conds, position);
    }
  }

  lemma {:induction false} PathsFromOrdered(cs: seq<Node>, k: nat, conds: seq<Key>, position: Option<int>)
    ensures forall i :: 0 <= i < |PathsFrom(cs, k, conds, position)| ==>
              |PathsFrom(cs, k, conds, position)[i]| > 0 && k <= PathsFrom(cs, k, conds, position)[i][0]
    ensures forall i, j :: 0 <= i < j < |PathsFrom(cs, k, conds, position)| ==>
              LeftOf(PathsFrom(cs, k, conds, position)[i], PathsFrom(cs, k, conds, position)[j])
  {
    if cs != [] {
      MatchPathsOrdered(cs[0], conds, position);
      PathsFromOrdered(cs[1..], k + 1, conds, position);
      var inner := MatchPaths(cs[0], conds, position);
      var here, later := Prepend(k, inner), PathsFrom(cs[1..], k + 1, conds, position);
      var paths := here + later;
      assert paths == PathsFrom(cs, k, conds, position);
      forall i | 0 <= i < |paths|
        ensures |paths[i]| > 0 && k <= paths[i][0]
        ensures i < |here| ==> paths[i] == [k] + inner[i]
        ensures i >= |here| ==> paths[i] == later[i - |here|] && k < paths[i][0]
      {
        if i < |here| {
          assert paths[i] == here[i];
        } else {
          assert paths[i] == later[i - |here|];
        }
      }
      forall i, j | 0 <= i < j < |paths|
        ensures LeftOf(paths[i], paths[j])
      {
        if j < |here| {
          LeftOfCons(k, inner[i], inner[j]);
        } else if i < |here| {
          assert paths[i][..0] == paths[j][..0];
        } else {
          assert LeftOf(later[i - |here|], later[j - |here|]);
        }
      }
    }
  }

  /** No reported node lies inside another reported node. */
  lemma NoNestedMatches(n: Node, conds: seq<Key>, position: Option<int>)
    ensures forall i, j :: 0 <= i < j < |MatchPaths(n, conds, position)| ==>
              !(MatchPaths(n, conds, position)[i] <= MatchPaths(n, conds, position)[j])
              && !(MatchPaths(n, conds, position)[j] <= MatchPaths(n, conds, position)[i])
  {
    var paths := MatchPaths(n, conds, position);
    MatchPathsOrdered(n, conds, position);
    forall i, j | 0 <= i < j < |paths|
      ensures !(paths[i] <= paths[j]) && !(paths[j] <= paths[i])
    {
      LeftOfNotNested(paths[i], paths[j]);
    }
  }
}
