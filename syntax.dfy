/** The externally parsed syntax tree, seen through the few accessors the plugin uses
    (`kind`, `getStart`, `getEnd`, `getText`, `getFirstToken`, `parent`, `getChildAt`),
    and the pre-order walk both searches share. */
module Syntax {
  import opened Optional

  /** The `SyntaxKind` values the patterns test; every other kind is `Other`. */
  datatype Kind = SourceFileKind | StringLiteral | PropertyAssignment | PropertyAccessExpression | Other

  /** `parent.getChildAt(0)`: its kind and `getFullText()`. */
  datatype ChildView = ChildView(kind: Kind, fullText: string)

  /** What `node.parent` exposes to the patterns: its kind, the text of its first token
      (`getFirstToken()?.getText()`) and its first child. A source file has no parent. */
  datatype ParentView =
    | NoParent
    | Parent(kind: Kind, firstToken: Option<string>, firstChild: Option<ChildView>)

  /** A node: kind, `getStart()`, `getEnd()`, `getText()`, the text of its own first token,
      its parent as above, and its children in `getChildAt` order. */
  datatype Node = Node(
    kind: Kind,
    start: nat,
    end: nat,
    text: string,
    firstToken: Option<string>,
    parent: ParentView,
    children: seq<Node>)

  /** `getWidth()`. */
  function Width(n: Node): int
  {
    n.end - n.start
  }

  /** Every node of the tree, each before its children, children left to right. */
  function PreOrder(n: Node): (s: seq<Node>)
    ensures |s| >= 1 && s[0] == n
  {
    [n] + PreOrderAll(n.children)
  }

  function PreOrderAll(cs: seq<Node>): seq<Node>
  {
    if cs == [] then [] else PreOrder(cs[0]) + PreOrderAll(cs[1..])
  }

  /** The recursive search of both plugin versions: test the node, and only when it fails
      search the children left to right, stopping at the first that yields a node. */
  function FirstWhere(n: Node, p: Node -> bool): Option<Node>
  {
    if p(n) then Some(n) else FirstWhereAll(n.children, p)
  }

  function FirstWhereAll(cs: seq<Node>, p: Node -> bool): Option<Node>
  {
    if cs == [] then None
    else
      match FirstWhere(cs[0], p)
      case Some(x) => Some(x)
      case None => FirstWhereAll(cs[1..], p)
  }

  /** The index of the first element of `s` satisfying `p`, or -1: an independent,
      list-based reading of "the first node found". */
  function FirstIndex(s: seq<Node>, p: Node -> bool): (i: int)
    ensures -1 <= i < |s|
    ensures 0 <= i ==> p(s[i])
    ensures forall j :: 0 <= j < |s| && (i == -1 || j < i) ==> !p(s[j])
  {
    if s == [] then -1
    else if p(s[0]) then 0
    else
      var j := FirstIndex(s[1..], p);
      if j == -1 then -1 else j + 1
  }

  lemma {:induction false} FirstIndexAppend(a: seq<Node>, b: seq<Node>, p: Node -> bool)
    ensures FirstIndex(a + b, p) ==
      if FirstIndex(a, p) != -1 then FirstIndex(a, p)
      else if FirstIndex(b, p) == -1 then -1
      else |a| + FirstIndex(b, p)
  {
    if a != [] {
      assert (a + b)[0] == a[0];
      assert (a + b)[1..] == a[1..] + b;
      FirstIndexAppend(a[1..], b, p);
    } else {
      assert a + b == b;
    }
  }

  /** The recursive search returns exactly the first node of the pre-order listing that
      satisfies the condition, and nothing when no node of the tree does. */
  lemma {:induction false} FirstWhereIsFirstInPreOrder(n: Node, p: Node -> bool)
    ensures FirstWhere(n, p) ==
      (var i := FirstIndex(PreOrder(n), p); if i == -1 then None else Some(PreOrder(n)[i]))
  {
    FirstIndexAppend([n], PreOrderAll(n.children), p);
    if !p(n) {
      FirstWhereAllIsFirstInPreOrder(n.children, p);
    }
  }

  lemma {:induction false} FirstWhereAllIsFirstInPreOrder(cs: seq<Node>, p: Node -> bool)
    ensures FirstWhereAll(cs, p) ==
      (var i := FirstIndex(PreOrderAll(cs), p); if i == -1 then None else Some(PreOrderAll(cs)[i]))
  {
    if cs != [] {
      FirstWhereIsFirstInPreOrder(cs[0], p);
      FirstWhereAllIsFirstInPreOrder(cs[1..], p);
      FirstIndexAppend(PreOrder(cs[0]), PreOrderAll(cs[1..]), p);
    }
  }

  /** A node found by the search satisfies the condition, and the search finds nothing
      exactly when no node of the tree satisfies it. */
  lemma FirstWhereSound(n: Node, p: Node -> bool)
    ensures FirstWhere(n, p).Some? ==> p(FirstWhere(n, p).value)
    ensures FirstWhere(n, p).None? <==> forall x :: x in PreOrder(n) ==> !p(x)
  {
    FirstWhereIsFirstInPreOrder(n, p);
  }

  /** The node reached from `n` by following a path of child indices, if the path exists. */
  function Subtree(n: Node, path: seq<nat>): Option<Node>
    decreases |path|
  {
    if path == [] then Some(n)
    else if path[0] < |n.children| then Subtree(n.children[path[0]], path[1..])
    else None
  }
}
