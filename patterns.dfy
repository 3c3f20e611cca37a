/** The three reference patterns of dist/index.js and the first-hit choice among them. */
module Patterns {
  import opened Optional
  import opened JsString
  import opened Syntax

  /** The `key` of each condition. */
  datatype Key = FunctionHandler | PackagePath | DynamoSubscription

  /** The order in which findTargetNode and findTargetNodes list their conditions. */
  const Conditions: seq<Key> := [FunctionHandler, PackagePath, DynamoSubscription]

  /** The shape each condition asks of a string literal's parent. */
  predicate ParentShape(key: Key, parent: ParentView)
  {
    match key
    case FunctionHandler =>
      parent.Parent? && parent.kind == PropertyAssignment && parent.firstToken == Some("handler")
    case PackagePath =>
      parent.Parent? && parent.kind == PropertyAssignment && parent.firstToken == Some("path")
    case DynamoSubscription =>
      parent.Parent? && parent.firstChild.Some?
      && parent.firstChild.value.kind == PropertyAccessExpression
      && Includes(parent.firstChild.value.fullText, ".subscribe")
  }

  /** `condition.fn(node)`. findTargetNode's conditions also require the literal to enclose
      the cursor, both ends inclusive (`position` is `Some`); findTargetNodes' do not (`None`). */
  predicate Holds(key: Key, position: Option<int>, n: Node)
  {
    n.kind == StringLiteral
    && ParentShape(key, n.parent)
    && (position.Some? ==> n.start <= position.value <= n.end)
  }

  /** The key the condition loop settles on: the first condition, in list order, that holds. */
  function KeyOf(conds: seq<Key>, position: Option<int>, n: Node): Option<Key>
  {
    if conds == [] then None
    else if Holds(conds[0], position, n) then Some(conds[0])
    else KeyOf(conds[1..], position, n)
  }

  /** The key is the first condition, in list order, that holds; none holds when there is no key. */
  lemma {:induction false} KeyOfFirstHit(conds: seq<Key>, position: Option<int>, n: Node)
    ensures KeyOf(conds, position, n).None? <==> forall k :: k in conds ==> !Holds(k, position, n)
    ensures KeyOf(conds, position, n).Some? ==>
              exists i :: 0 <= i < |conds| && conds[i] == KeyOf(conds, position, n).value
                && Holds(conds[i], position, n)
                && forall j :: 0 <= j < i ==> !Holds(conds[j], position, n)
  {
    if conds != [] && !Holds(conds[0], position, n) {
      KeyOfFirstHit(conds[1..], position, n);
      var r := KeyOf(conds[1..], position, n);
      if r.Some? {
        var i :| 0 <= i < |conds[1..]| && conds[1..][i] == r.value
          && Holds(conds[1..][i], position, n)
          && forall j :: 0 <= j < i ==> !Holds(conds[1..][j], position, n);
        assert conds[i + 1] == r.value;
      }
    }
  }

  /** The condition loop `for (i = 0; key == null && i < conditions.length; i++)`. */
  method FindKey(n: Node, conds: seq<Key>, position: Option<int>) returns (key: Option<Key>)
    ensures key == KeyOf(conds, position, n)
  {
    key := None;
    var i := 0;
    while key.None? && i < |conds|
      invariant 0 <= i <= |conds|
      invariant KeyOf(conds, position, n) == if key.Some? then key else KeyOf(conds[i..], position, n)
    {
      assert conds[i..][0] == conds[i] && conds[i..][1..] == conds[i + 1..];
      if Holds(conds[i], position, n) {
        key := Some(conds[i]);
      }
      i := i + 1;
    }
  }

  /** With the plugin's own list, the key chosen is the only key that can be reported for the
      node: a handler literal is never tagged a package path or a subscription, a package path
      never a subscription, and every tag is the first in the fixed order whose condition holds. */
  lemma {:induction false} TagOrder(position: Option<int>, n: Node)
    ensures KeyOf(Conditions, position, n) == Some(FunctionHandler) <==> Holds(FunctionHandler, position, n)
    ensures KeyOf(Conditions, position, n) == Some(PackagePath) <==>
      !Holds(FunctionHandler, position, n) && Holds(PackagePath, position, n)
    ensures KeyOf(Conditions, position, n) == Some(DynamoSubscription) <==>
      !Holds(FunctionHandler, position, n) && !Holds(PackagePath, position, n)
      && Holds(DynamoSubscription, position, n)
  {
    KeyOfFirstHit(Conditions, position, n);
    assert Conditions[1..] == [PackagePath, DynamoSubscription];
    assert Conditions[1..][1..] == [DynamoSubscription];
    assert Conditions[1..][1..][1..] == [];
  }
}
