/**
 * The environment contract of the search engine (src/env.rs): actions are
 * plain indices into a state's own action space, and `ActionMap` is a dense,
 * order-preserving vector indexed by those actions.
 */
module Env {
  import opened Wrappers

  /** `Action(usize)`: an index into the action space of the state that produced it. */
  datatype Action = Action(index: nat)

  /**
   * The `State` trait as a record of its operations on a state type `S`.
   * `take` is only ever applied by the engine to actions below `actionCount`.
   * `reward` and `value` produce f32 values, modelled as reals.
   */
  datatype StateOps<!S> = StateOps(
    init: S,
    actionCount: S -> nat,
    take: (S, Action) -> S,
    reward: S -> Option<real>,
    value: (S, Action, real) -> real,
    asArray: S -> seq<seq<int>>)

  /**
   * The default `action_iter`: `(0..action_count).map(Action)`, built the way
   * the range is consumed, one index after the other.
   */
  function ActionIter(actionCount: nat): (actions: seq<Action>)
    ensures |actions| == actionCount
    ensures forall i :: 0 <= i < |actions| ==> actions[i] == Action(i)
    ensures forall i, j :: 0 <= i < j < |actions| ==> actions[i].index < actions[j].index
  {
    if actionCount == 0 then [] else ActionIter(actionCount - 1) + [Action(actionCount - 1)]
  }

  /** `ActionMap<T>`: one payload per action, in action order. */
  datatype ActionMap<T> = ActionMap(items: seq<T>)
  {
    function Len(): nat { |items| }

    /** `is_empty`: no action has a payload. */
    function IsEmpty(): (empty: bool)
      ensures empty <==> Len() == 0
    {
      |items| == 0
    }

    /** `Index<Action>`: the payload of `a`; out of range panics, so it is required. */
    function At(a: Action): T
      requires a.index < Len()
    {
      items[a.index]
    }

    /** `last`: the payload of the last action, `None` when the map is empty. */
    function Last(): (last: Option<T>)
      ensures last.None? <==> IsEmpty()
      ensures last.Some? ==> last.value == At(Action(Len() - 1))
    {
      if |items| == 0 then None else Some(items[|items| - 1])
    }

    /**
     * `action_value_iter`: `iter().enumerate()` with each position wrapped
     * as an `Action`, produced front to back.
     */
    function ActionValueIter(): (pairs: seq<(Action, T)>)
      ensures |pairs| == Len()
      ensures forall k :: 0 <= k < |pairs| ==> pairs[k] == (Action(k), At(Action(k)))
      decreases |items|
    {
      if |items| == 0 then []
      else ActionMap(items[..|items| - 1]).ActionValueIter() + [(Action(|items| - 1), items[|items| - 1])]
    }

    /**
     * `IndexMut<Action>` followed by an assignment through the returned
     * reference: only the payload of `a` changes.
     */
    function Update(a: Action, v: T): (m: ActionMap<T>)
      requires a.index < Len()
      ensures m.Len() == Len()
      ensures m.At(a) == v
      ensures forall b: Action :: b.index < Len() && b != a ==> m.At(b) == At(b)
    {
      ActionMap(items[a.index := v])
    }
  }

  /**
   * `ActionMap::new`: an empty vector extended with every item in turn;
   * the result has one entry per item, in the order supplied.
   */
  method NewActionMap<T>(items: seq<T>) returns (m: ActionMap<T>)
    ensures m.Len() == |items|
    ensures forall i :: 0 <= i < |items| ==> m.At(Action(i)) == items[i]
  {
    var v: seq<T> := [];
    var k := 0;
    while k < |items|
      invariant 0 <= k <= |items|
      invariant v == items[..k]
    {
      v := v + [items[k]];
      k := k + 1;
    }
    m := ActionMap(v);
  }

  /**
   * The actions `action_value_iter` pairs with the payloads are exactly the
   * ones `action_iter` yields for a state with that many actions.
   */
  lemma {:induction false} ActionValueIterFollowsActionIter<T>(m: ActionMap<T>)
    ensures |m.ActionValueIter()| == |ActionIter(m.Len())|
    ensures forall k :: 0 <= k < m.Len() ==> m.ActionValueIter()[k].0 == ActionIter(m.Len())[k]
  {
  }
}
