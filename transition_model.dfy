/** `TransitionModel<State, Action>`: a problem domain given by its
    `actions`, `result` and `action_cost`, from which `next_states` derives
    the (state, cost) pairs that the search consumes. */
module TransitionModels {

  datatype TransitionModel<!S, !A> = TransitionModel(
    actions: S -> seq<A>,
    result: (S, A) -> S,
    actionCost: (S, A, S) -> int)

  /** One (state, cost) pair per action in `acts`, in the same order. */
  function Transitions<S, A>(tm: TransitionModel<S, A>, s: S, acts: seq<A>): (r: seq<(S, int)>)
    ensures |r| == |acts|
    ensures forall i :: 0 <= i < |acts| ==>
      r[i].0 == tm.result(s, acts[i]) && r[i].1 == tm.actionCost(s, acts[i], tm.result(s, acts[i]))
  {
    if acts == [] then []
    else
      var a := acts[|acts| - 1];
      var next := tm.result(s, a);
      Transitions(tm, s, acts[..|acts| - 1]) + [(next, tm.actionCost(s, a, next))]
  }

  /** What `next_states(s)` returns. */
  function Successors<S, A>(tm: TransitionModel<S, A>, s: S): (r: seq<(S, int)>)
    ensures |r| == |tm.actions(s)|
    ensures tm.actions(s) == [] ==> r == []
  {
    Transitions(tm, s, tm.actions(s))
  }

  /** `next_states`: the loop that fills the vector with `emplace_back`. */
  method NextStates<S, A>(tm: TransitionModel<S, A>, s: S) returns (r: seq<(S, int)>)
    ensures r == Successors(tm, s)
  {
    var acts := tm.actions(s);
    r := [];
    for i := 0 to |acts|
      invariant r == Transitions(tm, s, acts[..i])
    {
      var next := tm.result(s, acts[i]);
      var cost := tm.actionCost(s, acts[i], next);
      assert acts[..i + 1][..i] == acts[..i];
      r := r + [(next, cost)];
    }
    assert acts[..|acts|] == acts;
  }

  /** The `BaseTransitionModel` view of a transition model: the
      `next_states` capability alone. */
  function AsBaseModel<S, A>(tm: TransitionModel<S, A>): S -> seq<(S, int)>
  {
    s => Successors(tm, s)
  }
}
