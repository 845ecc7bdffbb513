/** `Problem<State>`: an initial state, a set of goal states and the
    `next_states` capability of a transition model. Every member is const,
    so a problem is a value. */
module Problems {
  import opened Wrappers
  import opened SearchNode
  import TransitionModels

  datatype Problem<!S(==)> = Problem(initial: S, goal: set<S>, next: S -> seq<(S, int)>)
  {
    /** `is_goal`: membership in the goal set. */
    predicate IsGoal(s: S): (r: bool)
      ensures r <==> s in goal
      ensures goal == {} ==> !r
    {
      s in goal
    }
  }

  /** The problem built from a full `TransitionModel`, as the constructor
      does when it takes ownership of the model. */
  function FromModel<S(==), A>(initial: S, goal: set<S>, tm: TransitionModels.TransitionModel<S, A>): (p: Problem<S>)
    ensures p.initial == initial && p.goal == goal
    ensures p.next == TransitionModels.AsBaseModel(tm)
  {
    Problem(initial, goal, TransitionModels.AsBaseModel(tm))
  }

  /** One child node per (state, cost) pair, in order: parent `n`, and the
      pair's cost as the child's `path_cost`. */
  function ChildNodes<S>(n: Node<S>, steps: seq<(S, int)>): (children: seq<Node<S>>)
    ensures |children| == |steps|
    ensures forall i :: 0 <= i < |steps| ==>
      children[i] == Node(steps[i].0, Some(n), steps[i].1)
  {
    if steps == [] then []
    else ChildNodes(n, steps[..|steps| - 1]) + [Node(steps[|steps| - 1].0, Some(n), steps[|steps| - 1].1)]
  }

  /** What `expand(n)` returns. */
  function Expansion<S(==)>(p: Problem<S>, n: Node<S>): (children: seq<Node<S>>)
    ensures |children| == |p.next(n.state)|
    ensures p.next(n.state) == [] ==> children == []
  {
    ChildNodes(n, p.next(n.state))
  }

  /** `expand`: the loop that pushes one child per successor. */
  method Expand<S(==)>(p: Problem<S>, n: Node<S>) returns (children: seq<Node<S>>)
    ensures children == Expansion(p, n)
  {
    var steps := p.next(n.state);
    children := [];
    for i := 0 to |steps|
      invariant children == ChildNodes(n, steps[..i])
    {
      assert steps[..i + 1][..i] == steps[..i];
      children := children + [MakeNode(steps[i].0, Some(n), steps[i].1)];
    }
    assert steps[..|steps|] == steps;
  }

  /** Every child of `n` has `n` as parent, the successor's state, and the
      step cost itself (not the parent's cost plus it) as `path_cost`. */
  lemma ExpansionChildren<S>(p: Problem<S>, n: Node<S>, i: nat)
    requires i < |p.next(n.state)|
    ensures |Expansion(p, n)| == |p.next(n.state)|
    ensures Expansion(p, n)[i].parent == Some(n)
    ensures Expansion(p, n)[i].state == p.next(n.state)[i].0
    ensures Expansion(p, n)[i].pathCost == p.next(n.state)[i].1
  {
  }
}
