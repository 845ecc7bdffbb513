/** `ParallelBFS`: despite its name a sequential, tree-like breadth-first
    search over a local FIFO queue that goal-tests nodes when they are
    generated, never the start node itself. */
module ParallelBfs {
  import opened Wrappers
  import opened SearchNode
  import opened Problems
  import opened SearchOrder

  /** The shared loop: pop the front node, test its children in expansion
      order, return the first goal child at once (its later siblings are
      never queued) and queue every non-goal child. The result is the
      first goal among the generated nodes of the reference order. */
  method GenerationSearch<S(==,!new)>(p: Problem<S>, q0: seq<Node<S>>, ghost rank: S -> nat)
    returns (r: Option<Node<S>>)
    requires Ranked(p.next, rank)
    ensures r == FirstGenerated(p, rank, q0)
  {
    ghost var target := FirstGenerated(p, rank, q0);
    var frontier := q0;
    while frontier != []
      invariant FirstGenerated(p, rank, frontier) == target
      decreases Weight(p.next, rank, frontier)
    {
      ghost var q := frontier;
      var node := frontier[0];
      frontier := frontier[1..];
      var children := Expand(p, node);
      GenerationStep(p, rank, q);
      var found;
      found, frontier := TestChildren(p, children, frontier);
      if found.Some? {
        return found;
      }
    }
    return None;
  }

  /** The loop over the children of one node: the first goal child is
      returned at once; otherwise every child is appended to the frontier. */
  method TestChildren<S>(p: Problem<S>, children: seq<Node<S>>, frontier0: seq<Node<S>>)
    returns (found: Option<Node<S>>, frontier: seq<Node<S>>)
    ensures found == FirstGoal(p, children)
    ensures found.None? ==> frontier == frontier0 + children
  {
    frontier := frontier0;
    for i := 0 to |children|
      invariant frontier == frontier0 + children[..i]
      invariant NoGoal(p, children[..i])
    {
      if p.IsGoal(children[i].state) {
        FirstGoalAt(p, children, i);
        return Some(children[i]), frontier;
      }
      assert children[..i + 1] == children[..i] + [children[i]];
      NoGoalSnoc(p, children[..i], children[i]);
      frontier := frontier + [children[i]];
    }
    assert children[..|children|] == children;
    return None, frontier;
  }

  /** `ParallelBFS::operator()`: the search from a parentless, cost-0 node
      for the initial state. The start node is never goal-tested, and a
      result is always a generated node. */
  method Run<S(==,!new)>(p: Problem<S>, ghost rank: S -> nat) returns (r: Option<Node<S>>)
    requires Ranked(p.next, rank)
    ensures r == FirstGenerated(p, rank, [MakeNode(p.initial)])
    ensures r.Some? ==> p.IsGoal(r.value.state) && r.value.parent.Some?
  {
    var init := MakeNode(p.initial);
    r := GenerationSearch(p, [init], rank);
    GeneratedHaveParents(p, rank, [init]);
    if r.Some? {
      ghost var gen := Order(p, rank, [init])[1..];
      ghost var k :| 0 <= k < |gen| && gen[k] == r.value;
      assert gen[k] == Order(p, rank, [init])[k + 1];
    }
  }

  /** Testing at generation and testing at removal agree whenever the
      start state is not a goal: both return the first goal of the
      reference order. */
  lemma GenerationTestAgrees<S(!new)>(p: Problem<S>, rank: S -> nat, init: Node<S>)
    requires Ranked(p.next, rank)
    requires !p.IsGoal(init.state)
    ensures FirstGenerated(p, rank, [init]) == FirstGoal(p, Order(p, rank, [init]))
  {
    var all := Order(p, rank, [init]);
    OrderPrefix(p, rank, [init]);
    assert all == [init] + all[1..];
    FirstGoalAppend(p, [init], all[1..]);
  }
}
