/** `ParallelBFSTasks`: the generation-test loop of `ParallelBFS`, run as
    one task, preceded by a goal test of the start node. */
module ParallelBfsTasks {
  import opened Wrappers
  import opened SearchNode
  import opened Problems
  import opened SearchOrder
  import ParallelBfs

  /** `_search`: a goal start node is returned without being expanded;
      otherwise the result is the first goal of the reference order, so
      with the start test every node is tested exactly as a removal-test
      search would. */
  method Search<S(==,!new)>(init: Node<S>, p: Problem<S>, ghost rank: S -> nat) returns (r: Option<Node<S>>)
    requires Ranked(p.next, rank)
    ensures p.IsGoal(init.state) ==> r == Some(init)
    ensures r == FirstGoal(p, Order(p, rank, [init]))
  {
    OrderPrefix(p, rank, [init]);
    if p.IsGoal(init.state) {
      FirstGoalAt(p, Order(p, rank, [init]), 0);
      return Some(init);
    }
    r := ParallelBfs.GenerationSearch(p, [init], rank);
    ParallelBfs.GenerationTestAgrees(p, rank, init);
  }

  /** `ParallelBFSTasks::operator()`: starts from a parentless, cost-0
      node for the initial state and returns exactly what `_search`
      returns. */
  method Run<S(==,!new)>(p: Problem<S>, ghost rank: S -> nat) returns (r: Option<Node<S>>)
    requires Ranked(p.next, rank)
    ensures r == FirstGoal(p, Order(p, rank, [Node(p.initial, None, 0)]))
  {
    var init := MakeNode(p.initial);
    r := Search(init, p, rank);
  }
}
