/** The frontier engine: a FIFO loop over a caller-owned double-ended
    queue that stops on a goal, on a stop request, on an empty frontier or
    once the frontier holds `limit` nodes, and its three wrappers. */
module Bfs {
  import opened Wrappers
  import opened SearchNode
  import opened Problems
  import opened SearchOrder

  /** `std::numeric_limits<std::size_t>::max()` on a 64-bit target. */
  const SIZE_MAX: nat := 0xFFFF_FFFF_FFFF_FFFF

  /** A double-ended queue owned by its caller and updated in place. */
  class Deque<T> {
    var items: seq<T>

    constructor(init: seq<T>)
      ensures items == init
    {
      items := init;
    }

    method PopFront() returns (x: T)
      requires items != []
      modifies this
      ensures x == old(items)[0] && items == old(items)[1..]
    {
      x := items[0];
      items := items[1..];
    }

    method PushBack(x: T)
      modifies this
      ensures items == old(items) + [x]
    {
      items := items + [x];
    }
  }

  /** A stop source: every copy shares one flag, hence a reference here.
      Once requested, a stop stays requested. */
  class StopSource {
    var stopRequested: bool

    constructor()
      ensures !stopRequested
    {
      stopRequested := false;
    }

    method RequestStop()
      modifies this
      ensures stopRequested
    {
      stopRequested := true;
    }
  }

  datatype BfsOutcome<S> = BfsOutcome(result: Option<Node<S>>, frontier: seq<Node<S>>)

  /** What the engine returns and leaves in the frontier, when it starts on
      frontier `q` with the stop flag `stopped`. */
  ghost function BfsRun<S(!new)>(p: Problem<S>, rank: S -> nat, q: seq<Node<S>>, stopped: bool, limit: nat): (o: BfsOutcome<S>)
    requires Ranked(p.next, rank)
    ensures o.result.Some? ==> p.IsGoal(o.result.value.state)
    ensures o.result.None? ==> o.frontier == [] || stopped || |o.frontier| >= limit
    ensures stopped || |q| >= limit ==> o == BfsOutcome(None, q)
    decreases Weight(p.next, rank, q)
  {
    if q == [] || stopped || |q| >= limit then BfsOutcome(None, q)
    else if p.IsGoal(q[0].state) then BfsOutcome(Some(q[0]), q[1..])
    else
      PopWeight(p, rank, q);
      BfsRun(p, rank, q[1..] + Expansion(p, q[0]), stopped, limit)
  }

  /** `rest` is what follows a goal-free prefix of `all`. */
  ghost predicate AfterGoalFree<S>(p: Problem<S>, all: seq<Node<S>>, rest: seq<Node<S>>)
  {
    |rest| <= |all| && all[|all| - |rest|..] == rest && NoGoal(p, all[..|all| - |rest|])
  }

  lemma AfterGoalFreeCons<S>(p: Problem<S>, x: Node<S>, all: seq<Node<S>>, rest: seq<Node<S>>)
    requires !p.IsGoal(x.state) && AfterGoalFree(p, all, rest)
    ensures AfterGoalFree(p, [x] + all, rest)
  {
    var k := |all| - |rest|;
    assert ([x] + all)[k + 1..] == all[k..];
    assert ([x] + all)[..k + 1] == [x] + all[..k];
  }

  /** The engine meets nodes in the reference order: a goal it returns is
      the first goal of that order, and when it returns nothing, the
      nodes it tested form a goal-free prefix of the order, after which
      the order of the remaining frontier follows. */
  lemma {:induction false} BfsRunFollowsOrder<S(!new)>(p: Problem<S>, rank: S -> nat, q: seq<Node<S>>, stopped: bool, limit: nat)
    requires Ranked(p.next, rank)
    ensures var o := BfsRun(p, rank, q, stopped, limit);
      (o.result.Some? ==> o.result == FirstGoal(p, Order(p, rank, q))) &&
      (o.result.None? ==> AfterGoalFree(p, Order(p, rank, q), Order(p, rank, o.frontier)))
    decreases Weight(p.next, rank, q)
  {
    var all := Order(p, rank, q);
    if q == [] || stopped || |q| >= limit {
      assert all[..0] == [];
    } else {
      PopWeight(p, rank, q);
      var q' := q[1..] + Expansion(p, q[0]);
      var all' := Order(p, rank, q');
      assert all == [q[0]] + all';
      if !p.IsGoal(q[0].state) {
        BfsRunFollowsOrder(p, rank, q', stopped, limit);
        FirstGoalAppend(p, [q[0]], all');
        var o := BfsRun(p, rank, q', stopped, limit);
        if o.result.None? {
          AfterGoalFreeCons(p, q[0], all', Order(p, rank, o.frontier));
        }
      }
    }
  }

  /** A run that ends on a goal or on an empty frontier returns exactly
      the first goal of the reference order. */
  lemma BfsRunFindsFirstGoal<S(!new)>(p: Problem<S>, rank: S -> nat, q: seq<Node<S>>, stopped: bool, limit: nat)
    requires Ranked(p.next, rank)
    ensures var o := BfsRun(p, rank, q, stopped, limit);
      o.result.Some? || o.frontier == [] ==> o.result == FirstGoal(p, Order(p, rank, q))
  {
    BfsRunFollowsOrder(p, rank, q, stopped, limit);
    var o := BfsRun(p, rank, q, stopped, limit);
    if o.result.None? && o.frontier == [] {
      var all := Order(p, rank, q);
      assert all[..|all| - 0] == all;
    }
  }

  /** The engine never adds work: the nodes still below the frontier
      shrink by one for every node it tests, and a run that may start
      tests at least one. */
  lemma {:induction false} BfsRunWeight<S(!new)>(p: Problem<S>, rank: S -> nat, q: seq<Node<S>>, stopped: bool, limit: nat)
    requires Ranked(p.next, rank)
    ensures var o := BfsRun(p, rank, q, stopped, limit);
      Weight(p.next, rank, o.frontier) <= Weight(p.next, rank, q) &&
      (o.result.Some? || (q != [] && !stopped && |q| < limit) ==>
        Weight(p.next, rank, o.frontier) < Weight(p.next, rank, q))
    decreases Weight(p.next, rank, q)
  {
    if q == [] || stopped || |q| >= limit {
    } else if p.IsGoal(q[0].state) {
      WeightAppend(p.next, rank, [q[0]], q[1..]);
      assert [q[0]] + q[1..] == q;
    } else {
      PopWeight(p, rank, q);
      BfsRunWeight(p, rank, q[1..] + Expansion(p, q[0]), stopped, limit);
    }
  }

  /** `_bfs`: pops the front node; a goal requests stop and is returned,
      any other node has its children appended at the back in order. */
  method RunBfs<S(==,!new)>(frontier: Deque<Node<S>>, p: Problem<S>, ssource: StopSource, limit: nat, ghost rank: S -> nat)
    returns (r: Option<Node<S>>)
    requires Ranked(p.next, rank)
    modifies frontier, ssource
    ensures var o := BfsRun(p, rank, old(frontier.items), old(ssource.stopRequested), limit);
      r == o.result && frontier.items == o.frontier
    ensures ssource.stopRequested == (old(ssource.stopRequested) || r.Some?)
  {
    ghost var spec := BfsRun(p, rank, frontier.items, ssource.stopRequested, limit);
    while frontier.items != [] && !ssource.stopRequested && |frontier.items| < limit
      invariant ssource.stopRequested == old(ssource.stopRequested)
      invariant BfsRun(p, rank, frontier.items, ssource.stopRequested, limit) == spec
      decreases Weight(p.next, rank, frontier.items)
    {
      ghost var q := frontier.items;
      var node := frontier.PopFront();
      if p.IsGoal(node.state) {
        ssource.RequestStop();
        return Some(node);
      }
      var children := Expand(p, node);
      PushAll(frontier, children);
      PopWeight(p, rank, q);
    }
    return None;
  }

  /** The loop of `_bfs` that appends the children, in order. */
  method PushAll<T>(frontier: Deque<T>, xs: seq<T>)
    modifies frontier
    ensures frontier.items == old(frontier.items) + xs
  {
    for i := 0 to |xs|
      invariant frontier.items == old(frontier.items) + xs[..i]
    {
      assert xs[..i + 1] == xs[..i] + [xs[i]];
      frontier.PushBack(xs[i]);
    }
    assert xs[..|xs|] == xs;
  }

  /** `interruptible_bfs` over a caller-owned frontier: no size limit. */
  method InterruptibleBfs<S(==,!new)>(frontier: Deque<Node<S>>, p: Problem<S>, ssource: StopSource, ghost rank: S -> nat)
    returns (r: Option<Node<S>>)
    requires Ranked(p.next, rank)
    modifies frontier, ssource
    ensures var o := BfsRun(p, rank, old(frontier.items), old(ssource.stopRequested), SIZE_MAX);
      r == o.result && frontier.items == o.frontier
    ensures ssource.stopRequested == (old(ssource.stopRequested) || r.Some?)
  {
    r := RunBfs(frontier, p, ssource, SIZE_MAX, rank);
  }

  /** `interruptible_bfs` from one node: the frontier starts as that node
      alone, so a goal start node is returned without being expanded. */
  method InterruptibleBfsFrom<S(==,!new)>(init: Node<S>, p: Problem<S>, ssource: StopSource, ghost rank: S -> nat)
    returns (r: Option<Node<S>>)
    requires Ranked(p.next, rank)
    modifies ssource
    ensures r == BfsRun(p, rank, [init], old(ssource.stopRequested), SIZE_MAX).result
    ensures !old(ssource.stopRequested) && p.IsGoal(init.state) ==> r == Some(init)
    ensures ssource.stopRequested == (old(ssource.stopRequested) || r.Some?)
  {
    var frontier := new Deque([init]);
    r := RunBfs(frontier, p, ssource, SIZE_MAX, rank);
  }

  /** `bfs_with_limit`: a fresh stop source that nobody else holds, so
      the run ends only on a goal, an empty frontier or the size limit. */
  method BfsWithLimit<S(==,!new)>(frontier: Deque<Node<S>>, p: Problem<S>, limit: nat, ghost rank: S -> nat)
    returns (r: Option<Node<S>>)
    requires Ranked(p.next, rank)
    modifies frontier
    ensures var o := BfsRun(p, rank, old(frontier.items), false, limit);
      r == o.result && frontier.items == o.frontier
    ensures r.None? ==> frontier.items == [] || |frontier.items| >= limit
  {
    var ssource := new StopSource();
    r := RunBfs(frontier, p, ssource, limit, rank);
  }
}
