/** The sequential bookkeeping of the multithreaded search: the status
    flags shared by the director and its workers, the hand-over of nodes
    to workers, and the director's fan-out and distribution loop. Whether
    a worker's try-lock succeeds is an input, and so is what each
    worker's search eventually returns. */
module MultithreadBfs {
  import opened Wrappers
  import opened SearchNode
  import opened Problems
  import opened SearchOrder
  import opened Bfs

  /** Two one-shot flags: "solution found" and "search finished". Copies
      of a controller share both flags, hence a reference here. */
  class SearchStatusController {
    var solutionFound: bool
    var searchFinished: bool

    /** A found solution always finishes the search. */
    ghost predicate Valid()
      reads this
    {
      solutionFound ==> searchFinished
    }

    constructor()
      ensures !solutionFound && !searchFinished && Valid()
    {
      solutionFound := false;
      searchFinished := false;
    }

    method SignalSolutionFound()
      modifies this
      ensures solutionFound && searchFinished && Valid()
    {
      solutionFound := true;
      searchFinished := true;
    }

    /** Sets only "search finished"; a flag once set is never cleared, so
      signalling twice changes nothing. */
    method SignalSearchFinished()
      modifies this
      ensures searchFinished && solutionFound == old(solutionFound)
      ensures old(Valid()) ==> Valid()
    {
      searchFinished := true;
    }
  }

  class Worker<S> {
    var frontier: seq<Node<S>>
    var status: SearchStatusController

    /** A worker starts idle, with a status controller of its own whose
        flags are clear; `start_search` replaces it with the director's. */
    constructor()
      ensures frontier == [] && fresh(status)
      ensures !status.solutionFound && !status.searchFinished
    {
      frontier := [];
      status := new SearchStatusController();
    }

    /** `start_search`: the start node joins the worker's frontier and the
        worker shares the director's status flags. */
    method StartSearch(init: Node<S>, controller: SearchStatusController)
      modifies this
      ensures frontier == old(frontier) + [init] && status == controller
    {
      frontier := frontier + [init];
      status := controller;
    }

    /** `add_work_if_needed`: the node is appended exactly when the
        worker's lock was free (`lockFree`), and the answer says so. */
    method AddWorkIfNeeded(node: Node<S>, lockFree: bool) returns (added: bool)
      modifies this
      ensures added == lockFree
      ensures frontier == if lockFree then old(frontier) + [node] else old(frontier)
      ensures status == old(status)
    {
      if lockFree {
        frontier := frontier + [node];
        return true;
      }
      return false;
    }
  }

  /** The number of `true` entries among the first `n` of `bs`. */
  function CountTrue(bs: seq<bool>, n: nat): (c: nat)
    requires n <= |bs|
    ensures c <= n
  {
    if n == 0 then 0 else CountTrue(bs, n - 1) + (if bs[n - 1] then 1 else 0)
  }

  function Min(a: nat, b: nat): nat { if a <= b then a else b }

  class ThreadDirector<S(==,!new)> {
    const numThreads: nat
    const minStartingPoints: nat
    const workers: seq<Worker<S>>
    const mainFrontier: Deque<Node<S>>
    const status: SearchStatusController
    var solution: Option<Node<S>>

    /** One distinct worker per thread. */
    ghost predicate Valid()
      reads this
    {
      |workers| == numThreads &&
      forall i, j :: 0 <= i < |workers| && 0 <= j < |workers| && i != j ==> workers[i] != workers[j]
    }

    constructor(numThreads: nat, minStartingPoints: nat)
      ensures this.numThreads == numThreads && this.minStartingPoints == minStartingPoints
      ensures Valid() && mainFrontier.items == [] && solution == None
      ensures !status.solutionFound && !status.searchFinished
      ensures forall i :: 0 <= i < |workers| ==>
        workers[i].frontier == [] && workers[i].status != status &&
        !workers[i].status.solutionFound && !workers[i].status.searchFinished
      ensures fresh(mainFrontier) && fresh(status) && forall i :: 0 <= i < |workers| ==> fresh(workers[i])
    {
      this.numThreads := numThreads;
      this.minStartingPoints := minStartingPoints;
      var ws: seq<Worker<S>> := [];
      for i := 0 to numThreads
        invariant |ws| == i
        invariant forall k :: 0 <= k < i ==> fresh(ws[k]) && ws[k].frontier == [] && fresh(ws[k].status)
        invariant forall k :: 0 <= k < i ==> !ws[k].status.solutionFound && !ws[k].status.searchFinished
        invariant forall k, l :: 0 <= k < l < i ==> ws[k] != ws[l]
      {
        var w := new Worker();
        ws := ws + [w];
      }
      workers := ws;
      mainFrontier := new Deque([]);
      status := new SearchStatusController();
      solution := None;
    }

    /** `generate_work`: lets the frontier grow by `newChildsCount` nodes
        (or stop earlier on a goal or an empty frontier); a goal found is
        recorded and signalled. */
    method GenerateWork(p: Problem<S>, newChildsCount: nat, ghost rank: S -> nat)
      requires Ranked(p.next, rank)
      modifies this, mainFrontier, status
      ensures var o := BfsRun(p, rank, old(mainFrontier.items), false, old(|mainFrontier.items|) + newChildsCount);
        mainFrontier.items == o.frontier &&
        (o.result.Some? ==> solution == o.result && status.solutionFound && status.searchFinished) &&
        (o.result.None? ==>
           solution == old(solution) && status.solutionFound == old(status.solutionFound) &&
           status.searchFinished == old(status.searchFinished))
    {
      var limit := |mainFrontier.items| + newChildsCount;
      var possibleSolution := BfsWithLimit(mainFrontier, p, limit, rank);
      if possibleSolution.Some? {
        status.SignalSolutionFound();
        solution := possibleSolution;
      }
    }

    /** `distribute_work`: offers the current front node to workers 0, 1,
        ... in turn and pops it only when a worker accepts, until the
        frontier is empty or a solution is known. The first
        `Min(|frontier|, accepting)` nodes leave, in order, the k-th to
        the k-th accepting worker. */
    method DistributeWork(lockFree: seq<bool>)
      requires Valid() && |lockFree| == numThreads
      modifies mainFrontier, workers
      ensures status.solutionFound ==> mainFrontier.items == old(mainFrontier.items)
      ensures !status.solutionFound ==>
        mainFrontier.items == old(mainFrontier.items)[Min(|old(mainFrontier.items)|, CountTrue(lockFree, numThreads))..]
      ensures forall k :: 0 <= k < numThreads ==>
        workers[k].status == old(workers[k].status) &&
        workers[k].frontier == old(workers[k].frontier) +
          HandedBefore(lockFree, old(mainFrontier.items), k, if status.solutionFound then 0 else numThreads)
    {
      ghost var m := mainFrontier.items;
      for i := 0 to numThreads
        invariant status.solutionFound ==> i == 0
        invariant CountTrue(lockFree, i) <= |m| && mainFrontier.items == m[CountTrue(lockFree, i)..]
        invariant forall k :: 0 <= k < numThreads ==>
          workers[k].status == old(workers[k].status) &&
          workers[k].frontier == old(workers[k].frontier) + HandedBefore(lockFree, m, k, i)
      {
        if mainFrontier.items == [] || status.solutionFound {
          if !status.solutionFound {
            RestGetNothing(lockFree, m, i);
          }
          break;
        }
        Offer(lockFree, i, m);
        HandOutStep(lockFree, m, i);
      }
    }

    /** One round of `distribute_work`: the front node goes to worker `i`
        if its lock is free, and leaves the frontier only then. */
    method Offer(lockFree: seq<bool>, i: nat, ghost m: seq<Node<S>>)
      requires Valid() && |lockFree| == numThreads && i < numThreads
      requires CountTrue(lockFree, i) < |m| && mainFrontier.items == m[CountTrue(lockFree, i)..]
      modifies mainFrontier, workers[i]
      ensures mainFrontier.items == m[CountTrue(lockFree, i + 1)..]
      ensures workers[i].status == old(workers[i].status)
      ensures workers[i].frontier == old(workers[i].frontier) + Handed(lockFree, m, i)
      ensures forall k :: 0 <= k < numThreads && k != i ==>
        workers[k].frontier == old(workers[k].frontier) && workers[k].status == old(workers[k].status)
    {
      var added := workers[i].AddWorkIfNeeded(mainFrontier.items[0], lockFree[i]);
      if added {
        var _ := mainFrontier.PopFront();
      }
    }

    /** `search`: fans out from the initial node until the frontier
        holds `minStartingPoints + 1` nodes, returns at once if that finds
        a goal or empties the frontier, otherwise starts one worker per
        thread and alternates `generate_work(1)` with `distribute_work`
        until a solution is known or the frontier is empty; then it
        signals the end of the search and joins the workers, the last
        non-null worker result winning. `lockFree(round, i)` is the
        outcome of worker `i`'s try-lock in distribution round `round`;
        `workerResults` holds what each worker's search returns. */
    method Search(p: Problem<S>, ghost rank: S -> nat, lockFree: (nat, nat) -> bool, workerResults: seq<Option<Node<S>>>)
      returns (r: Option<Node<S>>)
      requires Ranked(p.next, rank)
      requires Valid() && mainFrontier.items == [] && solution == None
      requires !status.solutionFound && !status.searchFinished
      requires numThreads <= minStartingPoints + 1
      requires |workerResults| == numThreads
      requires forall k :: 0 <= k < numThreads && workerResults[k].Some? ==> p.IsGoal(workerResults[k].value.state)
      modifies this, mainFrontier, status, workers
      ensures r == solution && (r.Some? ==> p.IsGoal(r.value.state))
      ensures var fan := BfsRun(p, rank, [MakeNode(p.initial)], false, 1 + minStartingPoints);
        status.searchFinished <==> fan.result.Some? || fan.frontier != []
      ensures var fan := BfsRun(p, rank, [MakeNode(p.initial)], false, 1 + minStartingPoints);
        fan.result.Some? || fan.frontier == [] ==>
          r == FirstGoal(p, Order(p, rank, [MakeNode(p.initial)])) &&
          forall k :: 0 <= k < numThreads ==> workers[k].frontier == old(workers[k].frontier)
      ensures var fan := BfsRun(p, rank, [MakeNode(p.initial)], false, 1 + minStartingPoints);
        fan.result.None? && fan.frontier != [] && AnyResult(workerResults) ==>
          r == Joined(workerResults, None)
    {
      FanOut(p, rank);
      if status.solutionFound || mainFrontier.items == [] {
        return solution;
      }
      StartWorkers();
      KeepDistributing(p, rank, lockFree);
      status.SignalSearchFinished();
      ghost var own := solution;
      JoinWorkers(workerResults);
      if AnyResult(workerResults) {
        JoinedFixed(workerResults, own, None);
      }
      return solution;
    }

    /** The start of `search`: the initial node is pushed and the frontier
        grown to `minStartingPoints + 1` nodes. */
    method FanOut(p: Problem<S>, ghost rank: S -> nat)
      requires Ranked(p.next, rank)
      requires mainFrontier.items == [] && solution == None
      requires !status.solutionFound && !status.searchFinished
      modifies this, mainFrontier, status
      ensures var fan := BfsRun(p, rank, [MakeNode(p.initial)], false, 1 + minStartingPoints);
        mainFrontier.items == fan.frontier && solution == fan.result &&
        status.solutionFound == status.searchFinished == fan.result.Some?
      ensures status.solutionFound || mainFrontier.items == [] ==>
        solution == FirstGoal(p, Order(p, rank, [MakeNode(p.initial)]))
    {
      var init := MakeNode(p.initial);
      mainFrontier.PushBack(init);
      GenerateWork(p, minStartingPoints, rank);
      BfsRunFindsFirstGoal(p, rank, [init], false, 1 + minStartingPoints);
    }

    /** The main loop of `search`: while no solution is known and work
        remains, grow the frontier by one node and offer work to the
        workers. `lockFree(round, i)` is worker `i`'s try-lock outcome in
        round `round`. */
    method KeepDistributing(p: Problem<S>, ghost rank: S -> nat, lockFree: (nat, nat) -> bool)
      requires Ranked(p.next, rank) && Valid()
      requires solution.Some? ==> p.IsGoal(solution.value.state)
      modifies this, mainFrontier, status, workers
      ensures status.solutionFound || mainFrontier.items == []
      ensures solution.Some? ==> p.IsGoal(solution.value.state)
      ensures old(status.solutionFound) ==> status.solutionFound
    {
      var round := 0;
      while !status.solutionFound && mainFrontier.items != []
        invariant solution.Some? ==> p.IsGoal(solution.value.state)
        invariant old(status.solutionFound) ==> status.solutionFound
        decreases Weight(p.next, rank, mainFrontier.items)
      {
        var offers := seq(numThreads, k requires 0 <= k => lockFree(round, k));
        Round(p, rank, offers);
        round := round + 1;
      }
    }

    /** One round of the main loop: `generate_work(1)`, then
        `distribute_work`. The nodes still below the main frontier
        decrease, so the loop ends. */
    method Round(p: Problem<S>, ghost rank: S -> nat, offers: seq<bool>)
      requires Ranked(p.next, rank) && Valid() && |offers| == numThreads
      requires mainFrontier.items != [] && !status.solutionFound
      requires solution.Some? ==> p.IsGoal(solution.value.state)
      modifies this, mainFrontier, status, workers
      ensures Weight(p.next, rank, mainFrontier.items) < Weight(p.next, rank, old(mainFrontier.items))
      ensures solution.Some? ==> p.IsGoal(solution.value.state)
    {
      ghost var before := mainFrontier.items;
      GenerateWork(p, 1, rank);
      BfsRunWeight(p, rank, before, false, |before| + 1);
      ghost var generated := mainFrontier.items;
      DistributeWork(offers);
      ghost var handed := |generated| - |mainFrontier.items|;
      assert mainFrontier.items == generated[handed..];
      WeightSuffix(p.next, rank, generated, handed);
    }

    /** The join at the end of `search`: each worker's result in turn
        replaces the solution when it is non-null. */
    method JoinWorkers(workerResults: seq<Option<Node<S>>>)
      modifies this
      ensures solution == Joined(workerResults, old(solution))
    {
      ghost var own := solution;
      for k := 0 to |workerResults|
        invariant solution == Joined(workerResults[..k], own)
      {
        assert workerResults[..k + 1][..k] == workerResults[..k];
        if workerResults[k].Some? {
          solution := workerResults[k];
        }
      }
      assert workerResults[..|workerResults|] == workerResults;
    }

    /** `start_workers`: the first `numThreads` frontier nodes, in order,
        go one to each worker, which then shares the status flags. */
    method StartWorkers()
      requires Valid() && |mainFrontier.items| >= numThreads
      modifies mainFrontier, workers
      ensures mainFrontier.items == old(mainFrontier.items)[numThreads..]
      ensures forall i :: 0 <= i < numThreads ==>
        workers[i].frontier == old(workers[i].frontier) + [old(mainFrontier.items)[i]] &&
        workers[i].status == status
    {
      ghost var m := mainFrontier.items;
      for i := 0 to numThreads
        invariant mainFrontier.items == m[i..]
        invariant forall k :: 0 <= k < i ==>
          workers[k].frontier == old(workers[k].frontier) + [m[k]] && workers[k].status == status
        invariant forall k :: i <= k < numThreads ==> workers[k].frontier == old(workers[k].frontier)
      {
        workers[i].StartSearch(mainFrontier.items[0], status);
        var _ := mainFrontier.PopFront();
      }
    }
  }

  /** What worker `k` is handed out of frontier `m` when the workers'
      locks are free as `lockFree` says: the next unhanded node, if any. */
  function Handed<T>(lockFree: seq<bool>, m: seq<T>, k: nat): (h: seq<T>)
    requires k < |lockFree|
    ensures |h| <= 1
  {
    if lockFree[k] && CountTrue(lockFree, k) < |m| then [m[CountTrue(lockFree, k)]] else []
  }

  /** The outcome of joining the workers in order over the director's own
      `own` result: the last non-null worker result, or `own` if all are
      null. */
  function Joined<T>(results: seq<Option<T>>, own: Option<T>): (r: Option<T>)
    ensures r == own || r in results
  {
    if results == [] then own
    else if results[|results| - 1].Some? then results[|results| - 1]
    else Joined(results[..|results| - 1], own)
  }

  predicate AnyResult<T>(results: seq<Option<T>>)
  {
    exists k :: 0 <= k < |results| && results[k].Some?
  }

  /** The last non-null worker result wins the join. */
  lemma {:induction false} JoinedLastWins<T>(results: seq<Option<T>>, own: Option<T>, k: nat)
    requires k < |results| && results[k].Some?
    requires forall j :: k < j < |results| ==> results[j].None?
    ensures Joined(results, own) == results[k]
  {
    if k < |results| - 1 {
      var front := results[..|results| - 1];
      JoinedLastWins(front, own, k);
    }
  }

  /** With every worker result null, the director's own result stands. */
  lemma {:induction false} JoinedAllNull<T>(results: seq<Option<T>>, own: Option<T>)
    requires !AnyResult(results)
    ensures Joined(results, own) == own
  {
    if results != [] {
      var front := results[..|results| - 1];
      assert !AnyResult(front) by {
        forall k | 0 <= k < |front| ensures front[k].None? { assert front[k] == results[k]; }
      }
      JoinedAllNull(front, own);
    }
  }

  /** Once any worker result is non-null, the join is non-null and no
      longer depends on the director's own result. */
  lemma {:induction false} JoinedFixed<T>(results: seq<Option<T>>, own: Option<T>, other: Option<T>)
    requires AnyResult(results)
    ensures Joined(results, own).Some? && Joined(results, own) == Joined(results, other)
  {
    var front := results[..|results| - 1];
    if results[|results| - 1].None? {
      var k :| 0 <= k < |results| && results[k].Some?;
      assert front[k] == results[k];
      JoinedFixed(front, own, other);
    }
  }

  /** What worker `k` holds of `m` once workers `0 .. i-1` were offered. */
  function HandedBefore<T>(lockFree: seq<bool>, m: seq<T>, k: nat, i: nat): (h: seq<T>)
    requires k < |lockFree|
    ensures k >= i ==> h == []
  {
    if k < i then Handed(lockFree, m, k) else []
  }

  /** One offer: the count of handed-out nodes grows exactly when the
      worker accepts, and only the offered worker's share changes. */
  lemma HandOutStep<T>(lockFree: seq<bool>, m: seq<T>, i: nat)
    requires i < |lockFree| && CountTrue(lockFree, i) < |m|
    ensures var c := CountTrue(lockFree, i);
      Min(|m|, c) == c &&
      (lockFree[i] ==>
         CountTrue(lockFree, i + 1) == c + 1 && m[c..][1..] == m[Min(|m|, c + 1)..] &&
         HandedBefore(lockFree, m, i, i + 1) == [m[c]]) &&
      (!lockFree[i] ==> CountTrue(lockFree, i + 1) == c && HandedBefore(lockFree, m, i, i + 1) == [])
    ensures forall k :: 0 <= k < |lockFree| && k != i ==> HandedBefore(lockFree, m, k, i + 1) == HandedBefore(lockFree, m, k, i)
  {
  }

  /** Once every node has been handed out, offering to the remaining
      workers would change nothing. */
  lemma RestGetNothing<T>(lockFree: seq<bool>, m: seq<T>, i: nat)
    requires i <= |lockFree| && CountTrue(lockFree, i) >= |m|
    ensures forall k :: 0 <= k < |lockFree| ==> HandedBefore(lockFree, m, k, i) == HandedBefore(lockFree, m, k, |lockFree|)
    ensures Min(|m|, CountTrue(lockFree, i)) == Min(|m|, CountTrue(lockFree, |lockFree|))
  {
    forall k | i <= k <= |lockFree|
      ensures CountTrue(lockFree, i) <= CountTrue(lockFree, k)
    {
      CountTrueMonotone(lockFree, i, k);
    }
  }

  lemma {:induction false} CountTrueMonotone(bs: seq<bool>, i: nat, k: nat)
    requires i <= k <= |bs|
    ensures CountTrue(bs, i) <= CountTrue(bs, k)
    decreases k
  {
    if i < k {
      CountTrueMonotone(bs, i, k - 1);
    }
  }

  /** `multithread_bfs`: one worker per hardware thread and four times as
      many starting points, which always leaves enough nodes for every
      worker once the fan-out ends without a solution. */
  method MultithreadSearch<S(==,!new)>(p: Problem<S>, ghost rank: S -> nat, hardwareConcurrency: nat,
                                       lockFree: (nat, nat) -> bool, workerResults: seq<Option<Node<S>>>)
    returns (r: Option<Node<S>>)
    requires Ranked(p.next, rank)
    requires |workerResults| == hardwareConcurrency
    requires forall k :: 0 <= k < hardwareConcurrency && workerResults[k].Some? ==> p.IsGoal(workerResults[k].value.state)
    ensures r.Some? ==> p.IsGoal(r.value.state)
    ensures var fan := BfsRun(p, rank, [MakeNode(p.initial)], false, 1 + 4 * hardwareConcurrency);
      fan.result.Some? || fan.frontier == [] ==> r == FirstGoal(p, Order(p, rank, [MakeNode(p.initial)]))
    ensures var fan := BfsRun(p, rank, [MakeNode(p.initial)], false, 1 + 4 * hardwareConcurrency);
      fan.result.None? && fan.frontier != [] && AnyResult(workerResults) ==> r == Joined(workerResults, None)
  {
    var director := new ThreadDirector(hardwareConcurrency, hardwareConcurrency * 4);
    r := director.Search(p, rank, lockFree, workerResults);
  }
}
