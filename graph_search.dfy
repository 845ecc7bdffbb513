/** Graph search over the adjacency-list problem: a FIFO frontier plus a
    `reached` set, so that every state enters the frontier at most once.
    `breadth_first_search` goal-tests the initial node and then runs the
    same loop as `SyncBFS`, which never tests the initial node itself. */
module GraphSearch {
  import opened Wrappers
  import opened Ints
  import opened SearchNode
  import opened Collections
  import opened GraphProblems

  /** What a search returns: a goal node, `nullptr`, or the
      `out_of_range` exception `expand` throws on a state that is not a
      key of the adjacency list. */
  datatype Outcome = Solved(node: Node<u32>) | NoSolution | OutOfRange

  /** Some walk from the initial state ends at `s`. */
  ghost predicate Reachable(p: GraphProblem, s: u32)
  {
    exists xs :: IsPathFromInitial(p, xs) && xs[|xs| - 1] == s
  }

  /** `a` has been expanded: it is a key, and none of its successors is a
      goal or missing from `reached`. */
  ghost predicate Expanded(p: GraphProblem, reached: set<u32>, a: u32)
  {
    a in p.graph && forall b :: b in p.graph[a] ==> b in reached && !p.IsGoal(b)
  }

  lemma ValidNodeReachable(p: GraphProblem, n: Node<u32>)
    requires ValidNode(p, n)
    ensures Reachable(p, n.state)
  {
    assert IsPathFromInitial(p, PathStates(n));
  }

  /** There are no more than 2^32 distinct 32-bit states. */
  lemma StatesBound(s: set<u32>)
    ensures |s| <= U32_LIMIT
  {
    BoundedCard(s, U32_LIMIT);
  }

  lemma {:induction false} BoundedCard(s: set<nat>, n: nat)
    requires forall x :: x in s ==> x < n
    ensures |s| <= n
  {
    if n > 0 {
      BoundedCard(s - {n - 1}, n - 1);
    }
  }

  /** A set that holds the initial state and every successor of each of its
      members holds every state of every walk from the initial state. */
  lemma {:induction false} WalksStayInside(p: GraphProblem, reached: set<u32>, xs: seq<u32>)
    requires p.initial in reached
    requires forall a :: a in reached ==> Expanded(p, reached, a)
    requires IsPathFromInitial(p, xs)
    ensures forall j :: 0 <= j < |xs| ==> xs[j] in reached
  {
    if |xs| > 1 {
      var ys := xs[..|xs| - 1];
      assert IsPathFromInitial(p, ys) by {
        assert forall j :: 0 <= j < |ys| ==> ys[j] == xs[j];
      }
      WalksStayInside(p, reached, ys);
      assert xs[|xs| - 2] == ys[|ys| - 1];
      assert Expanded(p, reached, xs[|xs| - 2]);
    }
  }

  /** With every reached state expanded, no walk of one step or more ends at
      a goal, and every reachable state has been reached. */
  lemma Exhausted(p: GraphProblem, reached: set<u32>)
    requires p.initial in reached
    requires forall a :: a in reached ==> Expanded(p, reached, a)
    ensures forall xs :: IsPathFromInitial(p, xs) && |xs| >= 2 ==> !p.IsGoal(xs[|xs| - 1])
    ensures forall s :: Reachable(p, s) ==> s in reached
  {
    forall xs | IsPathFromInitial(p, xs)
      ensures xs[|xs| - 1] in reached
      ensures |xs| >= 2 ==> !p.IsGoal(xs[|xs| - 1])
    {
      WalksStayInside(p, reached, xs);
      if |xs| >= 2 {
        assert Expanded(p, reached, xs[|xs| - 2]);
      }
    }
  }

  /** The loop invariant of the search: `pushed` logs the state of every
      node pushed so far; the first `popped` have left the frontier, which
      holds valid nodes for the rest, in order; `reached` is the set of
      logged states; and the first `expanded` logged states are expanded. */
  ghost predicate SearchInv(p: GraphProblem, frontier: seq<Node<u32>>, reached: set<u32>,
                            pushed: seq<u32>, popped: nat, expanded: nat)
  {
    expanded <= popped && |pushed| == popped + |frontier| && |pushed| >= 1 &&
    pushed[0] == p.initial && NoDuplicates(pushed) &&
    (forall j :: 0 <= j < |frontier| ==>
       frontier[j].state == pushed[popped + j] && ValidNode(p, frontier[j])) &&
    (forall s :: s in reached <==> s in pushed) &&
    (forall j :: 0 <= j < |pushed| ==> Reachable(p, pushed[j])) &&
    (forall j :: 0 <= j < expanded ==> Expanded(p, reached, pushed[j]))
  }

  /** `SyncBFS::operator()`. The ghost `pushed` lists the state of every
      node ever pushed on the frontier, in push order. */
  method SyncBfs(p: GraphProblem) returns (r: Outcome, ghost pushed: seq<u32>)
    ensures r.Solved? ==> p.IsGoal(r.node.state) && ValidNode(p, r.node) && r.node.parent.Some?
    ensures r.NoSolution? ==>
      forall xs :: IsPathFromInitial(p, xs) && |xs| >= 2 ==> !p.IsGoal(xs[|xs| - 1])
    ensures r.OutOfRange? ==> exists xs :: IsPathFromInitial(p, xs) && xs[|xs| - 1] !in p.graph
    ensures |pushed| >= 1 && pushed[0] == p.initial && NoDuplicates(pushed)
    ensures forall s :: s in pushed ==> Reachable(p, s)
    ensures r.NoSolution? ==> forall s :: Reachable(p, s) ==> s in pushed
  {
    var init := MakeNode(p.initial);
    RootValid(p);
    ValidNodeReachable(p, init);
    var frontier := [init];
    var reached := {p.initial};
    pushed := [p.initial];
    ghost var k := 0;
    while frontier != []
      invariant SearchInv(p, frontier, reached, pushed, k, k)
      invariant |reached| <= U32_LIMIT
      decreases U32_LIMIT - |reached|, |frontier|
    {
      var node := frontier[0];
      PopPreserves(p, frontier, reached, pushed, k);
      frontier := frontier[1..];
      var children := Expand(p, node);
      if children.None? {
        assert IsPathFromInitial(p, PathStates(node));
        return OutOfRange, pushed;
      }
      ghost var reached0, frontier0 := reached, frontier;
      var found;
      found, frontier, reached, pushed := PushChildren(p, node, children.value, frontier, reached, pushed, k);
      if found.Some? {
        return Solved(found.value), pushed;
      }
      k := k + 1;
      StatesBound(reached);
    }
    Exhausted(p, reached);
    return NoSolution, pushed;
  }

  /** The states of the first `i` children are reached and none is a goal. */
  ghost predicate ChildrenSeen(p: GraphProblem, cs: seq<Node<u32>>, i: nat, reached: set<u32>)
    requires i <= |cs|
  {
    forall m :: 0 <= m < i ==> cs[m].state in reached && !p.IsGoal(cs[m].state)
  }

  lemma ChildSeen(p: GraphProblem, cs: seq<Node<u32>>, i: nat, reached: set<u32>, reached': set<u32>)
    requires i < |cs| && ChildrenSeen(p, cs, i, reached)
    requires reached <= reached' && cs[i].state in reached' && !p.IsGoal(cs[i].state)
    ensures ChildrenSeen(p, cs, i + 1, reached')
  {
  }

  /** The inner loop over the children of `node`: the first goal child is
      returned at once; any other child whose state is new is pushed and
      its state added to `reached`. */
  method PushChildren(p: GraphProblem, node: Node<u32>, cs: seq<Node<u32>>, frontier0: seq<Node<u32>>,
                      reached0: set<u32>, ghost pushed0: seq<u32>, ghost k: nat)
    returns (found: Option<Node<u32>>, frontier: seq<Node<u32>>, reached: set<u32>, ghost pushed: seq<u32>)
    requires SearchInv(p, frontier0, reached0, pushed0, k + 1, k) && pushed0[k] == node.state
    requires ValidNode(p, node) && Expansion(p, node) == Some(cs)
    ensures found.Some? ==>
      p.IsGoal(found.value.state) && ValidNode(p, found.value) && found.value.parent.Some?
    ensures SearchInv(p, frontier, reached, pushed, k + 1, k)
    ensures found.None? ==> SearchInv(p, frontier, reached, pushed, k + 1, k + 1)
    ensures found.None? ==> |reached| > |reached0| || (reached == reached0 && frontier == frontier0)
  {
    frontier, reached, pushed := frontier0, reached0, pushed0;
    for i := 0 to |cs|
      invariant SearchInv(p, frontier, reached, pushed, k + 1, k) && pushed[k] == node.state
      invariant ChildrenSeen(p, cs, i, reached)
      invariant reached0 <= reached
      invariant |reached| > |reached0| || (reached == reached0 && frontier == frontier0)
    {
      var child := cs[i];
      ChildValid(p, node, i);
      if p.IsGoal(child.state) {
        return Some(child), frontier, reached, pushed;
      }
      ghost var reachedBefore := reached;
      if child.state !in reached {
        PushPreserves(p, frontier, reached, pushed, k, child);
        reached := reached + {child.state};
        frontier := frontier + [child];
        pushed := pushed + [child.state];
      }
      ChildSeen(p, cs, i, reachedBefore, reached);
    }
    assert Expanded(p, reached, pushed[k]);
    return None, frontier, reached, pushed;
  }

  /** Popping the front node keeps the invariant, one more node popped. */
  lemma PopPreserves(p: GraphProblem, frontier: seq<Node<u32>>, reached: set<u32>, pushed: seq<u32>, k: nat)
    requires SearchInv(p, frontier, reached, pushed, k, k) && frontier != []
    ensures SearchInv(p, frontier[1..], reached, pushed, k + 1, k)
    ensures pushed[k] == frontier[0].state && ValidNode(p, frontier[0])
  {
    assert forall j :: 0 <= j < |frontier| - 1 ==> frontier[1..][j] == frontier[j + 1];
  }

  /** Pushing a valid node with a new state keeps the invariant. */
  lemma PushPreserves(p: GraphProblem, frontier: seq<Node<u32>>, reached: set<u32>,
                      pushed: seq<u32>, k: nat, child: Node<u32>)
    requires SearchInv(p, frontier, reached, pushed, k + 1, k)
    requires ValidNode(p, child) && child.state !in reached
    ensures SearchInv(p, frontier + [child], reached + {child.state}, pushed + [child.state], k + 1, k)
    ensures pushed[k] == (pushed + [child.state])[k]
  {
    var pushed' := pushed + [child.state];
    var frontier' := frontier + [child];
    var reached' := reached + {child.state};
    ValidNodeReachable(p, child);
    forall j | 0 <= j < |frontier'|
      ensures frontier'[j].state == pushed'[k + 1 + j] && ValidNode(p, frontier'[j])
    {
      if j < |frontier| {
        assert frontier'[j] == frontier[j] && pushed'[k + 1 + j] == pushed[k + 1 + j];
      }
    }
    forall j | 0 <= j < |pushed'|
      ensures Reachable(p, pushed'[j]) && (j < k ==> Expanded(p, reached', pushed'[j]))
    {
      if j < |pushed| {
        assert pushed'[j] == pushed[j];
      }
    }
    forall i, j | 0 <= i < j < |pushed'|
      ensures pushed'[i] != pushed'[j]
    {
      assert pushed'[i] == pushed[i];
      if j < |pushed| {
        assert pushed'[j] == pushed[j];
      }
    }
  }

  /** `breadth_first_search`: a goal initial state is returned as the root
      node; otherwise the search is the loop of `SyncBfs`. */
  method BreadthFirstSearch(p: GraphProblem) returns (r: Outcome, ghost pushed: seq<u32>)
    ensures p.IsGoal(p.initial) ==> r == Solved(MakeNode(p.initial))
    ensures r.Solved? ==> p.IsGoal(r.node.state) && ValidNode(p, r.node)
    ensures r.NoSolution? ==> forall xs :: IsPathFromInitial(p, xs) ==> !p.IsGoal(xs[|xs| - 1])
    ensures r.OutOfRange? ==> exists xs :: IsPathFromInitial(p, xs) && xs[|xs| - 1] !in p.graph
    ensures |pushed| >= 1 && pushed[0] == p.initial && NoDuplicates(pushed)
    ensures forall s :: s in pushed ==> Reachable(p, s)
  {
    var init := MakeNode(p.initial);
    if p.IsGoal(init.state) {
      RootValid(p);
      return Solved(init), [p.initial];
    }
    r, pushed := SyncBfs(p);
  }
}
