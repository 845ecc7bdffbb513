/** The older, graph-only `Problem` of the application: states are 32-bit
    numbers, the goal is a single state (possibly the initial one), and the
    transition relation is an adjacency list keyed by state. */
module GraphProblems {
  import opened Wrappers
  import opened Ints
  import opened SearchNode

  datatype GraphProblem = GraphProblem(initial: u32, goal: u32, graph: map<u32, seq<u32>>)
  {
    /** `is_goal`: equality with the single goal state. */
    predicate IsGoal(s: u32): (r: bool)
      ensures r <==> s == goal
    {
      s == goal
    }
  }

  /** One child per successor, in adjacency order: parent `n` and the
      cumulative cost `n.path_cost() + 1`. */
  function ChildNodes(n: Node<u32>, next: seq<u32>): (children: seq<Node<u32>>)
    ensures |children| == |next|
    ensures forall i :: 0 <= i < |next| ==>
      children[i] == Node(next[i], Some(n), n.pathCost + 1)
  {
    if next == [] then []
    else ChildNodes(n, next[..|next| - 1]) + [Node(next[|next| - 1], Some(n), n.pathCost + 1)]
  }

  /** What `expand(n)` returns; `None` when the state is not a key of the
      adjacency list, where `at` throws `out_of_range`. */
  function Expansion(p: GraphProblem, n: Node<u32>): (r: Option<seq<Node<u32>>>)
    ensures r.None? <==> n.state !in p.graph
    ensures r.Some? ==> |r.value| == |p.graph[n.state]|
    ensures r.Some? ==> forall i :: 0 <= i < |r.value| ==>
      r.value[i].state == p.graph[n.state][i] && r.value[i].parent == Some(n) &&
      r.value[i].pathCost == n.pathCost + 1
  {
    if n.state in p.graph then Some(ChildNodes(n, p.graph[n.state])) else None
  }

  /** `expand`: look the state up, then push one child per successor. */
  method Expand(p: GraphProblem, n: Node<u32>) returns (r: Option<seq<Node<u32>>>)
    ensures r == Expansion(p, n)
  {
    if n.state !in p.graph {
      return None;
    }
    var next := p.graph[n.state];
    var children := [];
    for i := 0 to |next|
      invariant children == ChildNodes(n, next[..i])
    {
      assert next[..i + 1][..i] == next[..i];
      children := children + [MakeNode(next[i], Some(n), n.pathCost + 1)];
    }
    assert next[..|next|] == next;
    return Some(children);
  }

  /** `xs` walks the adjacency list: each state after the first is listed
      among the successors of the one before it. */
  ghost predicate IsPath(g: map<u32, seq<u32>>, xs: seq<u32>)
  {
    forall i :: 0 <= i < |xs| - 1 ==> xs[i] in g && xs[i + 1] in g[xs[i]]
  }

  /** A walk of the problem's graph that starts at the initial state. */
  ghost predicate IsPathFromInitial(p: GraphProblem, xs: seq<u32>)
  {
    |xs| >= 1 && xs[0] == p.initial && IsPath(p.graph, xs)
  }

  /** Every state a walk can reach is a key: the initial state is one, and
      so is every listed successor. */
  ghost predicate Closed(p: GraphProblem)
  {
    p.initial in p.graph &&
    forall a, b :: a in p.graph && b in p.graph[a] ==> b in p.graph
  }

  /** A node whose parent chain is a walk from the initial state and whose
      cost counts its steps, as `expand` builds them from the root node. */
  ghost predicate ValidNode(p: GraphProblem, n: Node<u32>)
  {
    IsPathFromInitial(p, PathStates(n)) && n.pathCost == Depth(n)
  }

  /** The root node `Node(initial)` is valid. */
  lemma RootValid(p: GraphProblem)
    ensures ValidNode(p, MakeNode(p.initial))
  {
    assert PathStates(MakeNode(p.initial)) == [p.initial];
  }

  /** A child built by `expand` from a valid node is valid. */
  lemma {:induction false} ChildValid(p: GraphProblem, n: Node<u32>, i: nat)
    requires ValidNode(p, n) && n.state in p.graph && i < |p.graph[n.state]|
    ensures ValidNode(p, Node(p.graph[n.state][i], Some(n), n.pathCost + 1))
  {
    var c := Node(p.graph[n.state][i], Some(n), n.pathCost + 1);
    AncestryOfChild(n, c);
    var xs := PathStates(n);
    var ys := PathStates(c);
    assert ys == xs + [c.state];
    forall j | 0 <= j < |ys| - 1
      ensures ys[j] in p.graph && ys[j + 1] in p.graph[ys[j]]
    {
      if j < |xs| - 1 {
        assert ys[j] == xs[j] && ys[j + 1] == xs[j + 1];
      } else {
        assert ys[j] == n.state && ys[j + 1] == c.state;
      }
    }
  }

  /** In a closed problem every walk from the initial state ends at a key,
      so `expand` never throws on a node built from the root. */
  lemma ClosedWalksEndAtKeys(p: GraphProblem, xs: seq<u32>)
    requires Closed(p) && IsPathFromInitial(p, xs)
    ensures xs[|xs| - 1] in p.graph
  {
    if |xs| > 1 {
      assert xs[|xs| - 2] in p.graph && xs[|xs| - 1] in p.graph[xs[|xs| - 2]];
    }
  }

  /** The adjacency list of `a`, or nothing when `a` is not a key (what
      `operator[]` would create). */
  function Adjacent(g: map<u32, seq<u32>>, a: u32): (xs: seq<u32>)
    ensures a in g ==> xs == g[a]
    ensures a !in g ==> xs == []
  {
    if a in g then g[a] else []
  }

  /** The Erdős–Rényi draw for the unordered pair `{a, b}` of distinct
      states below `n`: `coin(i, j)` for `i < j` is the Bernoulli trial
      made for that pair. */
  ghost predicate Edge(coin: (u32, u32) -> bool, n: nat, a: u32, b: u32)
  {
    a < n && b < n && a != b && (if a < b then coin(a, b) else coin(b, a))
  }

  /** The pair `(lo, hi)`, `lo < hi`, has been drawn once the outer loop is
      past `lo`, or at `lo` and the inner loop past `hi`. */
  ghost predicate Drawn(i: nat, j: nat, lo: nat, hi: nat)
  {
    lo < i || (lo == i && hi < j)
  }

  ghost predicate StrictlyIncreasing(xs: seq<u32>)
  {
    forall k, l :: 0 <= k < l < |xs| ==> xs[k] < xs[l]
  }

  /** The adjacency lists after drawing every pair up to `(i, j)`. */
  ghost predicate DrawnSoFar(g: map<u32, seq<u32>>, coin: (u32, u32) -> bool, n: nat, i: nat, j: nat)
  {
    (forall a: u32, b: u32 :: b in Adjacent(g, a) <==>
       Edge(coin, n, a, b) && Drawn(i, j, if a < b then a else b, if a < b then b else a)) &&
    (forall a: u32 :: StrictlyIncreasing(Adjacent(g, a)))
  }

  /** The conversion of `num_states - 1`, computed in 32-bit unsigned
      arithmetic, to a 32-bit `int` (modular since C++20). */
  function LastIndex(numStates: u32): (i: int)
    ensures numStates >= 1 && numStates <= 0x8000_0000 ==> i == numStates - 1
    ensures numStates == 0 || numStates > 0x8000_0000 ==> i < 0
  {
    var u := (numStates + U32_MAX) % U32_LIMIT;
    if u < 0x8000_0000 then u else u - U32_LIMIT
  }

  /** `get_rand_graph`, the random draws given as `coin`: first an empty
      list for every state from `num_states - 1` down to 0, then, for every
      pair `i < j` whose draw succeeds, `j` appended to the list of `i` and
      `i` to the list of `j`. */
  method RandGraph(numStates: u32, coin: (u32, u32) -> bool) returns (g: map<u32, seq<u32>>)
    ensures forall a :: a in g ==> a < numStates
    ensures numStates <= 0x8000_0000 ==> forall a: u32 :: a < numStates ==> a in g
    ensures forall a: u32, b: u32 :: b in Adjacent(g, a) <==> Edge(coin, numStates, a, b)
    ensures forall a: u32 :: StrictlyIncreasing(Adjacent(g, a))
  {
    g := map[];
    var i: int := LastIndex(numStates);
    while i >= 0
      invariant i < numStates && i < 0x8000_0000
      invariant forall a :: a in g ==> i < a < numStates && g[a] == []
      invariant numStates <= 0x8000_0000 ==> forall a: u32 :: i < a < numStates ==> a in g
    {
      if i !in g {
        g := g[i := []];
      }
      i := i - 1;
    }
    assert DrawnSoFar(g, coin, numStates, 0, 0);
    var lo: u32 := 0;
    while lo < numStates
      invariant forall a :: a in g ==> a < numStates
      invariant numStates <= 0x8000_0000 ==> forall a: u32 :: a < numStates ==> a in g
      invariant DrawnSoFar(g, coin, numStates, lo, 0)
    {
      g := DrawRow(g, coin, numStates, lo);
      lo := lo + 1;
    }
    EdgesAllDrawn(g, coin, numStates);
  }

  /** The inner loop of `get_rand_graph` for one `i`. */
  method DrawRow(g0: map<u32, seq<u32>>, coin: (u32, u32) -> bool, numStates: u32, lo: u32)
    returns (g: map<u32, seq<u32>>)
    requires lo < numStates
    requires forall a :: a in g0 ==> a < numStates
    requires DrawnSoFar(g0, coin, numStates, lo, 0)
    ensures forall a :: a in g ==> a < numStates
    ensures forall a :: a in g0 ==> a in g
    ensures DrawnSoFar(g, coin, numStates, lo + 1, 0)
  {
    g := g0;
    var hi: u32 := lo + 1;
    while hi < numStates
      invariant lo < hi <= numStates
      invariant forall a :: a in g ==> a < numStates
      invariant forall a :: a in g0 ==> a in g
      invariant DrawnSoFar(g, coin, numStates, lo, hi)
    {
      if coin(lo, hi) {
        g := AddEdge(g, coin, numStates, lo, hi);
      } else {
        NoDrawNoEdge(g, coin, numStates, lo, hi);
      }
      hi := hi + 1;
    }
    RowDone(g, coin, numStates, lo);
  }

  /** `g[i].push_back(j); g[j].push_back(i)` for a successful draw. */
  method AddEdge(g0: map<u32, seq<u32>>, coin: (u32, u32) -> bool, numStates: u32, lo: u32, hi: u32)
    returns (g: map<u32, seq<u32>>)
    requires lo < hi < numStates && coin(lo, hi)
    requires forall a :: a in g0 ==> a < numStates
    requires DrawnSoFar(g0, coin, numStates, lo, hi)
    ensures forall a :: a in g ==> a < numStates
    ensures forall a :: a in g0 ==> a in g
    ensures DrawnSoFar(g, coin, numStates, lo, hi + 1)
  {
    assert forall x :: x in Adjacent(g0, lo) ==> x < hi;
    assert forall x :: x in Adjacent(g0, hi) ==> x < lo;
    var g1 := g0[lo := Adjacent(g0, lo) + [hi]];
    g := g1[hi := Adjacent(g1, hi) + [lo]];
    assert Adjacent(g, lo) == Adjacent(g0, lo) + [hi];
    assert Adjacent(g, hi) == Adjacent(g0, hi) + [lo];
    IncreasingSnoc(Adjacent(g0, lo), hi);
    IncreasingSnoc(Adjacent(g0, hi), lo);
    forall a: u32, b: u32
      ensures b in Adjacent(g, a) <==>
        Edge(coin, numStates, a, b) && Drawn(lo, hi + 1, if a < b then a else b, if a < b then b else a)
    {
      assert b in Adjacent(g0, a) <==>
        Edge(coin, numStates, a, b) && Drawn(lo, hi, if a < b then a else b, if a < b then b else a);
      if a != lo && a != hi {
        assert Adjacent(g, a) == Adjacent(g0, a);
      }
    }
    forall a: u32
      ensures StrictlyIncreasing(Adjacent(g, a))
    {
      if a != lo && a != hi {
        assert Adjacent(g, a) == Adjacent(g0, a);
      }
    }
  }

  lemma IncreasingSnoc(xs: seq<u32>, x: u32)
    requires StrictlyIncreasing(xs)
    requires forall y :: y in xs ==> y < x
    ensures StrictlyIncreasing(xs + [x])
  {
    forall k, l | 0 <= k < l < |xs| + 1
      ensures (xs + [x])[k] < (xs + [x])[l]
    {
      if l == |xs| {
        assert xs[k] in xs;
      }
    }
  }

  /** A failed draw leaves the lists as they are. */
  lemma NoDrawNoEdge(g: map<u32, seq<u32>>, coin: (u32, u32) -> bool, numStates: u32, lo: u32, hi: u32)
    requires lo < hi < numStates && !coin(lo, hi)
    requires DrawnSoFar(g, coin, numStates, lo, hi)
    ensures DrawnSoFar(g, coin, numStates, lo, hi + 1)
  {
  }

  /** Once `j` reaches `num_states`, the row of `i` is complete. */
  lemma RowDone(g: map<u32, seq<u32>>, coin: (u32, u32) -> bool, numStates: u32, lo: u32)
    requires lo < numStates
    requires DrawnSoFar(g, coin, numStates, lo, numStates)
    ensures DrawnSoFar(g, coin, numStates, lo + 1, 0)
  {
  }

  /** Once `i` reaches `num_states`, every pair has been drawn. */
  lemma EdgesAllDrawn(g: map<u32, seq<u32>>, coin: (u32, u32) -> bool, numStates: u32)
    requires DrawnSoFar(g, coin, numStates, numStates, 0)
    ensures forall a: u32, b: u32 :: b in Adjacent(g, a) <==> Edge(coin, numStates, a, b)
  {
  }

  /** The generated graph is undirected and has no self-loops. */
  lemma EdgeSymmetric(coin: (u32, u32) -> bool, n: nat, a: u32, b: u32)
    ensures Edge(coin, n, a, b) <==> Edge(coin, n, b, a)
    ensures !Edge(coin, n, a, a)
  {
  }

  /** When every state is a key, the graph of `get_rand_graph` is closed
      under its edges; with the initial state drawn below `num_states`
      the problem is closed, so its searches never throw. */
  lemma RandGraphClosed(numStates: u32, coin: (u32, u32) -> bool, g: map<u32, seq<u32>>, initial: u32, goal: u32)
    requires numStates <= 0x8000_0000 && initial < numStates
    requires forall a :: a in g ==> a < numStates
    requires forall a: u32 :: a < numStates ==> a in g
    requires forall a: u32, b: u32 :: b in Adjacent(g, a) <==> Edge(coin, numStates, a, b)
    ensures Closed(GraphProblem(initial, goal, g))
  {
    forall a, b | a in g && b in g[a]
      ensures b in g
    {
      assert b in Adjacent(g, a);
    }
  }
}
