/** The benchmark harness's solver: it runs every registered search on a
    problem, records one measurement per search, prints solution paths and
    groups the measurements by problem or by search. */
module Solvers {
  import opened Wrappers
  import opened SearchNode
  import opened Problems
  import opened Text

  const NO_SOLUTION := "No solution found!"
  const ARROW := " -> "

  /** The printed form of each state, `show` standing for `operator<<`. */
  function Shows<S>(xs: seq<S>, show: S -> string): (ss: seq<string>)
    ensures |ss| == |xs| && forall i :: 0 <= i < |xs| ==> ss[i] == show(xs[i])
  {
    if xs == [] then [] else Shows(xs[..|xs| - 1], show) + [show(xs[|xs| - 1])]
  }

  /** What `solution_path` prints: the fixed message for a null node, and
      otherwise the states from the root down to the node, joined by the
      arrow. */
  function SolutionText<S>(node: Option<Node<S>>, show: S -> string): string
  {
    match node
    case None => NO_SOLUTION
    case Some(n) => Join(Shows(PathStates(n), show), ARROW)
  }

  /** A parentless node prints as its state alone. */
  lemma SolutionTextRoot<S>(n: Node<S>, show: S -> string)
    requires n.parent.None?
    ensures SolutionText(Some(n), show) == show(n.state)
  {
    assert Shows(PathStates(n), show) == [show(n.state)];
  }

  /** A child prints as its parent's path, the arrow, then its own state:
      the path runs from the root to the node, one arrow per parent link. */
  lemma SolutionTextChild<S>(n: Node<S>, p: Node<S>, show: S -> string)
    requires n.parent == Some(p)
    ensures SolutionText(Some(n), show) == SolutionText(Some(p), show) + ARROW + show(n.state)
  {
    AncestryOfChild(p, n);
    var xs := PathStates(p);
    assert Shows(xs + [n.state], show) == Shows(xs, show) + [show(n.state)];
    JoinSnoc(Shows(xs, show), show(n.state), ARROW);
  }

  /** `solution_path`: push the states on a stack while walking up the
      parent chain, then pop them, printing the arrow between consecutive
      ones. */
  method SolutionPath<S>(node: Option<Node<S>>, show: S -> string) returns (out: string)
    ensures out == SolutionText(node, show)
  {
    if node.None? {
      return NO_SOLUTION;
    }
    var stack := StackStates(node.value);
    out := PopAll(stack, show);
  }

  /** The states from the root to `cur`, none for a null node. */
  ghost function PathOf<S>(cur: Option<Node<S>>): seq<S>
  {
    if cur.Some? then PathStates(cur.value) else []
  }

  lemma PathOfStep<S>(n: Node<S>)
    ensures PathOf(Some(n)) == PathOf(n.parent) + [n.state]
  {
    match n.parent {
      case None =>
        assert PathStates(n) == [n.state];
      case Some(p) =>
        AncestryOfChild(p, n);
    }
  }

  /** The first loop of `solution_path`. The stack is a sequence whose
      front is its top, so it ends holding the states root first. */
  method StackStates<S>(node: Node<S>) returns (stack: seq<S>)
    ensures stack == PathStates(node)
  {
    stack := [];
    ghost var states := PathStates(node);
    var cur := Some(node);
    while cur.Some?
      invariant PathOf(cur) + stack == states
      decreases cur
    {
      var n := cur.value;
      PathOfStep(n);
      assert PathOf(n.parent) + ([n.state] + stack) == (PathOf(n.parent) + [n.state]) + stack;
      stack := [n.state] + stack;
      cur := n.parent;
    }
  }

  /** Printing one more state appends the arrow and that state. */
  lemma PrintStep<S>(states: seq<S>, printed: nat, show: S -> string)
    requires 1 <= printed < |states|
    ensures Join(Shows(states[..printed + 1], show), ARROW) ==
            Join(Shows(states[..printed], show), ARROW) + ARROW + show(states[printed])
  {
    assert states[..printed + 1] == states[..printed] + [states[printed]];
    assert Shows(states[..printed + 1], show) == Shows(states[..printed], show) + [show(states[printed])];
    JoinSnoc(Shows(states[..printed], show), show(states[printed]), ARROW);
  }

  /** The second loop of `solution_path`: print the top, then each further
      state after an arrow. */
  method PopAll<S>(states: seq<S>, show: S -> string) returns (out: string)
    requires |states| >= 1
    ensures out == Join(Shows(states, show), ARROW)
  {
    var stack := states;
    out := show(stack[0]);
    assert Shows(states[..1], show) == [show(states[0])];
    var printed := 1;
    stack := stack[1..];
    while stack != []
      invariant 1 <= printed <= |states| && stack == states[printed..]
      invariant out == Join(Shows(states[..printed], show), ARROW)
      decreases |stack|
    {
      PrintStep(states, printed, show);
      out := out + ARROW + show(stack[0]);
      stack := stack[1..];
      printed := printed + 1;
    }
    assert states[..printed] == states;
  }

  /** `BfsAlgorithm`: a search and its display name. */
  datatype Algorithm<!S(==)> = Algorithm(run: Problem<S> -> Option<Node<S>>, name: string)

  /** `Measurement`: the problem and search names, the elapsed time (in
      the clock's ticks) and the search's result. */
  datatype Measurement<S> = Measurement(problemName: string, algorithmName: string, time: nat,
                                        solution: Option<Node<S>>)

  /** The measurements of `ms` whose key is `k`, in their order in `ms`. */
  function Group<S>(ms: seq<Measurement<S>>, key: Measurement<S> -> string, k: string): (g: seq<Measurement<S>>)
    ensures |g| <= |ms|
    ensures forall i :: 0 <= i < |g| ==> g[i] in ms && key(g[i]) == k
    ensures g == [] <==> forall i :: 0 <= i < |ms| ==> key(ms[i]) != k
  {
    if ms == [] then []
    else Group(ms[..|ms| - 1], key, k) + (if key(ms[|ms| - 1]) == k then [ms[|ms| - 1]] else [])
  }

  /** `Group` is a filter: it splits over concatenation. */
  lemma {:induction false} GroupAppend<S>(ms: seq<Measurement<S>>, ns: seq<Measurement<S>>,
                                          key: Measurement<S> -> string, k: string)
    ensures Group(ms + ns, key, k) == Group(ms, key, k) + Group(ns, key, k)
    decreases |ns|
  {
    if ns == [] {
      assert ms + ns == ms;
    } else {
      assert (ms + ns)[..|ms + ns| - 1] == ms + ns[..|ns| - 1];
      GroupAppend(ms, ns[..|ns| - 1], key, k);
    }
  }

  /** `grouped` holds one group per key that occurs in `ms`, and each
      group is what `Group` selects. */
  ghost predicate GroupedAs<S>(grouped: map<string, seq<Measurement<S>>>, ms: seq<Measurement<S>>,
                               key: Measurement<S> -> string)
  {
    (forall k :: k in grouped <==> exists i :: 0 <= i < |ms| && key(ms[i]) == k) &&
    (forall k :: k in grouped ==> grouped[k] == Group(ms, key, k))
  }

  /** One `push_back` into the group of `m`, created empty when missing. */
  lemma GroupedSnoc<S>(grouped: map<string, seq<Measurement<S>>>, ms: seq<Measurement<S>>,
                       m: Measurement<S>, key: Measurement<S> -> string)
    requires GroupedAs(grouped, ms, key)
    ensures var k := key(m);
      GroupedAs(grouped[k := (if k in grouped then grouped[k] else []) + [m]], ms + [m], key)
  {
    var k := key(m);
    var ms' := ms + [m];
    assert ms'[..|ms'| - 1] == ms;
    var g' := grouped[k := (if k in grouped then grouped[k] else []) + [m]];
    forall k' | k' in g'
      ensures exists i :: 0 <= i < |ms'| && key(ms'[i]) == k'
    {
      if k' == k {
        assert key(ms'[|ms|]) == k';
      } else {
        var i :| 0 <= i < |ms| && key(ms[i]) == k';
        assert key(ms'[i]) == k';
      }
    }
    forall k' | exists i :: 0 <= i < |ms'| && key(ms'[i]) == k'
      ensures k' in g'
    {
      var i :| 0 <= i < |ms'| && key(ms'[i]) == k';
      if i < |ms| {
        assert key(ms[i]) == k';
      }
    }
    if k !in grouped {
      assert Group(ms, key, k) == [];
    }
  }

  /** The loop `grouped[key(result)].push_back(result)` over all results. */
  method GroupBy<S>(ms: seq<Measurement<S>>, key: Measurement<S> -> string)
    returns (grouped: map<string, seq<Measurement<S>>>)
    ensures forall k :: k in grouped <==> exists i :: 0 <= i < |ms| && key(ms[i]) == k
    ensures forall k :: k in grouped ==> grouped[k] == Group(ms, key, k)
  {
    grouped := map[];
    for i := 0 to |ms|
      invariant GroupedAs(grouped, ms[..i], key)
    {
      var k := key(ms[i]);
      GroupedSnoc(grouped, ms[..i], ms[i], key);
      assert ms[..i + 1] == ms[..i] + [ms[i]];
      var group := if k in grouped then grouped[k] else [];
      grouped := grouped[k := group + [ms[i]]];
    }
    assert ms[..|ms|] == ms;
  }

  function ProblemName<S>(m: Measurement<S>): string { m.problemName }

  function AlgorithmName<S>(m: Measurement<S>): string { m.algorithmName }

  /** `Solver`: the registered searches, in registration order, and the
      measurements taken so far. */
  class Solver<S(==)> {
    var algorithms: seq<Algorithm<S>>
    var results: seq<Measurement<S>>

    constructor()
      ensures algorithms == [] && results == []
    {
      algorithms := [];
      results := [];
    }

    /** `add_algorithm`: register one more search at the end. */
    method AddAlgorithm(run: Problem<S> -> Option<Node<S>>, name: string)
      modifies this
      ensures algorithms == old(algorithms) + [Algorithm(run, name)]
      ensures results == old(results)
    {
      algorithms := algorithms + [Algorithm(run, name)];
    }

    /** `solve`: run every registered search on `problem`, in registration
        order, appending one measurement for each. `elapsed(i)` is the time
        the clock measured for the `i`-th search. */
    method Solve(problem: Problem<S>, problemName: string, elapsed: nat -> nat)
      modifies this
      ensures algorithms == old(algorithms)
      ensures |results| == |old(results)| + |algorithms|
      ensures results[..|old(results)|] == old(results)
      ensures forall i :: 0 <= i < |algorithms| ==>
        results[|old(results)| + i] ==
          Measurement(problemName, algorithms[i].name, elapsed(i), algorithms[i].run(problem))
    {
      ghost var before := results;
      for i := 0 to |algorithms|
        invariant algorithms == old(algorithms)
        invariant |results| == |before| + i && results[..|before|] == before
        invariant forall j :: 0 <= j < i ==>
          results[|before| + j] ==
            Measurement(problemName, algorithms[j].name, elapsed(j), algorithms[j].run(problem))
      {
        var a := algorithms[i];
        var solution := a.run(problem);
        results := results + [Measurement(problemName, a.name, elapsed(i), solution)];
      }
    }

    /** `group_by_problem`: each measurement in exactly the group of its
        problem name, in the order it was taken. */
    method GroupByProblem() returns (grouped: map<string, seq<Measurement<S>>>)
      ensures forall k :: k in grouped <==> exists i :: 0 <= i < |results| && results[i].problemName == k
      ensures forall k :: k in grouped ==> grouped[k] == Group(results, ProblemName, k)
    {
      grouped := GroupBy(results, ProblemName);
    }

    /** `group_by_algorithm`: the same, keyed by search name. */
    method GroupByAlgorithm() returns (grouped: map<string, seq<Measurement<S>>>)
      ensures forall k :: k in grouped <==> exists i :: 0 <= i < |results| && results[i].algorithmName == k
      ensures forall k :: k in grouped ==> grouped[k] == Group(results, AlgorithmName, k)
    {
      grouped := GroupBy(results, AlgorithmName);
    }
  }
}
