/** The reference against which every tree-like strategy is measured.
    A problem whose transitions all lower a `rank` is a finite-depth tree;
    over such a problem `Order(q)` is the order in which a FIFO frontier
    starting as `q` meets nodes when nothing is deduplicated, and
    `FirstGoal` picks the first goal node of a sequence. `Weight(q)`, the
    number of nodes in the subtrees below the frontier, is the measure
    that makes every search loop terminate. */
module SearchOrder {
  import opened Wrappers
  import opened SearchNode
  import opened Problems

  /** Every transition strictly lowers `rank`: the state space below any
      state is a finite-depth tree (no cycles, no infinite descent). */
  ghost predicate Ranked<S(!new)>(next: S -> seq<(S, int)>, rank: S -> nat)
  {
    forall s, i :: 0 <= i < |next(s)| ==> rank(next(s)[i].0) < rank(s)
  }

  /** The number of nodes of the tree-like search space rooted at `s`. */
  ghost function TreeSize<S(!new)>(next: S -> seq<(S, int)>, rank: S -> nat, s: S): nat
    requires Ranked(next, rank)
    decreases rank(s), 1, 0
  {
    1 + StepsSize(next, rank, next(s), rank(s))
  }

  ghost function StepsSize<S(!new)>(next: S -> seq<(S, int)>, rank: S -> nat, steps: seq<(S, int)>, bound: nat): nat
    requires Ranked(next, rank)
    requires forall i :: 0 <= i < |steps| ==> rank(steps[i].0) < bound
    decreases bound, 0, |steps|
  {
    if steps == [] then 0
    else TreeSize(next, rank, steps[0].0) + StepsSize(next, rank, steps[1..], bound)
  }

  /** The number of nodes still to be met from frontier `q`. */
  ghost function Weight<S(!new)>(next: S -> seq<(S, int)>, rank: S -> nat, q: seq<Node<S>>): nat
    requires Ranked(next, rank)
  {
    if q == [] then 0 else TreeSize(next, rank, q[0].state) + Weight(next, rank, q[1..])
  }

  lemma {:induction false} WeightAppend<S(!new)>(next: S -> seq<(S, int)>, rank: S -> nat, a: seq<Node<S>>, b: seq<Node<S>>)
    requires Ranked(next, rank)
    ensures Weight(next, rank, a + b) == Weight(next, rank, a) + Weight(next, rank, b)
  {
    if a == [] {
      assert a + b == b;
    } else {
      assert (a + b)[0] == a[0] && (a + b)[1..] == a[1..] + b;
      WeightAppend(next, rank, a[1..], b);
    }
  }

  /** Dropping nodes from the front of a frontier never adds work. */
  lemma WeightSuffix<S(!new)>(next: S -> seq<(S, int)>, rank: S -> nat, q: seq<Node<S>>, k: nat)
    requires Ranked(next, rank) && k <= |q|
    ensures Weight(next, rank, q[k..]) <= Weight(next, rank, q)
  {
    WeightAppend(next, rank, q[..k], q[k..]);
    assert q[..k] + q[k..] == q;
  }

  lemma {:induction false} WeightOfSteps<S(!new)>(next: S -> seq<(S, int)>, rank: S -> nat, ns: seq<Node<S>>, steps: seq<(S, int)>, bound: nat)
    requires Ranked(next, rank)
    requires forall i :: 0 <= i < |steps| ==> rank(steps[i].0) < bound
    requires |ns| == |steps| && forall i :: 0 <= i < |ns| ==> ns[i].state == steps[i].0
    ensures Weight(next, rank, ns) == StepsSize(next, rank, steps, bound)
    decreases |ns|
  {
    if ns != [] {
      WeightOfSteps(next, rank, ns[1..], steps[1..], bound);
    }
  }

  /** Popping the front node and appending its children removes exactly
      one node from the weight. */
  lemma PopWeight<S(!new)>(p: Problem<S>, rank: S -> nat, q: seq<Node<S>>)
    requires Ranked(p.next, rank) && q != []
    ensures Weight(p.next, rank, q[1..] + Expansion(p, q[0])) == Weight(p.next, rank, q) - 1
  {
    var cs := Expansion(p, q[0]);
    WeightAppend(p.next, rank, q[1..], cs);
    WeightOfSteps(p.next, rank, cs, p.next(q[0].state), rank(q[0].state));
  }

  /** The order in which a FIFO frontier starting as `q` meets nodes when
      every node met is expanded and every child is appended. */
  ghost function Order<S(!new)>(p: Problem<S>, rank: S -> nat, q: seq<Node<S>>): seq<Node<S>>
    requires Ranked(p.next, rank)
    decreases Weight(p.next, rank, q)
  {
    if q == [] then []
    else
      PopWeight(p, rank, q);
      [q[0]] + Order(p, rank, q[1..] + Expansion(p, q[0]))
  }

  /** The reference order has as many entries as the subtrees below the
      frontier have nodes (and as many calls to `next_states`). */
  lemma {:induction false} OrderLength<S(!new)>(p: Problem<S>, rank: S -> nat, q: seq<Node<S>>)
    requires Ranked(p.next, rank)
    ensures |Order(p, rank, q)| == Weight(p.next, rank, q)
    decreases Weight(p.next, rank, q)
  {
    if q != [] {
      PopWeight(p, rank, q);
      OrderLength(p, rank, q[1..] + Expansion(p, q[0]));
    }
  }

  /** The frontier's own nodes are met first, in frontier order. */
  lemma {:induction false} OrderPrefix<S(!new)>(p: Problem<S>, rank: S -> nat, q: seq<Node<S>>)
    requires Ranked(p.next, rank)
    ensures |q| <= |Order(p, rank, q)| && Order(p, rank, q)[..|q|] == q
    decreases Weight(p.next, rank, q)
  {
    if q != [] {
      var q' := q[1..] + Expansion(p, q[0]);
      PopWeight(p, rank, q);
      OrderPrefix(p, rank, q');
      var o, o' := Order(p, rank, q), Order(p, rank, q');
      assert o == [q[0]] + o';
      assert o'[..|q| - 1] == q[1..] by {
        assert q'[..|q| - 1] == q[1..];
      }
      assert o[..|q|] == [q[0]] + o'[..|q| - 1];
    }
  }

  /** After the frontier's own nodes come the generated ones: first the
      children of the front node, then those generated from the rest. */
  lemma GeneratedAfterPop<S(!new)>(p: Problem<S>, rank: S -> nat, q: seq<Node<S>>)
    requires Ranked(p.next, rank) && q != []
    ensures var q' := q[1..] + Expansion(p, q[0]);
      |q| <= |Order(p, rank, q)| && |q'| <= |Order(p, rank, q')| &&
      Order(p, rank, q)[|q|..] == Expansion(p, q[0]) + Order(p, rank, q')[|q'|..]
  {
    var cs := Expansion(p, q[0]);
    var q' := q[1..] + cs;
    var o := Order(p, rank, q);
    var o' := Order(p, rank, q');
    PopWeight(p, rank, q);
    assert o == [q[0]] + o';
    OrderPrefix(p, rank, q');
    var n := |q| - 1;
    assert o[|q|..] == o'[n..];
    SplitAt(o', n, |q'|);
    assert o'[n..|q'|] == q'[n..] == cs;
  }

  lemma SplitAt<T>(s: seq<T>, i: nat, j: nat)
    requires i <= j <= |s|
    ensures s[i..] == s[i..j] + s[j..]
  {
  }

  ghost predicate NoGoal<S>(p: Problem<S>, xs: seq<Node<S>>)
  {
    forall i :: 0 <= i < |xs| ==> !p.IsGoal(xs[i].state)
  }

  lemma NoGoalSnoc<S>(p: Problem<S>, xs: seq<Node<S>>, x: Node<S>)
    requires NoGoal(p, xs) && !p.IsGoal(x.state)
    ensures NoGoal(p, xs + [x])
  {
    assert forall i :: 0 <= i < |xs| ==> (xs + [x])[i] == xs[i];
  }

  /** The first node of `xs` whose state is a goal. */
  ghost function FirstGoal<S>(p: Problem<S>, xs: seq<Node<S>>): (r: Option<Node<S>>)
    ensures r.None? <==> NoGoal(p, xs)
    ensures r.Some? ==> exists k :: 0 <= k < |xs| && xs[k] == r.value && p.IsGoal(r.value.state) && NoGoal(p, xs[..k])
  {
    if xs == [] then None
    else if p.IsGoal(xs[0].state) then
      assert xs[..0] == [];
      Some(xs[0])
    else
      var r := FirstGoal(p, xs[1..]);
      if r.Some? then
        var k :| 0 <= k < |xs[1..]| && xs[1..][k] == r.value && p.IsGoal(r.value.state) && NoGoal(p, xs[1..][..k]);
        assert xs[..k + 1] == [xs[0]] + xs[1..][..k];
        r
      else r
  }

  lemma {:induction false} FirstGoalAppend<S>(p: Problem<S>, a: seq<Node<S>>, b: seq<Node<S>>)
    ensures FirstGoal(p, a + b) == if FirstGoal(p, a).Some? then FirstGoal(p, a) else FirstGoal(p, b)
  {
    if a == [] {
      assert a + b == b;
    } else {
      assert (a + b)[0] == a[0] && (a + b)[1..] == a[1..] + b;
      FirstGoalAppend(p, a[1..], b);
    }
  }

  /** A goal preceded only by non-goals is the first goal. */
  lemma {:induction false} FirstGoalAt<S>(p: Problem<S>, xs: seq<Node<S>>, i: nat)
    requires i < |xs| && NoGoal(p, xs[..i]) && p.IsGoal(xs[i].state)
    ensures FirstGoal(p, xs) == Some(xs[i])
  {
    if i > 0 {
      assert xs[1..][..i - 1] == xs[..i][1..];
      FirstGoalAt(p, xs[1..], i - 1);
      assert !p.IsGoal(xs[..i][0].state);
    }
  }

  /** Every node met after the frontier's own nodes was generated by an
      expansion, so it has a parent: a start node is never met again. */
  lemma {:induction false} GeneratedHaveParents<S(!new)>(p: Problem<S>, rank: S -> nat, q: seq<Node<S>>)
    requires Ranked(p.next, rank)
    ensures |q| <= |Order(p, rank, q)|
    ensures forall i :: |q| <= i < |Order(p, rank, q)| ==> Order(p, rank, q)[i].parent.Some?
    decreases Weight(p.next, rank, q)
  {
    OrderPrefix(p, rank, q);
    if q != [] {
      var cs := Expansion(p, q[0]);
      var q' := q[1..] + cs;
      PopWeight(p, rank, q);
      GeneratedHaveParents(p, rank, q');
      GeneratedAfterPop(p, rank, q);
      var gen := Order(p, rank, q)[|q|..];
      var gen' := Order(p, rank, q')[|q'|..];
      assert gen == cs + gen';
      forall i | |q| <= i < |Order(p, rank, q)|
        ensures Order(p, rank, q)[i].parent.Some?
      {
        var j := i - |q|;
        assert Order(p, rank, q)[i] == gen[j];
        if j < |cs| {
          ExpansionChildren(p, q[0], j);
        } else {
          assert gen[j] == Order(p, rank, q')[|q'| + j - |cs|];
        }
      }
    }
  }

  /** The first goal among the nodes generated from frontier `q`, that
      is, met after the frontier's own nodes. */
  ghost function FirstGenerated<S(!new)>(p: Problem<S>, rank: S -> nat, q: seq<Node<S>>): Option<Node<S>>
    requires Ranked(p.next, rank)
  {
    OrderPrefix(p, rank, q);
    FirstGoal(p, Order(p, rank, q)[|q|..])
  }

  /** One step of a generation-test search: the first generated goal is
      the first goal child of the front node, or else the first goal
      generated from the frontier that follows. */
  lemma GenerationStep<S(!new)>(p: Problem<S>, rank: S -> nat, q: seq<Node<S>>)
    requires Ranked(p.next, rank) && q != []
    ensures var q' := q[1..] + Expansion(p, q[0]);
      Weight(p.next, rank, q') < Weight(p.next, rank, q) &&
      FirstGenerated(p, rank, q) ==
        if FirstGoal(p, Expansion(p, q[0])).Some? then FirstGoal(p, Expansion(p, q[0]))
        else FirstGenerated(p, rank, q')
  {
    var q' := q[1..] + Expansion(p, q[0]);
    PopWeight(p, rank, q);
    GeneratedAfterPop(p, rank, q);
    FirstGoalAppend(p, Expansion(p, q[0]), Order(p, rank, q')[|q'|..]);
  }
}
