/** The search node: an immutable record of one state reached along one
    path, linked to the node it was expanded from. As a datatype value a
    node can only mention already-built nodes as its parent, so every
    parent chain is finite and ends at a parentless node. */
module SearchNode {
  import opened Wrappers

  datatype Node<S> = Node(state: S, parent: Option<Node<S>>, pathCost: int)

  /** `Node(state, parent = nullptr, path_cost = 0)`. */
  function MakeNode<S>(state: S, parent: Option<Node<S>> := None, pathCost: int := 0): (n: Node<S>)
    ensures n.state == state && n.parent == parent && n.pathCost == pathCost
  {
    Node(state, parent, pathCost)
  }

  /** The nodes met by walking `parent()` from `n`, listed from the
      parentless root down to `n` itself. */
  function Ancestry<S>(n: Node<S>): (chain: seq<Node<S>>)
    ensures |chain| >= 1 && chain[|chain| - 1] == n
    ensures chain[0].parent == None
    ensures forall i :: 0 < i < |chain| ==> chain[i].parent == Some(chain[i - 1])
    decreases n
  {
    match n.parent
    case None => [n]
    case Some(p) => Ancestry(p) + [n]
  }

  /** The number of `parent()` links from `n` to its root. */
  function Depth<S>(n: Node<S>): (d: nat)
    ensures d == |Ancestry(n)| - 1
    decreases n
  {
    match n.parent
    case None => 0
    case Some(p) => Depth(p) + 1
  }

  /** The parentless node every parent chain ends at. */
  function Root<S>(n: Node<S>): (r: Node<S>)
    ensures r.parent == None && r == Ancestry(n)[0]
  {
    Ancestry(n)[0]
  }

  /** The states from the root to `n`. */
  function PathStates<S>(n: Node<S>): (states: seq<S>)
    ensures |states| == Depth(n) + 1
    ensures states[0] == Root(n).state && states[|states| - 1] == n.state
  {
    var chain := Ancestry(n);
    seq(|chain|, i requires 0 <= i < |chain| => chain[i].state)
  }

  /** A child's chain is its parent's chain plus itself. */
  lemma AncestryOfChild<S>(p: Node<S>, n: Node<S>)
    requires n.parent == Some(p)
    ensures Ancestry(n) == Ancestry(p) + [n]
    ensures PathStates(n) == PathStates(p) + [n.state]
    ensures Root(n) == Root(p)
  {
    assert Ancestry(n) == Ancestry(p) + [n];
  }
}
