/** `BasicTree`: an explicit tree-shaped transition model, a map from each
    state to the set of actions available in it. An action appends itself
    to the state's path and costs 1. */
module BasicTrees {
  import opened Wrappers
  import opened Ints
  import opened TreeStates
  import opened Collections

  class BasicTree {
    var tree: map<TreeState, set<u32>>

    /** Both the default constructor and the one that only reserves
        room start empty. */
    constructor()
      ensures tree == map[]
    {
      tree := map[];
    }

    /** `actions`: the actions stored for `state`, in the set's
        iteration order; `None` when `state` is not a key (the source's
        `at` throws). */
    method Actions(state: TreeState) returns (r: Option<seq<u32>>)
      ensures r.Some? <==> state in tree
      ensures r.Some? ==> Enumerates(r.value, tree[state]) && |r.value| == |tree[state]|
    {
      if state !in tree {
        return None;
      }
      var xs := Enumerate(tree[state]);
      return Some(xs);
    }

    /** `action_cost`: every action costs 1, whatever the states. */
    function ActionCost(current: TreeState, action: u32, next: TreeState): (c: int)
      ensures c == 1
    {
      1
    }

    /** `result`: the state one level deeper, reached by `action`. */
    function Result(state: TreeState, action: u32): (s: TreeState)
      ensures Depth(s) == Depth(state) + 1
      ensures s.path[..|state.path|] == state.path && s.path[|state.path|] == action
    {
      Extend(state, action)
    }

    /** Mutable `operator[]`: a missing key is added with no actions. */
    method Subscript(key: TreeState) returns (v: set<u32>)
      modifies this
      ensures tree == if key in old(tree) then old(tree) else old(tree)[key := {}]
      ensures v == tree[key]
    {
      if key !in tree {
        tree := tree[key := {}];
      }
      v := tree[key];
    }

    /** `tree[state].insert(action)`: writing through the reference that
        the mutable `operator[]` returns. A missing key is first added
        with no actions; the others keep theirs. */
    method InsertAction(key: TreeState, a: u32)
      modifies this
      ensures tree == old(tree)[key := (if key in old(tree) then old(tree)[key] else {}) + {a}]
    {
      var v := Subscript(key);
      tree := tree[key := v + {a}];
    }

    /** Read-only `operator[]`: `None` on a missing key (the source's `at`
        throws). */
    function At(key: TreeState): (r: Option<set<u32>>)
      reads this
      ensures r.Some? <==> key in tree
      ensures r.Some? ==> r.value == tree[key]
    {
      if key in tree then Some(tree[key]) else None
    }

    /** `insert`: an existing key keeps its actions; a new key gets
        `value`. */
    method Insert(key: TreeState, value: set<u32>)
      modifies this
      ensures tree == if key in old(tree) then old(tree) else old(tree)[key := value]
    {
      if key !in tree {
        tree := tree[key := value];
      }
    }

    /** `erase`: removes `key` and nothing else. */
    method Erase(key: TreeState)
      modifies this
      ensures tree == old(tree) - {key}
    {
      tree := tree - {key};
    }

    /** `size`: the number of states with an entry. */
    function Size(): (n: nat)
      reads this
      ensures n == |tree.Keys|
    {
      |tree|
    }

    /** `max_depth`: the depth of the deepest state with an entry, 0 for
        an empty tree. */
    ghost function MaxDepth(): (d: nat)
      reads this
      ensures forall k :: k in tree ==> Depth(k) <= d
      ensures tree == map[] ==> d == 0
      ensures tree != map[] ==> exists k :: k in tree && Depth(k) == d
    {
      var depths := set k | k in tree :: Depth(k);
      assert forall k :: k in tree ==> Depth(k) in depths;
      MaxOf(depths)
    }

    /** `max_branch_factor`: the largest number of actions of any state,
        0 for an empty tree. */
    ghost function MaxBranchFactor(): (b: nat)
      reads this
      ensures forall k :: k in tree ==> |tree[k]| <= b
      ensures tree == map[] ==> b == 0
      ensures tree != map[] ==> exists k :: k in tree && |tree[k]| == b
    {
      var sizes := set k | k in tree :: |tree[k]|;
      assert forall k :: k in tree ==> |tree[k]| in sizes;
      MaxOf(sizes)
    }
  }
}
