/** `BasicGraph`: an explicit graph as a vector of adjacency sets; the
    states are node indices, an action names the node it leads to, and
    every action costs 1. */
module BasicGraphs {
  import opened Wrappers
  import opened Ints
  import opened Collections

  /** `std::numeric_limits<std::size_t>::max()` on a 64-bit target. */
  const SIZE_MAX: nat := 0xFFFF_FFFF_FFFF_FFFF

  /** The largest adjacency-set size in `gs`, 0 when `gs` is empty. */
  function MaxSize(gs: seq<set<u32>>): (d: nat)
    ensures forall i :: 0 <= i < |gs| ==> |gs[i]| <= d
    ensures gs == [] ==> d == 0
    ensures gs != [] ==> exists i :: 0 <= i < |gs| && |gs[i]| == d
  {
    if gs == [] then 0
    else
      var d := MaxSize(gs[..|gs| - 1]);
      var last := |gs[|gs| - 1]|;
      assert forall i :: 0 <= i < |gs| - 1 ==> gs[i] == gs[..|gs| - 1][i];
      if d < last then last else d
  }

  /** The smallest adjacency-set size in `gs`, `SIZE_MAX` when `gs` is
      empty (the reduction's starting value). */
  function MinSize(gs: seq<set<u32>>): (d: nat)
    ensures forall i :: 0 <= i < |gs| ==> d <= |gs[i]|
    ensures gs == [] ==> d == SIZE_MAX
    ensures gs != [] ==> exists i :: 0 <= i < |gs| && |gs[i]| == d
  {
    if gs == [] then SIZE_MAX
    else
      var d := MinSize(gs[..|gs| - 1]);
      var last := |gs[|gs| - 1]|;
      assert forall i :: 0 <= i < |gs| - 1 ==> gs[i] == gs[..|gs| - 1][i];
      if |gs| > 1 && d <= last then d else last
  }

  class BasicGraph {
    var graph: seq<set<u32>>

    /** `graph_size` nodes without edges; the default constructor is the
        case of 0 nodes. */
    constructor(graphSize: u32)
      ensures |graph| == graphSize && forall i :: 0 <= i < graphSize ==> graph[i] == {}
    {
      graph := seq(graphSize, _ => {});
    }

    /** `actions`: the neighbours of `state` in the set's iteration order;
        `None` when `state` is not a node (the source's `at` throws). */
    method Actions(state: u32) returns (r: Option<seq<u32>>)
      ensures r.Some? <==> state < |graph|
      ensures r.Some? ==> Enumerates(r.value, graph[state]) && |r.value| == |graph[state]|
    {
      if state >= |graph| {
        return None;
      }
      var xs := Enumerate(graph[state]);
      return Some(xs);
    }

    /** `action_cost`: every edge costs 1. */
    function ActionCost(current: u32, action: u32, next: u32): (c: int)
      ensures c == 1
    {
      1
    }

    /** `result`: the action is the node it leads to, whatever the
        current node. */
    function Result(state: u32, action: u32): (s: u32)
      ensures s == action
    {
      action
    }

    /** `push_back`: fails (the source throws `overflow_error`) once the
        graph holds `max(uint32)` nodes, and then changes nothing;
        otherwise appends one node. */
    method PushBack(node: set<u32>) returns (ok: bool)
      modifies this
      ensures ok <==> old(|graph|) < U32_MAX
      ensures graph == if ok then old(graph) + [node] else old(graph)
    {
      if |graph| >= U32_MAX {
        return false;
      }
      graph := graph + [node];
      return true;
    }

    /** `operator[]` (the index is unchecked, so it must be in range). */
    function Get(idx: nat): (s: set<u32>)
      requires idx < |graph|
      reads this
      ensures s == graph[idx]
    {
      graph[idx]
    }

    /** `graph[i].insert(v)`: writing through the reference that the
        mutable `operator[]` returns; the other nodes keep their edges. */
    method InsertNeighbour(i: nat, v: u32)
      requires i < |graph|
      modifies this
      ensures graph == old(graph)[i := old(graph)[i] + {v}]
    {
      graph := graph[i := graph[i] + {v}];
    }

    function Size(): (n: nat)
      reads this
      ensures n == |graph|
    {
      |graph|
    }

    /** `resize`: keeps the first `min(old size, newSize)` nodes and adds
        nodes without edges up to `newSize`. */
    method Resize(newSize: nat)
      modifies this
      ensures |graph| == newSize
      ensures forall i :: 0 <= i < newSize && i < |old(graph)| ==> graph[i] == old(graph)[i]
      ensures forall i :: |old(graph)| <= i < newSize ==> graph[i] == {}
    {
      if newSize <= |graph| {
        graph := graph[..newSize];
      } else {
        graph := graph + seq(newSize - |graph|, _ => {});
      }
    }

    /** `max_out_degree`. */
    function MaxOutDegree(): (d: nat)
      reads this
      ensures forall i :: 0 <= i < |graph| ==> |graph[i]| <= d
      ensures graph == [] ==> d == 0
      ensures graph != [] ==> exists i :: 0 <= i < |graph| && |graph[i]| == d
    {
      MaxSize(graph)
    }

    /** `min_out_degree`. */
    function MinOutDegree(): (d: nat)
      reads this
      ensures forall i :: 0 <= i < |graph| ==> d <= |graph[i]|
      ensures graph == [] ==> d == SIZE_MAX
      ensures graph != [] ==> exists i :: 0 <= i < |graph| && |graph[i]| == d
    {
      MinSize(graph)
    }
  }
}
