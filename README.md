# parallel_bfs, modelled in Dafny

This project models the sequential core of `parallel_bfs`, a C++ benchmark of
breadth-first search strategies, and proves what each part promises.

**The search data model.**
- `Node` is an immutable, parent-linked record (`SearchNode`).
- `TransitionModel::next_states` is in `TransitionModels`.
- `Problem` with `is_goal` and `expand` is in `Problems`.

**The FIFO search engine and the strategies built on it.**
- `_bfs` works over a caller-owned deque and a shared stop source. `interruptible_bfs` and `bfs_with_limit` wrap it (`Bfs`).
- `ParallelBFS`, which despite its name is sequential, tests goals at generation time (`ParallelBfs`).
- `ParallelBFSTasks::_search` (`ParallelBfsTasks`).
- The director of `multithread_bfs` (`MultithreadBfs`). Its worker try-lock outcomes and worker results are inputs.
- The older graph searches with a `reached` set, over the random graph problem of `src/problem.h` (`GraphProblems`, `GraphSearch`).

**The example domains.**
- `TreeState` (`TreeStates`).
- `BasicTree` (`BasicTrees`).
- `BasicGraph` (`BasicGraphs`).

**The command-line harness.**
- Solution-path printing and result grouping (`Solvers`).
- Zero-padded problem file names (`Generate`).
- Generator config validation (`GeneratorConfigs`).
- The problem-file filter (`ProblemFiles`).
- The argument loop of `main` (`Cli`).

The tree-like strategies (`_bfs`, `ParallelBFS`, `ParallelBFSTasks`, the director) are all characterised against one reference definition, `SearchOrder.Order`. It is the order in which a FIFO frontier meets nodes when every met node is expanded and every child is appended. `SearchOrder.FirstGoal` is the first goal of that order.

Termination of a tree-like search needs a finite-depth search space. A ghost `rank` on states must strictly decrease along every transition (`SearchOrder.Ranked`). `SearchOrder.Weight`, the number of nodes still below the frontier, is the measure.

The graph searches terminate because `reached` only grows and its states are 32-bit.

Integer widths matter in three places, and each is modelled explicitly:
- the 32-bit and 64-bit wrap-around of the `TreeState` hash (bit-vectors);
- `std::stoi` followed by the conversion to `unsigned int` in `main`;
- the `int` loop counter of `get_rand_graph`.

Two expansions differ, and both are modelled as written:
- The library `Problem::expand` stores each child's step cost as its `path_cost`. It does not add the parent's cost.
- The older `src/problem.h` stores the parent's cost plus one.

## Model

| member | source | states |
|---|---|---|
| SearchNode.MakeNode | lib/include/parallel_bfs/search/node.h:15-22 | the parent defaults to absent and the cost to 0; the accessors return exactly the constructor arguments |
| SearchNode.Ancestry | lib/include/parallel_bfs/search/node.h:15-27 | walking `parent()` from a node always ends at a parentless root; each element of the chain is the parent of the next; the chain ends at the node |
| SearchNode.Depth | lib/include/parallel_bfs/search/node.h:20-26 | the number of `parent()` links is one less than the length of the chain |
| SearchNode.Root | lib/include/parallel_bfs/search/node.h:20 | the node the chain ends at has no parent |
| SearchNode.PathStates | lib/include/parallel_bfs/search/node.h:18-20 | the states along the chain run from the root's state to the node's own state, one more than the depth |
| SearchNode.AncestryOfChild | lib/include/parallel_bfs/search/node.h:15-16 | a child's chain, and its states, are its parent's plus itself; parent and child share a root |
| TransitionModels.Transitions | lib/include/parallel_bfs/search/transition_model.h:29-32 | one pair per action, in action order; the i-th state is `result(s, a_i)` and the i-th cost is `action_cost(s, a_i, result(s, a_i))` |
| TransitionModels.Successors | lib/include/parallel_bfs/search/transition_model.h:27-34 | `next_states(s)` has as many entries as `actions(s)`, and none when there are no actions |
| TransitionModels.NextStates | lib/include/parallel_bfs/search/transition_model.h:27-35 | the `emplace_back` loop computes exactly the successors |
| Problems.FromModel | lib/include/parallel_bfs/search/problem.h:18-24 | `initial()` and `goal()` return the constructor values; the problem's successors are the model's |
| Problems.Problem.IsGoal | lib/include/parallel_bfs/search/problem.h:26 | a state is a goal exactly when it belongs to the goal set, so an empty goal set has none |
| Problems.ChildNodes | lib/include/parallel_bfs/search/problem.h:31-33 | one child per (state, cost) pair, in order, with the expanded node as parent and the pair's step cost as `path_cost` |
| Problems.Expansion | lib/include/parallel_bfs/search/problem.h:29-34 | `expand` returns as many children as there are successors, and none for a state without successors |
| Problems.Expand | lib/include/parallel_bfs/search/problem.h:29-35 | the `push_back` loop computes exactly the expansion |
| Problems.ExpansionChildren | lib/include/parallel_bfs/search/problem.h:32 | the i-th child has the expanded node as parent and the i-th successor state; its cost is the step cost, not the parent's cost plus it |
| SearchOrder.PopWeight | lib/include/parallel_bfs/search/search_strategies/bfs.h:27-34 | popping the front node and appending its children leaves exactly one node fewer to meet |
| SearchOrder.OrderLength | lib/include/parallel_bfs/search/search_strategies/bfs.h:26-34 | the reference order has exactly as many entries as the subtrees below the frontier have nodes |
| SearchOrder.OrderPrefix | lib/include/parallel_bfs/search/search_strategies/bfs.h:26-34 | the frontier's own nodes are met first, in frontier order |
| SearchOrder.GeneratedAfterPop | lib/include/parallel_bfs/search/search_strategies/bfs.h:27-34 | after the frontier's own nodes come the front node's children, in `expand` order, then the nodes generated from the rest |
| SearchOrder.FirstGoal | lib/include/parallel_bfs/search/search_strategies/bfs.h:29-31 | the result is absent exactly when no node is a goal; otherwise it is a goal node preceded only by non-goal nodes |
| SearchOrder.FirstGoalAppend | lib/include/parallel_bfs/search/search_strategies/bfs.h:26-34 | the first goal of a concatenation is the first goal of the first part, if there is one, else that of the second |
| SearchOrder.FirstGoalAt | lib/include/parallel_bfs/search/search_strategies/bfs.h:29-31 | a goal preceded only by non-goals is the first goal |
| SearchOrder.GeneratedHaveParents | lib/include/parallel_bfs/search/parallel_bfs.h:18-28 | every node met after the frontier's own nodes has a parent, so a start node is never met again |
| SearchOrder.GenerationStep | lib/include/parallel_bfs/search/parallel_bfs.h:22-28 | the first goal generated from a frontier is the first goal child of its front node, if any, else the first goal generated from the rest plus those children; the remaining work decreases |
| Bfs.Deque.constructor | lib/include/parallel_bfs/search/search_strategies/bfs.h:52 | a deque holds exactly its initial elements |
| Bfs.Deque.PopFront | lib/include/parallel_bfs/search/search_strategies/bfs.h:27-28 | `front` and `pop_front` return and remove exactly the first element |
| Bfs.Deque.PushBack | lib/include/parallel_bfs/search/search_strategies/bfs.h:34 | `push_back` appends at the back |
| Bfs.StopSource.constructor | lib/include/parallel_bfs/search/search_strategies/bfs.h:24 | a fresh stop source has no stop requested |
| Bfs.StopSource.RequestStop | lib/include/parallel_bfs/search/search_strategies/bfs.h:30 | after `request_stop` a stop is requested |
| Bfs.BfsRun | lib/include/parallel_bfs/search/search_strategies/bfs.h:26-37 | a returned node is a goal; null means an empty frontier, a stop, or `size() >= limit`; a stopped source or a frontier already at the limit is returned untouched with null |
| Bfs.BfsRunFollowsOrder | lib/include/parallel_bfs/search/search_strategies/bfs.h:26-34 | nodes are tested in strict FIFO order: a returned goal is the first goal of the reference order; on null, the nodes tested are goal-free and the reference order continues with that of the frontier left behind |
| Bfs.BfsRunFindsFirstGoal | lib/include/parallel_bfs/search/search_strategies/bfs.h:26-37 | when the run returns a goal or empties the frontier, its result is the first goal of the reference order |
| Bfs.BfsRunWeight | lib/include/parallel_bfs/search/search_strategies/bfs.h:26-35 | a run never adds work below the frontier, and removes some when it returns a goal or starts with a nonempty, unstopped frontier below the limit |
| Bfs.RunBfs | lib/include/parallel_bfs/search/search_strategies/bfs.h:20-38 | `_bfs` returns the result and leaves the frontier that the reference run gives; the stop source ends up requested exactly when it already was or a goal was returned |
| Bfs.PushAll | lib/include/parallel_bfs/search/search_strategies/bfs.h:34 | the children are appended at the back of the frontier, in order |
| Bfs.InterruptibleBfs | lib/include/parallel_bfs/search/search_strategies/bfs.h:42-46 | `interruptible_bfs` on a frontier is `_bfs` without a size limit |
| Bfs.InterruptibleBfsFrom | lib/include/parallel_bfs/search/search_strategies/bfs.h:49-54 | `interruptible_bfs` from one node runs on a one-node frontier; an unstopped goal start node is returned as is, without expansion |
| Bfs.BfsWithLimit | lib/include/parallel_bfs/search/search_strategies/bfs.h:57-62 | with a fresh stop source, a null result means the frontier is empty or has reached the limit |
| ParallelBfs.GenerationSearch | lib/include/parallel_bfs/search/parallel_bfs.h:19-31 | the queue loop returns the first goal among the generated nodes, never a start node, and null only when the queue empties without one |
| ParallelBfs.TestChildren | lib/include/parallel_bfs/search/parallel_bfs.h:25-29 | children are tested in `expand` order; the first goal child is returned at once; otherwise every child is pushed, without deduplication |
| ParallelBfs.Run | lib/include/parallel_bfs/search/parallel_bfs.h:17-32 | `ParallelBFS` never tests the initial node; a result is a goal with a parent |
| ParallelBfs.GenerationTestAgrees | lib/include/parallel_bfs/search/parallel_bfs.h:18-28 | when the initial state is not a goal, testing at generation finds the same node as testing at removal |
| ParallelBfsTasks.Search | lib/include/parallel_bfs/search/search_strategies/parallel_bfs_tasks.h:35-49 | a goal start node is returned without expansion; otherwise the first goal child in FIFO and `expand` order is returned, and null only when the queue is exhausted |
| ParallelBfsTasks.Run | lib/include/parallel_bfs/search/search_strategies/parallel_bfs_tasks.h:19-31 | the search starts from a parentless, cost-0 node of the initial state and returns `_search`'s result |
| MultithreadBfs.SearchStatusController.constructor | lib/include/parallel_bfs/search/search_strategies/multithread_bfs.h:40-41 | both flags start cleared |
| MultithreadBfs.SearchStatusController.SignalSolutionFound | lib/include/parallel_bfs/search/search_strategies/multithread_bfs.h:25-28 | sets both flags |
| MultithreadBfs.SearchStatusController.SignalSearchFinished | lib/include/parallel_bfs/search/search_strategies/multithread_bfs.h:30 | sets only `search_finished` and keeps "solution found implies search finished" |
| MultithreadBfs.Worker.constructor | lib/include/parallel_bfs/search/search_strategies/multithread_bfs.h:88-89 | a worker starts with an empty frontier and a status controller of its own with both flags clear |
| MultithreadBfs.Worker.StartSearch | lib/include/parallel_bfs/search/search_strategies/multithread_bfs.h:48-50 | the start node is appended to the worker's frontier and the worker takes the status controller |
| MultithreadBfs.Worker.AddWorkIfNeeded | lib/include/parallel_bfs/search/search_strategies/multithread_bfs.h:64-73 | the node is appended exactly when the try-lock succeeds, which is exactly when it returns true |
| MultithreadBfs.ThreadDirector.constructor | lib/include/parallel_bfs/search/search_strategies/multithread_bfs.h:99-100 | one distinct idle worker per thread, each with its own cleared controller that is not the director's, an empty main frontier, no solution, both flags cleared |
| MultithreadBfs.ThreadDirector.GenerateWork | lib/include/parallel_bfs/search/search_strategies/multithread_bfs.h:126-133 | runs `bfs_with_limit` on the main frontier with limit size + k; a goal found is recorded as the solution and signalled as found; otherwise solution and flags are unchanged |
| MultithreadBfs.ThreadDirector.DistributeWork | lib/include/parallel_bfs/search/search_strategies/multithread_bfs.h:135-140 | the front node goes to workers 0..n-1 in order and leaves only when a worker accepts; the loop stops on an empty frontier or a solution, so at most one node per accepting worker leaves |
| MultithreadBfs.ThreadDirector.Offer | lib/include/parallel_bfs/search/search_strategies/multithread_bfs.h:137-138 | one offer: the front node moves to worker i exactly when it accepts; no other worker changes |
| MultithreadBfs.ThreadDirector.Search | lib/include/parallel_bfs/search/search_strategies/multithread_bfs.h:102-124 | a result is a goal; when the fan-out finds a goal or empties the frontier, no worker is started and the result is the first goal of the reference order; otherwise the joined worker results decide |
| MultithreadBfs.ThreadDirector.FanOut | lib/include/parallel_bfs/search/search_strategies/multithread_bfs.h:104-106 | the initial node is pushed and the frontier grown to `min_starting_points + 1` nodes; a goal found is the first goal of the reference order |
| MultithreadBfs.ThreadDirector.KeepDistributing | lib/include/parallel_bfs/search/search_strategies/multithread_bfs.h:112-115 | the main loop ends with a solution found or an empty main frontier; any solution is a goal |
| MultithreadBfs.ThreadDirector.Round | lib/include/parallel_bfs/search/search_strategies/multithread_bfs.h:113-114 | one `generate_work(1)` and `distribute_work` strictly decrease the work below the main frontier |
| MultithreadBfs.ThreadDirector.JoinWorkers | lib/include/parallel_bfs/search/search_strategies/multithread_bfs.h:121-122 | each non-null worker result in turn replaces the solution |
| MultithreadBfs.ThreadDirector.StartWorkers | lib/include/parallel_bfs/search/search_strategies/multithread_bfs.h:142-149 | the first `num_threads` frontier nodes, in order, go one to each worker and leave the frontier |
| MultithreadBfs.Handed | lib/include/parallel_bfs/search/search_strategies/multithread_bfs.h:138 | a worker receives at most one node per offer |
| MultithreadBfs.Joined | lib/include/parallel_bfs/search/search_strategies/multithread_bfs.h:121-122 | the joined solution is the director's own or one of the worker results |
| MultithreadBfs.JoinedLastWins | lib/include/parallel_bfs/search/search_strategies/multithread_bfs.h:121-122 | the last non-null worker result wins |
| MultithreadBfs.JoinedAllNull | lib/include/parallel_bfs/search/search_strategies/multithread_bfs.h:121-122 | with only null results the director's own solution stays |
| MultithreadBfs.JoinedFixed | lib/include/parallel_bfs/search/search_strategies/multithread_bfs.h:121-123 | once any worker returns a node, the director's own solution does not matter |
| MultithreadBfs.MultithreadSearch | lib/include/parallel_bfs/search/search_strategies/multithread_bfs.h:165-169 | with `n` threads and `4n` starting points, a result is a goal; it is the first goal of the reference order when the fan-out decides, and the joined worker result otherwise |
| TreeStates.Extend | lib/include/parallel_bfs/problems/basic_tree/tree_state.h:21-25 | the child's path is the parent's path plus the new element, so its depth is one more |
| TreeStates.Depth | lib/include/parallel_bfs/problems/basic_tree/tree_state.h:25 | the depth is the path's length, and it is 0 exactly for the root |
| TreeStates.Equals | lib/include/parallel_bfs/problems/basic_tree/tree_state.h:47-51 | `==` holds exactly when the paths are equal; the depth check is only a shortcut |
| TreeStates.NotEquals | lib/include/parallel_bfs/problems/basic_tree/tree_state.h:54-55 | `!=` holds exactly when the paths differ |
| TreeStates.Print | lib/include/parallel_bfs/problems/basic_tree/tree_state.h:34-44 | the `first`-flag loop prints `[`, the decimal elements joined by `, `, then `]` |
| TreeStates.ShowExtend | lib/include/parallel_bfs/problems/basic_tree/tree_state.h:34-44 | a child prints as its parent's text with the new element inserted before `]`, after `, ` unless the parent is the root |
| TreeStates.Hash | lib/include/parallel_bfs/problems/basic_tree/tree_state.h:64-73 | the loop computes the seed-mixing hash of the path, starting from the depth, with 32- and 64-bit wrap-around |
| TreeStates.EqualStatesHashEqually | lib/include/parallel_bfs/problems/basic_tree/tree_state.h:64-72 | states that compare equal hash equally (congruence: the hash depends on the path alone) |
| BasicTrees.BasicTree.constructor | lib/include/parallel_bfs/problems/basic_tree/basic_tree.h:34 | a new tree has no entries |
| BasicTrees.BasicTree.Actions | lib/include/parallel_bfs/problems/basic_tree/basic_tree.h:20-23 | fails exactly when the state has no entry; otherwise lists each element of its set exactly once |
| BasicTrees.BasicTree.ActionCost | lib/include/parallel_bfs/problems/basic_tree/basic_tree.h:25-28 | every action costs 1 |
| BasicTrees.BasicTree.Result | lib/include/parallel_bfs/problems/basic_tree/basic_tree.h:30-32 | the result is the state extended by the action |
| BasicTrees.BasicTree.Subscript | lib/include/parallel_bfs/problems/basic_tree/basic_tree.h:38 | the mutable `operator[]` adds a missing key with an empty set and returns the key's set |
| BasicTrees.BasicTree.InsertAction | lib/include/parallel_bfs/problems/basic_tree/basic_tree_generator.h:64 | `tree[state].insert(action)` adds the action to the state's set, creating the set when the state is missing, and leaves every other state alone |
| BasicTrees.BasicTree.At | lib/include/parallel_bfs/problems/basic_tree/basic_tree.h:40 | the const `operator[]` fails exactly on a missing key and otherwise returns its set |
| BasicTrees.BasicTree.Insert | lib/include/parallel_bfs/problems/basic_tree/basic_tree.h:42 | an existing key keeps its set; a new key is added with the given set |
| BasicTrees.BasicTree.Erase | lib/include/parallel_bfs/problems/basic_tree/basic_tree.h:44 | removes the given key and nothing else |
| BasicTrees.BasicTree.Size | lib/include/parallel_bfs/problems/basic_tree/basic_tree.h:46 | the number of keys |
| BasicTrees.BasicTree.MaxDepth | lib/include/parallel_bfs/problems/basic_tree/basic_tree.h:58-65 | the depth of some key and at least every key's depth; 0 for an empty tree |
| BasicTrees.BasicTree.MaxBranchFactor | lib/include/parallel_bfs/problems/basic_tree/basic_tree.h:86-93 | the size of some key's set and at least every set's size; 0 for an empty tree |
| Collections.Enumerate | lib/include/parallel_bfs/problems/basic_tree/basic_tree.h:21-22 | copying an unordered set into a vector lists each element exactly once, in unspecified order |
| Collections.MaxOf | lib/include/parallel_bfs/problems/basic_tree/basic_tree.h:58-65 | the maximum of a set of sizes: a member, at least every member, 0 for the empty set |
| BasicGraphs.MaxSize | lib/include/parallel_bfs/problems/basic_graph/basic_graph.h:59-66 | the largest set size, attained by some set, 0 for none |
| BasicGraphs.MinSize | lib/include/parallel_bfs/problems/basic_graph/basic_graph.h:68-75 | the smallest set size, attained by some set, `SIZE_MAX` for none |
| BasicGraphs.BasicGraph.constructor | lib/include/parallel_bfs/problems/basic_graph/basic_graph.h:35 | `BasicGraph(n)` has n nodes, each with an empty adjacency set |
| BasicGraphs.BasicGraph.Actions | lib/include/parallel_bfs/problems/basic_graph/basic_graph.h:20-23 | fails exactly when `state >= size()`; otherwise lists each neighbour exactly once |
| BasicGraphs.BasicGraph.ActionCost | lib/include/parallel_bfs/problems/basic_graph/basic_graph.h:25-27 | every action costs 1 |
| BasicGraphs.BasicGraph.Result | lib/include/parallel_bfs/problems/basic_graph/basic_graph.h:29-31 | the result is the action, whatever the state |
| BasicGraphs.BasicGraph.PushBack | lib/include/parallel_bfs/problems/basic_graph/basic_graph.h:37-41 | fails with overflow, changing nothing, exactly when `size() >= max(uint32)`; otherwise appends one node |
| BasicGraphs.BasicGraph.Get | lib/include/parallel_bfs/problems/basic_graph/basic_graph.h:45 | `operator[]` on an index below `size()` returns that node's set |
| BasicGraphs.BasicGraph.InsertNeighbour | lib/include/parallel_bfs/problems/basic_graph/basic_graph_generator.h:37 | `graph[i].insert(v)` on an index below `size()` adds the edge to node `i` and leaves every other node alone |
| BasicGraphs.BasicGraph.Size | lib/include/parallel_bfs/problems/basic_graph/basic_graph.h:47 | the number of nodes |
| BasicGraphs.BasicGraph.Resize | lib/include/parallel_bfs/problems/basic_graph/basic_graph.h:49 | the size becomes n; the first min(old, n) sets are kept and new ones are empty |
| BasicGraphs.BasicGraph.MaxOutDegree | lib/include/parallel_bfs/problems/basic_graph/basic_graph.h:59-66 | at least every node's degree and attained; 0 for an empty graph |
| BasicGraphs.BasicGraph.MinOutDegree | lib/include/parallel_bfs/problems/basic_graph/basic_graph.h:68-75 | at most every node's degree and attained; `SIZE_MAX` for an empty graph |
| Text.NatToString | include/generate.h:29 | the decimal form of a number is digits only, with no leading zero |
| Text.DigitsValueOfNatToString | include/generate.h:29 | the decimal form reads back as the number |
| Text.NatToStringInjective | include/generate.h:66 | distinct numbers have distinct decimal forms |
| Text.NatToStringLengthMonotone | include/generate.h:66 | a smaller number never has more digits |
| Text.DigitsValueLeadingZeros | include/generate.h:29 | leading `'0'` padding does not change the value a digit string spells |
| GraphProblems.ChildNodes | src/problem.h:38-41 | one child per neighbour, in order; each child has the node as parent and the node's cost plus one |
| GraphProblems.Expansion | src/problem.h:33-44 | fails exactly when the state has no adjacency entry; otherwise one child per neighbour, in order, costing the parent's cost plus one |
| GraphProblems.Expand | src/problem.h:33-44 | the `push_back` loop computes exactly the expansion |
| GraphProblems.GraphProblem.IsGoal | src/problem.h:30 | a state is a goal exactly when it equals the single goal state |
| GraphProblems.RootValid | src/problem.h:26 | the initial node lies on a walk from the initial state |
| GraphProblems.ChildValid | src/problem.h:33-41 | an expanded child extends its parent's walk by one edge |
| GraphProblems.ClosedWalksEndAtKeys | src/problem.h:34 | in a graph whose keys include every neighbour, every walk from the initial state ends at a key, so `at` never fails |
| GraphProblems.LastIndex | src/problem.h:75 | the `int` loop counter starts at `num_states - 1` only up to 2^31 states and is negative otherwise |
| GraphProblems.RandGraph | src/problem.h:70-92 | keys are states below `num_states`, all of them present when the counter fits; b is a neighbour of a exactly when the coin for the pair i < j came up; lists are increasing |
| GraphProblems.DrawRow | src/problem.h:81-89 | after row i, every pair with first index up to i is drawn |
| GraphProblems.AddEdge | src/problem.h:83-88 | a drawn edge is pushed in both directions |
| GraphProblems.EdgeSymmetric | src/problem.h:80-88 | edges are symmetric and never self-loops |
| GraphProblems.RandGraphClosed | src/problem.h:73-88 | a random graph has every neighbour as a key |
| GraphSearch.Exhausted | src/bfs.h:22-35 | when every reached state has been expanded, every state reachable from the initial state was reached, and no walk of one or more steps ends at the goal |
| GraphSearch.SyncBfs | src/bfs/sync_bfs.h:14-33 | a result is a goal child on a walk from the initial state; null only after exhaustion, when no goal is reachable in one or more steps; each state is enqueued at most once, only reachable states are, and all are on null |
| GraphSearch.PushChildren | src/bfs/sync_bfs.h:23-30 | each child is goal-tested before the `reached` check; a non-goal child is pushed exactly when its state is new |
| GraphSearch.PopPreserves | src/bfs/sync_bfs.h:20-21 | popping the front keeps the search invariant |
| GraphSearch.PushPreserves | src/bfs/sync_bfs.h:26-29 | pushing a new state and marking it reached keeps every frontier state in `reached` and the pushes distinct |
| GraphSearch.BreadthFirstSearch | src/bfs.h:15-36 | a goal initial state is returned as the root node; a result is a goal on a walk; null only when no reachable state is a goal; each state is enqueued at most once |
| Solvers.SolutionTextRoot | include/solver.h:27-33 | a parentless node prints just its state |
| Solvers.SolutionTextChild | include/solver.h:32-36 | a child prints as its parent's path, `" -> "`, then its own state |
| Solvers.SolutionPath | include/solver.h:21-40 | null prints `No solution found!`; otherwise the states from the root to the node, separated by `" -> "` |
| Solvers.PathOfStep | include/solver.h:27-30 | the parent walk collects the parent's states followed by the node's |
| Solvers.StackStates | include/solver.h:26-30 | the pushing loop stacks exactly the states from the root to the node |
| Solvers.PopAll | include/solver.h:32-37 | the popping loop prints the stacked states in order, joined by `" -> "` |
| Solvers.Group | include/solver.h:115-125 | a group keeps exactly the results with that key, in their relative order, and is empty when no result has it |
| Solvers.GroupAppend | include/solver.h:117 | grouping a concatenation concatenates the groups |
| Solvers.GroupedSnoc | include/solver.h:117 | one `grouped[key].push_back` step keeps every group equal to the filter of the results so far |
| Solvers.GroupBy | include/solver.h:115-125 | the keys are exactly the keys of the results, and each group is that key's filter of the results |
| Solvers.Solver.constructor | include/solver.h:127-128 | no algorithms and no results |
| Solvers.Solver.AddAlgorithm | include/solver.h:71-73 | the algorithm is appended; results are unchanged |
| Solvers.Solver.Solve | include/solver.h:80-85 | one measurement per registered algorithm, in the vector's current order (registration order unless `warm_cache` has shuffled it), tagged with the problem name and holding that algorithm's result, appended after the earlier results |
| Solvers.Solver.GroupByProblem | include/solver.h:115-119 | every result is in exactly the group of its problem name, in order |
| Solvers.Solver.GroupByAlgorithm | include/solver.h:121-125 | every result is in exactly the group of its algorithm name, in order |
| Generate.ToPaddedString | include/generate.h:27-31 | the result ends with the decimal digits, is padded with `'0'` on the left only, has length max(width, digits) and is never truncated |
| Generate.PaddedValue | include/generate.h:27-31 | the padded string reads back as the number |
| Generate.FileNameParts | include/generate.h:66-68 | a name is `problem_`, the number padded to the width of `n - 1`, and the extension |
| Generate.FileNamesUniform | include/generate.h:62-69 | all names of one run have the same length, and distinct indices give distinct names |
| Generate.RunNamesUniform | include/generate.h:59-69 | the same for every pair of names of a run |
| Generate.GeneratorFor | include/generate.h:51-54 | the generator takes `avg_actions` when present, else `min_actions`; it cannot be built when both are absent, or when the average exceeds `max_actions` or the goals exceed `max_actions ^ max_depth` |
| Generate.GeneratorRejections | lib/include/parallel_bfs/problems/basic_tree/basic_tree_generator.h:23-28 | an average of 5 with 3 actions, or 10 goals in a tree of depth 2 and 3 actions, leaves no generator, while 9 goals and an average of 3 are accepted |
| Generate.Generate | include/generate.h:45-76 | defaults to 1 problem and the `simple()` config; a config the generator cannot be built from names no file (the source throws first); otherwise names one file per problem, in order, all the same length and distinct |
| Generate.GenerateDefaults | include/generate.h:47-48 | with the defaults the only file is `problem_0` and the generator takes `simple()`'s average |
| GeneratorConfigs.ParseConfig | include/generator_config.h:37-58 | a missing file fails first; both bounds or neither fail with `invalid_argument`; otherwise the parsed fields are returned unchanged |
| GeneratorConfigs.ParseConfigAcceptsExactlyOneBound | include/generator_config.h:52-57 | a config is accepted exactly when it has exactly one bound, and then comes back unchanged |
| GeneratorConfigs.PresetsRejected | include/generator_config.h:17-55 | the three presets set both bounds and the defaults set none, so none of them would pass validation |
| ProblemFiles.Filter | include/solve.h:23-28 | kept entries are regular files with the extension and a name starting with `problem`, taken from the listing |
| ProblemFiles.FilterAppend | include/solve.h:23-28 | filtering keeps directory-iteration order |
| ProblemFiles.UpToFirstRegular | include/solve.h:24-29 | the entries up to and including the first regular file |
| ProblemFiles.ZeroCapAtMostOne | include/solve.h:24-29 | with a cap of 0 at most one file is kept |
| ProblemFiles.NoRegularNoFiles | include/solve.h:24 | without regular files nothing is kept |
| ProblemFiles.GetProblemFiles | include/solve.h:19-34 | a non-directory gives nothing; no cap gives the filter; a cap k of at least 1 gives the filter's first k; a cap of 0 stops after the first regular file |
| ProblemFiles.FilterStep | include/solve.h:26-28 | one iteration appends the entry exactly when it is a problem file |
| ProblemFiles.Capped | include/solve.h:29 | the loop breaks once the cap is reached, holding the filter's first k entries |
| ProblemFiles.CappedAtZero | include/solve.h:24-29 | with cap 0 the loop breaks at the first regular file |
| Cli.Stoi | src/main.cpp:57 | `std::stoi` gives the parsed number when it fits an `int` and throws otherwise |
| Cli.ToUnsigned | src/main.cpp:57 | storing into `unsigned int` keeps non-negative values and wraps negative ones modulo 2^32 |
| Cli.ParseArgs | src/main.cpp:24-73 | the argument loop computes exactly the reference parse |
| Cli.ExitZeroOnlyByHelp | src/main.cpp:32-35 | exit code 0 from the loop means a help flag was reached |
| Cli.StopsIgnoreRest | src/main.cpp:29-67 | once help or a throwing `stoi` ends the loop, later arguments are ignored |
| Cli.HelpFirst | src/main.cpp:32-35 | a leading help flag exits with 0 |
| Cli.ValueNotReadAsFlag | src/main.cpp:37-39 | a consumed value is never re-read as a flag: `-g -h` sets the generate path to `-h` |
| Cli.RepeatedFlagOverwrites | src/main.cpp:46-48 | a repeated flag overwrites its earlier value |
| Cli.ErrorsExitOne | src/main.cpp:24-73 | no arguments, a missing value, an unknown argument, or no action each exit with 1 |
| Cli.NegativeCountWraps | src/main.cpp:57 | `-n -1` stores the largest `unsigned int` |
| Cli.Requested | src/main.cpp:75-93 | generation is requested before solving, each only when its path was given |
| Cli.MainProgram | src/main.cpp:19-96 | a throwing `stoi` aborts; an exit from the loop is returned unchanged; otherwise the requested actions run in order until a path is not a directory (exit 1), else all run (exit 0) |

## Left out

- Threads, futures, `std::async`, mutexes and condition variables. `Worker::search`, the worker's wait loop and its direct stop request on `solution_found` are not modelled. Worker results and try-lock outcomes are inputs: `lockFree(round, i)` and `workerResults`. `MultithreadBfs.ThreadDirector.Search` assumes every non-null worker result is a goal. `Worker::search` returns only a non-null `interruptible_bfs` result, and `Bfs.BfsRun` proves such a result is a goal.
- `Generate.Generate`: the constructor `generate` calls is not part of this model. The model applies instead the checks of the average-bounded `BasicTreeGenerator` constructor (lib/include/parallel_bfs/problems/basic_tree/basic_tree_generator.h:23-28), applied to configurations with an average. A configuration bounded by its minimum is accepted without checks. The `unsigned int` cast of `pow(max_actions, max_depth)` is modelled as the exact power, so a power beyond `2^32 - 1`, where the cast is undefined, never rejects.
- `std::thread::hardware_concurrency()` is an input of `MultithreadBfs.MultithreadSearch`.
- `MultithreadBfs.ThreadDirector.Search` requires `num_threads <= min_starting_points + 1`. After the fan-out the main frontier holds at least `min_starting_points + 1` nodes, so within that bound `start_workers` never pops from an empty deque. Only a larger `num_threads` can empty it, which would be undefined behaviour, and even then it need not happen. `multithread_bfs` always meets the bound.
- The early return of `search` does not set `search_finished`. It is modelled as written and stated in `Search`'s contract.
- Termination: the tree-like searches take a ghost rank that decreases along every transition, so they cover finite-depth spaces only. That requirement excludes every cyclic space, including the random `BasicGraph`s on which the C++ FIFO search does stop because a goal is reachable. The C++ loop runs forever only when no goal is reachable in a cyclic or infinite space; neither case is modelled.
- `SearchOrder.OrderLength`: states a count, namely that the reference order has as many entries as there are nodes below the frontier. It does not prove, as a multiset or occurrence statement, that each of those nodes appears exactly once.
- `BasicTrees.BasicTree.Subscript`: returns the key's set as a value, not a reference. Writing through the reference is modelled separately by `BasicTrees.BasicTree.InsertAction`, and for graphs by `BasicGraphs.BasicGraph.InsertNeighbour`.
- `BasicTree` and `BasicGraph` are modelled as domains on their own. They are not plugged into the generic `Problems.Problem` or `TransitionModels`, and no lemma shows that a `BasicTree` gives a ranked successor function.
- `path_cost` is an unbounded integer. `int` overflow of costs is not modelled.
- `unordered_set`/`unordered_map` iteration order is left open. Any enumeration without repeats is accepted, and nothing is proved about one particular order.
- `BasicTree::reserve`, its sizing constructor, and the `begin`/`end` iterators are not modelled. They have no observable effect on the contents.
- `BasicTrees.BasicTree.MaxDepth`: does not model that the C++ reduction accumulates in `int` (its initial value is the literal `0`). Depths or set sizes above `INT_MAX` would be truncated there. The same holds for `BasicTrees.BasicTree.MaxBranchFactor` and `BasicGraphs.BasicGraph.MaxOutDegree`.
- `avg_depth`, `avg_branch_factor`, `avg_out_degree`, the statistics, timing, progress bars and the `warm_cache` shuffle are not modelled. They are floating point, clocks and randomness. `Solvers.Solver.Solve` takes the elapsed times as an input.
- `Solver::results()` and `statistics_summary()` are not modelled. They are console formatting over `group_by_*`, and those are modelled.
- YAML encoding, decoding and file reading are not modelled; they belong to yaml-cpp. `GeneratorConfigs.ParseConfig` takes the file's existence and the parsed fields, or a YAML error, as inputs.
- Random generation of problems is not modelled. The Bernoulli draws of `get_rand_graph` are an input coin function, and the random initial and goal states are fields.
- File writing in `generate`, `solve`/`get_log_path`, and directory creation in `main` are not modelled. `Cli.MainProgram` takes "is a directory after creation" as an input.
- `ProblemFiles.GetProblemFiles` receives the directory listing as a sequence of entries. A missing path and a path that is not a directory are one input flag.
- `Cli.Stoi` takes `strtol` as an input function. Which prefix of a string `std::stoi` accepts is not modelled.
- `GraphSearch.SyncBfs` is modelled over the graph problem of `src/problem.h`. The templated `Problem<T>` it is written against is not part of this model.
- A failing `_graph.at` in `src/problem.h` is an error outcome (`OutOfRange`). `GraphProblems.RandGraphClosed` shows that it cannot happen on a random graph with at most 2^31 states.
- `GraphProblems.LastIndex`: with more than 2^31 states the `int` counter of `get_rand_graph` starts negative. Then no key is created and the graph only gets keys through drawn edges. The model keeps this behaviour and proves completeness of keys only up to 2^31 states.
- `operator<<` for `Problem` and `print_solution`/`log_solution` in `src/` are not modelled. They are console output, or repeat `solution_path`.
