# Breadth-first tree walk, fold and collect

A Dafny model of `Notedown.Core.Tree`. This is a generic traversal utility with four parts:

- `Walk` does a breadth-first walk driven by a FIFO queue. It seeds the queue with the root. While the queue is non-empty, it dequeues the front node, enqueues that node's children in the order the child lookup produced them, and then runs the node action on the node.
- `Fold` threads an aggregate through `Walk`.
- `Collect` keeps the visited nodes that pass a test.
- `EnqueueRange` is the queue helper that appends a range of items.

Modelling choices:

- **The caller's tree** is `Trees.Tree<A>`, a finite datatype. Each node carries a value and the ordered sequence of its children. The child lookup `getChildren` is `.children`. A node is a subtree value.
- **The queue** and the collected list are `seq`. `Queue.Any()` becomes `|queue| > 0`.
- **The node action** is an `Action<T>`, a callback whose effects land in the caller's state. It is modelled as a transformer `(W, node) -> W` of a caller world `W`. `Fold` instantiates `W` with the aggregate type. `Collect` instantiates it with the list of collected nodes, which is exactly what their closures capture in the C#.
- **The callback log.** `Walk` also returns the log of the callbacks it invoked, so that the order of child lookups and node actions can be stated.

The functional specification is `BreadthFirst.BfsOrder`, the order in which a queue drains. The walk from `root` visits `BreadthFirst.LevelOrder(root)`. That order is then tied to two definitions that do not mention queues:

- **Depth.** `Trees.AtDepth(t, d)` lists the nodes at distance `d`, left to right. The visit order is all depth-0 nodes, then all depth-1 nodes, and so on.
- **Node count.** `Trees.Preorder(t)` lists every node of the tree. The visit order is a permutation of it, so every node is visited exactly once and nothing else is visited.

`Fold` equals a left fold over the visit order (`Folds.FoldLeft`). `Collect` equals an order-preserving filter of it (`Folds.Filter`).

Files:

- `trees.dfy` (module `Trees`): the tree shape, sizes, generations and depths.
- `folds.dfy` (module `Folds`): `FoldLeft` and `Filter`.
- `breadth_first.dfy` (module `BreadthFirst`): the queue-order specification and its breadth-first and completeness theorems.
- `tree_walk.dfy` (module `TreeWalk`): `EnqueueRange`, `Walk`, `Fold` and `Collect`, with their corollaries.

## Model

| member | source | states |
|---|---|---|
| TreeWalk.EnqueueRange | src/Core/TreeWalk.cs:7-13 | The new queue is the old queue unchanged, followed by every item of the range in the order the range yields them. |
| TreeWalk.Walk | src/Core/TreeWalk.cs:15-25 | The walk terminates. Its callback log is the child lookup followed by the node action for each node of the level order. It makes exactly 2 × (number of nodes) callback calls. The first two calls are on the root. A root without children gives exactly those two calls. The caller world ends as the left fold of the node action over the level order. |
| TreeWalk.Protocol | src/Core/TreeWalk.cs:21-23 | For the i-th visited node, call 2i is the child lookup on it and call 2i+1 is the node action on it. So each node's children are fetched exactly once, after it is dequeued and before its action runs. No other node's children are fetched. |
| TreeWalk.VisitFront | src/Core/TreeWalk.cs:21-22 | Dequeuing the front node and enqueuing its children keeps "visited so far followed by the drain of the queue" unchanged, and shrinks the number of queued nodes. |
| BreadthFirst.BfsOrder | src/Core/TreeWalk.cs:19-24 | Definition; no contract. It is the order in which the loop drains a queue: take the front node, append its children at the back, repeat until empty. It is tied to definitions that do not mention the queue by `LevelOrderIsAllLevels` (the depth levels in order) and `BfsOrderIsPermutationOfPreorder` (every node of the queued trees, each once). |
| BreadthFirst.BfsOrderLength | src/Core/TreeWalk.cs:19-24 | Draining a queue visits as many nodes as the queued trees hold in total. |
| BreadthFirst.BfsOrderStep | src/Core/TreeWalk.cs:21-23 | One loop turn visits the front node, and the remaining drain is that of the rest of the queue with the node's children appended. The total queued size strictly decreases, which is why the loop terminates on finite trees. |
| BreadthFirst.LevelOrder | src/Core/TreeWalk.cs:17-18 | The walk from a root visits as many nodes as the tree has, and the first node is the root. |
| BreadthFirst.BfsOrderDrainsFront | src/Core/TreeWalk.cs:19-24 | The nodes at the front of the queue are visited first, in queue order. Their children are visited after everything queued behind them. |
| BreadthFirst.BfsOrderByGeneration | src/Core/TreeWalk.cs:19-24 | A queue is drained generation by generation. The current queue is visited first, then the drain of all of its nodes' children in order. |
| BreadthFirst.DepthPrefixStep | src/Core/TreeWalk.cs:19-24 | If the walk lists the nodes above depth n-1 and then drains generation n-1, it also lists the nodes above depth n and then drains generation n. |
| BreadthFirst.BfsOrderDepthPrefix | src/Core/TreeWalk.cs:19-24 | For every n, the walk of a forest visits its depth-0 to depth-(n-1) nodes, depth by depth, before anything at depth n or deeper. |
| BreadthFirst.GenerationShrinkStep | src/Core/TreeWalk.cs:19-24 | After an empty generation the next generation is empty too. A non-empty generation has strictly more nodes below and including it than the next generation. |
| BreadthFirst.EmptyGenerationStaysEmpty | src/Core/TreeWalk.cs:19-24 | Once the generation at some depth is empty, the generation at every greater depth is empty too, so an emptied queue is never refilled. |
| BreadthFirst.GenerationsShrink | src/Core/TreeWalk.cs:19-24 | The depth-n generation is empty, or its subtrees hold at most ForestSize(fs) − n nodes. So the depth generations run out. |
| BreadthFirst.NoNodesAtDepthSize | src/Core/TreeWalk.cs:19-24 | A forest has no node at a depth equal to its node count, so the walk reaches an empty queue. |
| BreadthFirst.LevelOrderIsBreadthFirst | src/Core/TreeWalk.cs:19-24 | For every depth n, the walk first visits all depth-0 nodes, then all depth-1 nodes, up to depth n-1, and only then anything at depth n or deeper. Within each depth, siblings keep their production order and cousins keep their parents' order. So a node at depth d comes before every node at depth d+1. |
| BreadthFirst.LevelOrderIsAllLevels | src/Core/TreeWalk.cs:19-24 | The whole visit order is exactly the depth-0 nodes, then the depth-1 nodes, and so on to the deepest level, with nothing else. |
| BreadthFirst.BfsOrderIsPermutationOfPreorder | src/Core/TreeWalk.cs:19-24 | Draining a queue visits a permutation of all nodes of all queued trees. |
| BreadthFirst.LevelOrderVisitsEachNodeOnce | src/Core/TreeWalk.cs:15-25 | Each node of the tree is visited exactly as many times as it occurs in the tree. A node is visited if and only if it is a node of the tree. |
| BreadthFirst.LeafLevelOrder | src/Core/TreeWalk.cs:17-24 | A root without children is the only node visited. |
| Trees.NextLevelOfForestAtDepth | src/Core/TreeWalk.cs:22 | Enqueuing the children of the depth-d nodes, in order, yields exactly the depth-(d+1) nodes in left-to-right order. |
| Trees.NextLevelSize | src/Core/TreeWalk.cs:22 | The next generation of a queue holds all of its nodes except the queued roots themselves. |
| Folds.FoldLeftSnoc | src/Core/TreeWalk.cs:29-32 | After one more node, the aggregate is `accumulate` applied to the previous aggregate and that node. So the aggregate after k nodes reflects exactly the first k visited nodes. |
| TreeWalk.Fold | src/Core/TreeWalk.cs:27-34 | The result is the left fold of `accumulate` from `initial` over the walk's visit order. |
| TreeWalk.FoldIgnoringNodesReturnsInitial | src/Core/TreeWalk.cs:27-34 | An accumulator that ignores the node returns the seed, whatever the tree's shape. |
| TreeWalk.FoldCountingNodesReturnsSize | src/Core/TreeWalk.cs:27-34 | A "+1" accumulator starting from 0 returns the number of nodes in the tree. |
| Folds.Filter | src/Core/TreeWalk.cs:38-44 | The collected list is never longer than the visit order it is taken from. |
| Folds.FilterMembership | src/Core/TreeWalk.cs:38-44 | An item is collected if and only if it occurs in the input and passes the test. |
| Folds.FilterAppend | src/Core/TreeWalk.cs:39-42 | Filtering a concatenation gives the concatenation of the filtered parts, so kept items stay in visit order. |
| Folds.FilterMultiplicity | src/Core/TreeWalk.cs:41 | A passing item is kept as often as it occurs. A failing item is never kept. |
| TreeWalk.CollectStep | src/Core/TreeWalk.cs:39-42 | Definition; no contract. It is the node action `Collect` passes to the walk: append the node to the collected list when it passes `test`. Its meaning is carried by `FoldCollectStep`. |
| TreeWalk.FoldCollectStep | src/Core/TreeWalk.cs:38-42 | Running the collecting node action over an order appends exactly that order's passing nodes, in order, to the list built so far. |
| TreeWalk.Collect | src/Core/TreeWalk.cs:36-45 | The result is the walk's visit order filtered by `test`, with relative order kept. |
| TreeWalk.CollectNothing | src/Core/TreeWalk.cs:36-45 | A test that no node passes gives the empty list. |
| TreeWalk.CollectEverything | src/Core/TreeWalk.cs:36-45 | A test that every node passes gives the full visit order. |
| TreeWalk.CollectKeepsEachPassingNodeOnce | src/Core/TreeWalk.cs:36-45 | Every passing node of the tree is collected exactly as often as it occurs in the tree. No failing node is collected. |
| TreeWalk.ExampleVisitOrder | src/Core/TreeWalk.cs:15-25 | Take a root A with children B and C, where B has child D. The walk visits A, B, C, D. |
| TreeWalk.ExampleCount | src/Core/TreeWalk.cs:27-34 | On the same tree, a counting fold gives 4. |
| TreeWalk.ExampleLeaves | src/Core/TreeWalk.cs:36-45 | On the same tree, collecting the leaves gives C, D. |

## Left out

- Cyclic or infinite child relations. The source keeps no visited set, so a cycle makes `Walk` loop forever. The model walks finite trees only, given by an inductive datatype, and adds no cycle guard.
- An arbitrary `getChildren` function over an opaque node type. The child lookup is the `children` field of the tree datatype. A lookup that returns different children for the same node on different calls cannot be expressed.
- Node identity. Nodes are subtree values, not references. Two equal subtrees are indistinguishable, which is why completeness is stated by multiplicity rather than by reference identity.
- Exceptions thrown by `getChildren`, `nodeAction`, `accumulate` or `test`, and how they propagate. This is .NET runtime behaviour.
- Side effects of the callbacks other than on the caller world `W`, the aggregate or the collected list. `test` and `accumulate` are pure functions here.
- `IEnumerable` laziness, extension-method syntax, and the internals of `Queue<T>`, `List<T>` and LINQ `Any()`. Queues and lists are sequences.
- Concurrency. The source is single-threaded and synchronous.
