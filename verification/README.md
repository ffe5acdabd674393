# Evaluation order of a tract model graph

A model of `core/src/model/order.rs`: the two ways tract turns a graph of
nodes into a linear execution order.

- `eval_order_for_nodes` is a depth-first linearizer. It takes the model
  outputs one at a time. For each output not yet `done`, it walks an explicit
  stack of `(node, next dependency index)` frames. A node is emitted once all
  of its dependencies are emitted. A declared model input is emitted as soon
  as it is reached. A dependency that is already `pending` on the current walk
  is a cycle: the linearizer stops with "Loop detected". The dependencies of a
  node are visited in a fixed order: first the inputs whose producer has inputs
  of its own, then the extra dependencies registered for the node, then the
  inputs whose producer has none.
- `eval_order_for_nodes_memory` is a greedy list scheduler:
  - It builds deduplicated producer (`ups`) and consumer (`downs`) lists.
  - It computes a byte cost per node.
  - It grows the set of required nodes (`todo`) from the outputs until it is
    closed under `ups`.
  - It then repeatedly emits the ready candidate that keeps the least memory
    "active", breaking ties by the lowest index. When work remains but nothing
    is ready, it stops with "Dependency loop detected.".

Modules:

- `Graph` (`graph.dfy`) holds the data:
  - a node is its producer list plus its output facts;
  - extra dependencies are `(consumer, producer)` pairs;
  - it defines the dependency list the linearizer walks (`Deps`) and the
    scheduler's producer list (`Ups`).
- `Closures` (`closures.dfy`) holds the graph notions both resolvers are
  specified by:
  - reachability closure, cycles, topological order;
  - a non-empty set where every node has a successor inside it contains a cycle.
- `NodeCosts` (`costs.dfy`) holds the cost rule.
- `EvalOrder` (`eval_order.dfy`) models the linearizer.
  - Its loop is an imperative method over the stack, the `done`/`pending` sets
    and the order.
  - It is proved correct against a graph-level specification.
  - It is also proved to agree with a functional reference definition of the
    same walk (`StepWalk`, `WalkFrom`, `Linearize`).
- `MemoryOrder` (`memory_order.dfy`) models the scheduler.
  - Its adjacency-building, closure, candidate-selection and scheduling loops
    are imperative methods.
  - Each is proved against the functions `UpsAll`, `Closure`, `ActiveCost`
    and `Greedy`.
- `Scenarios` (`scenarios.dfy`) applies the linearizer to the graphs of the
  source's three unit tests and proves the exact answers.

Terms used in the table:

- "dependency lists" are `Expand(nodes, extra, modelInputs)`: empty for a
  model input, `Deps` otherwise.
- "the closure" is the set of nodes reachable from the outputs through those
  lists (for the scheduler, through `ups`).
- "topological" means every listed node comes after all of its dependencies.

## Model

| member | source | states |
|---|---|---|
| Graph.ExtraProducersContents | core/src/model/order.rs:41 | the extra producers counted for a node are exactly the producers paired with it |
| Graph.InputsWhereContents | core/src/model/order.rs:47-58 | the leaf / non-leaf input filters keep exactly the inputs whose producer has no / some inputs |
| Graph.InputsWherePartition | core/src/model/order.rs:47-58 | the two filters together keep every input, with its repetitions, and nothing else |
| Graph.DepsContents | core/src/model/order.rs:39-61 | the list walked for a node holds exactly its input producers (repetitions kept) and its extra producers; its length is the dependency count the emit test compares with; every entry names a node |
| Graph.DedupContents | core/src/model/order.rs:99-100 | skipping producers already listed leaves each producer once and drops none |
| Graph.UpsContents | core/src/model/order.rs:95-110 | `ups[i]` has no duplicates and holds exactly the input producers and extra producers of `i` |
| Closures.Closure | core/src/model/order.rs:131-141 | the closure contains the seeds, only names nodes and is closed under successors |
| Closures.ClosureLeast | core/src/model/order.rs:131-141 | the closure is contained in every closed superset of the seeds, so it holds only nodes reachable from them |
| Closures.TopologicalAcyclic | core/src/model/order.rs:166-171 | a set that a topological order lists completely holds no cycle, so success rules out a cycle |
| Closures.StuckSetHasCycle | core/src/model/order.rs:147-159 | a non-empty set in which every node has a producer inside it holds a cycle |
| NodeCosts.Costs | core/src/model/order.rs:111-130 | one cost per node; a node's cost is 0 exactly when each of its outputs is untyped, has a shape that is not concrete, has datum width 0, or has a dimension of 0 |
| NodeCosts.ProductZero | core/src/model/order.rs:121-124 | the element count of a shape is 0 exactly when a dimension is 0, and 1 for a scalar |
| NodeCosts.FactCostZero | core/src/model/order.rs:116-126 | an output costs nothing exactly when it is untyped, its shape is not concrete, its width is 0 or a dimension is 0 |
| NodeCosts.NodeCostAppend | core/src/model/order.rs:114-128 | node cost adds up over a split of its outputs |
| NodeCosts.NodeCostZero | core/src/model/order.rs:114-128 | a node is free exactly when each of its outputs is free |
| EvalOrder.Expand | core/src/model/order.rs:39-61 | one dependency list per node, naming nodes only: empty for a model input, the ordered `Deps` list otherwise |
| EvalOrder.WalkFromMore | core/src/model/order.rs:38-79 | once the walk has stopped (empty stack or loop), more turns change nothing |
| EvalOrder.WalkFromSnoc | core/src/model/order.rs:38-79 | one more turn of a running walk is one more step of it |
| EvalOrder.EmitTurn | core/src/model/order.rs:42-45 | a top frame past all its dependencies is popped, its node emitted, marked done and no longer pending |
| EvalOrder.AdvanceTurn | core/src/model/order.rs:62-63 | a done dependency only advances the top frame's index |
| EvalOrder.LoopTurn | core/src/model/order.rs:64-72 | a pending dependency ends the walk with the loop error |
| EvalOrder.PushTurn | core/src/model/order.rs:73-76 | any other dependency is marked pending and opened on a new frame above the current one |
| EvalOrder.LinearizeMore | core/src/model/order.rs:32-80 | more fuel does not change a run of the reference that finished |
| EvalOrder.LinearizeDeterministic | core/src/model/order.rs:32-80 | two finished runs of the reference give the same answer |
| EvalOrder.LinearizesUnique | core/src/model/order.rs:20-82 | the reference has at most one answer for a graph and its outputs |
| EvalOrder.ResumeSkip | core/src/model/order.rs:33-35 | an output already done is skipped without changing the answer |
| EvalOrder.ResumeWalk | core/src/model/order.rs:36-79 | a finished walk of an output continues the reference with its state, or gives the reference's error |
| EvalOrder.EmittedOnce | core/src/model/order.rs:42-45 | a node whose frame has resolved all its dependencies has no other frame on the stack, so it is emitted once |
| EvalOrder.EmitKeepsFrames | core/src/model/order.rs:42-45 | emitting the top node keeps the stack shape, closes that node, and it was not done before |
| EvalOrder.AdvanceKeepsFrames | core/src/model/order.rs:62-63 | stepping past a done dependency keeps the stack shape |
| EvalOrder.PushKeepsFrames | core/src/model/order.rs:73-76 | opening a dependency neither done nor pending keeps the stack shape and opens one more node |
| EvalOrder.CycleOnStack | core/src/model/order.rs:64-72 | meeting a pending dependency means the frames from it to the top form a cycle inside the closure |
| EvalOrder.EmitKeepsOrder | core/src/model/order.rs:43-44 | emitting a node not done whose dependencies are all done keeps the order duplicate-free, topological and equal to `done` |
| EvalOrder.EmitStep | core/src/model/order.rs:42-45 | an emit turn keeps the per-output loop state, agrees with the reference turn and makes progress |
| EvalOrder.AdvanceStep | core/src/model/order.rs:62-63 | an advance turn keeps the loop state, agrees with the reference turn and makes progress |
| EvalOrder.LoopStep | core/src/model/order.rs:64-72 | a loop turn happens only when the closure has a cycle, and the reference walk gives the same error |
| EvalOrder.PushStep | core/src/model/order.rs:73-76 | a push turn keeps the loop state, agrees with the reference turn and makes progress |
| EvalOrder.ResolveOutput | core/src/model/order.rs:36-79 | resolving one output that is not done either emits it after every missing dependency, extending the duplicate-free topological order inside the closure, or fails with "Loop detected" only when the closure has a cycle; either way it ends where the reference walk ends |
| EvalOrder.ResolveNext | core/src/model/order.rs:32-79 | one pass of the outer loop keeps the order valid, covers the outputs seen so far, and stays in step with the reference |
| EvalOrder.EvalOrderForNodes | core/src/model/order.rs:20-82 | on success the order has no duplicates, lists every node after its dependencies (model inputs exempt), and holds exactly the closure of the outputs; it fails, with "Loop detected", exactly when the closure has a cycle; the answer is the reference's |
| MemoryOrder.UpsAll | core/src/model/order.rs:95-110 | one producer list per node, naming nodes only, each the deduplicated inputs followed by the extra producers |
| MemoryOrder.MirroredPush | core/src/model/order.rs:99-101 | recording a new producer on both sides keeps `j in downs[i] <==> i in ups[j]` and both lists duplicate-free |
| MemoryOrder.Link | core/src/model/order.rs:99-102 | a producer already listed is skipped on both sides; otherwise it is appended to `ups[down]` and `down` to `downs[up]` |
| MemoryOrder.LinkInputs | core/src/model/order.rs:98-103 | the inputs of one node become its deduplicated producer list, mirrored in `downs` |
| MemoryOrder.LinkAllInputs | core/src/model/order.rs:97-104 | after the first pass every node's producer list is its deduplicated inputs, mirrored in `downs` |
| MemoryOrder.ExtraStep | core/src/model/order.rs:105-109 | one extra pair changes the expected producer list of its consumer only, by the same rule as `Link` |
| MemoryOrder.LinkExtras | core/src/model/order.rs:105-110 | after the second pass every producer list is `Ups`, mirrored in `downs` |
| MemoryOrder.BuildAdjacency | core/src/model/order.rs:95-110 | `ups` is `UpsAll` and `downs` is exactly its mirror |
| MemoryOrder.RequiredNodes | core/src/model/order.rs:131-141 | the fixed-point loop ends with exactly the closure of the outputs under `ups` |
| MemoryOrder.SelectNext | core/src/model/order.rs:147-160 | no node is chosen exactly when no candidate is ready; otherwise a ready candidate of least active cost, the lowest index among ties |
| MemoryOrder.InitialCandidates | core/src/model/order.rs:145 | in a closed `todo`, the nodes without producers are exactly the ready ones |
| MemoryOrder.CandidatesAfter | core/src/model/order.rs:161-168 | after emitting `next`, the ready nodes are the old ones minus `next` plus the consumers of `next` that became ready |
| MemoryOrder.NoReadyMeansCycle | core/src/model/order.rs:147-159 | work left with no ready node means a cycle among the required nodes |
| MemoryOrder.GreedyAppend | core/src/model/order.rs:147-161 | emitting the best ready node extends a greedy order |
| MemoryOrder.EmitStep | core/src/model/order.rs:161-162 | emitting a ready node keeps the order duplicate-free, topological and made of required nodes |
| MemoryOrder.ScheduleStep | core/src/model/order.rs:161-168 | one scheduling step keeps the loop invariant, with the candidates refreshed from the consumers of the emitted node |
| MemoryOrder.AddReadyConsumers | core/src/model/order.rs:163-168 | adds exactly the consumers of `next` that are still to do and have no producer to do |
| MemoryOrder.Schedule | core/src/model/order.rs:142-171 | on success a duplicate-free topological order of exactly the required nodes, each step the best ready node; fails, with "Dependency loop detected.", exactly when the required nodes hold a cycle |
| MemoryOrder.EvalOrderForNodesMemory | core/src/model/order.rs:85-172 | on success a duplicate-free permutation of the closure of the outputs under `ups`, producers first, chosen greedily by active cost with the lowest-index tie-break; fails exactly when that closure has a cycle |
| Scenarios.SimpleExpands | core/src/model/order.rs:180-186 | in the `simple` graph, `add` walks `a` then `b` (both leaves) |
| Scenarios.SimpleWalk | core/src/model/order.rs:180-186 | the walk from `add` emits `a`, `b`, `add` in seven turns |
| Scenarios.SimpleLinearizes | core/src/model/order.rs:180-186 | the reference answers `[a, b, add]` |
| Scenarios.Simple | core/src/model/order.rs:180-186 | the linearizer returns `[a, b, add]` |
| Scenarios.DiamondExpands | core/src/model/order.rs:189-195 | in the `diamond` graph, `add` walks `a` twice |
| Scenarios.DiamondWalk | core/src/model/order.rs:189-195 | the walk from `add` emits `a` once, steps past its second use, then emits `add` |
| Scenarios.DiamondLinearizes | core/src/model/order.rs:189-195 | the reference answers `[a, add]` |
| Scenarios.Diamond | core/src/model/order.rs:189-195 | the linearizer returns `[a, add]` |
| Scenarios.LoopExpands | core/src/model/order.rs:198-205 | after rewiring, `add` walks `neg` then `a`, and `neg` walks `add` then `a` |
| Scenarios.LoopWalk | core/src/model/order.rs:198-210 | the walk from `neg` opens `add`, then `neg`, then meets the pending `add` |
| Scenarios.LoopLinearizes | core/src/model/order.rs:198-210 | the reference answers "Loop detected" |
| Scenarios.DodgeLoop | core/src/model/order.rs:198-210 | the linearizer returns "Loop detected" rather than running forever |

## Left out

- `eval_order` (core/src/model/order.rs:9-17) is not modelled. It only reads the model's input and output outlets through the graph API and passes them on. The scenarios pass those arguments directly.
- The debug logging of the cyclic path (core/src/model/order.rs:65-71) is not modelled. It writes to the logger only; the error value is modelled.
- `to_typed_fact`, `datum_type.size_of()` and `shape.as_concrete()` are not modelled. They are foreign trait calls, so each output is given as a `Fact`: untyped, or a byte width with a shape that may be concrete.
- NodeCosts.Costs: does not model `usize` overflow in the products and sums; costs are unbounded naturals.
- MemoryOrder.SelectNext: the reused `active` bit set (core/src/model/order.rs:151-157) is modelled as the value `ActiveSet`, recomputed per candidate. The in-place clearing and refilling of one buffer is not modelled.
- Bit sets are modelled as sets and `Vec`s as sequences. Capacity and allocation are not modelled.
- The model requires every input index, every extra pair and every output index to name a node (`WellFormed`, `AllBelow`). In the scheduler an index past the end of `nodes`, `ups` or `downs` would panic. Model inputs are only tested with `contains`, so they are unconstrained.
- EvalOrder.EvalOrderForNodes: `WellFormed` excludes graphs the linearizer handles without panicking. An extra pair is only compared with the current node (core/src/model/order.rs:41,52), so a pair whose consumer is not a node, or is never reached, is ignored. The inputs of a node that is never reached are never read (core/src/model/order.rs:39,50,57). The model says nothing about such graphs.
- MemoryOrder.SelectNext: does not model `usize` overflow in the active-cost sum (core/src/model/order.rs:158). A wrapping sum in a release build could change which node is chosen; the model sums unbounded naturals.
- The thread, channel and one-second timeout of the `dodge_loop` test (core/src/model/order.rs:206-210) are not modelled. The model proves termination with a decreasing measure and proves the error result instead.
- EvalOrder.Linearize: the reference definition gives each walk a fuel bound on its number of turns and returns `None` when the bound is too small. The linearizer is shown to agree with the reference for every large enough bound.
- The memory-aware scheduler has no test in the source, so no scenario is proved for it.
- nnef/src/ast/quant.rs is not part of this model. It is a parser and writer for quantization files, built on combinator and formatting code that is not shown.
