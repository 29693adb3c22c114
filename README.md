# Diagram reducer: a Dafny model

The program reduces a business-process diagram to what a human operator needs to see. A diagram has:

- nodes, each with an id, a name and a type: Start, HumanTask, ServiceTask, Gateway, End, or any other string;
- edges, each a `from`/`to` pair of node ids.

The reducer makes one pass over the input edges. For each edge it does three things:

- It caches both endpoints by id. The first time it sees a node, it outputs the node if the node is valid.
- It skips the edge if the edge leaves an invalid node.
- Otherwise it emits the edge with its target redirected. If the target is a ServiceTask, the new target is the first valid node reached by repeatedly following the first edge that leaves the current node. An edge already emitted is not emitted again.

A node is valid when its type is Start, HumanTask, Gateway or End.

The model has five modules:

- `Diagrams` (`diagrams.dfy`): the data model, the validity test, and lookup of a node by id.
  - The lookup takes the node at position `id` when that node carries the id.
  - Otherwise it scans for the first node that carries it.
- `EdgeWalker` (`walker.dfy`):
  - the single hop, `EdgeToIdWithFromId`;
  - the walk to the next valid node, as a function `Walk` and as the source's loop `IdNextValidNode`.
- `Sequences` (`sequences.dfy`): first-occurrence deduplication. The reducer's specification is written with it.
- `Reducer` (`reducer.dfy`): the reduction.
  - As the source's loops: `FilterHumanTasks`, `ProcessEdge` and `CacheEnds`.
  - As a fold of a single-edge step over the input edges: `Reduce`.
  - Each method's contract equates it with the function it implements.
- `ReducerProperties` (`reducer_properties.dfy`): the reduction restated without its caches, and the properties of its output. The caches are restated as:
  - `Candidates`: the proposed edges, repeats included;
  - `Visited`: the nodes looked at, repeats included.

Errors are values, not crashes:

- `NodeNotFound(id)`: an edge endpoint, a walk step, or a walk's result that no node carries.
- `IncompletePath(start)`: the walk ran out of edges before it reached a valid node.
- `CycleDetected(start)`: the walk came back to a node it had already passed.

The first error ends the whole reduction.

Where the code and the system's documentation disagree, the model follows the code:

- **Errors abort the reduction.** The documentation says an edge whose node cannot be found, or whose walk is incomplete, is skipped and the reduction continues. The code does not skip it:
  - it calls the validity test on `null` (`BP3CodingChallenge2016.js:61`, `:248`);
  - it reads `.type` of `null` after a walk returns nothing (`:93-94`).

  Both stop the program, so the model ends the reduction with the corresponding error.
- **Reducing twice is not the identity.** The documentation says that reducing an already reduced diagram gives back the same node set and edge set. That does not hold for a valid node that no edge touches: the reducer only outputs nodes it reaches through edges, so such a node is dropped (`UntouchedNodeDropped`, with `IsolatedNodeDropped` as the smallest example). A node of an unknown type also breaks the claim even when edges touch it: such a diagram has no ServiceTask, but the node is invalid and so never output. What does hold, for a diagram whose nodes are all valid and whose edges all resolve, is proved in two lemmas:
  - `ReduceReducedEdges`: every edge is kept;
  - `ReduceReducedNodes`: exactly the nodes some edge touches are kept.

## Model

| member | source | states |
|---|---|---|
| Diagrams.NodeIsValidExactly | BP3CodingChallenge2016.js:224-236 | a node is valid exactly when its type is Start, HumanTask, Gateway or End; a ServiceTask and an unknown type are not valid |
| Diagrams.ScanNodes | BP3CodingChallenge2016.js:288-290 | the scan returns a node of the sequence that carries the id, or nothing exactly when no node carries it |
| Diagrams.ScanNodesIsFirst | BP3CodingChallenge2016.js:288-290 | the scan returns the first node, in sequence order, that carries the id |
| Diagrams.FindNode | BP3CodingChallenge2016.js:285-297 | the lookup returns a node of the diagram with the requested id; it returns nothing (the source's `null`) if and only if no node has that id |
| Diagrams.FindNodeFindsTheNode | BP3CodingChallenge2016.js:285-297 | when ids identify nodes, the lookup returns exactly the node with that id, whether or not it sits at position `id` |
| Diagrams.FindNodeOrderIndependent | BP3CodingChallenge2016.js:285-297 | when ids identify nodes, reordering the node sequence does not change what the lookup returns |
| EdgeWalker.EdgeToIdWithFromId | BP3CodingChallenge2016.js:266-276 | the hop answers -1 or the target of some edge |
| EdgeWalker.EdgeToIdIsFirst | BP3CodingChallenge2016.js:268-271 | the hop returns the target of the first edge, in sequence order, that leaves the id |
| EdgeWalker.EdgeToIdNone | BP3CodingChallenge2016.js:275 | when no edge leaves the id, the hop answers -1 |
| EdgeWalker.FirstEdgeFromExists | BP3CodingChallenge2016.js:268-271 | if some edge leaves the id, a first position holding such an edge exists, so `EdgeToIdIsFirst` applies and the hop returns that edge's target |
| EdgeWalker.IdNextValidNode | BP3CodingChallenge2016.js:245-257 | the loop ends in the result of the walk specification `Walk`, including its three error outcomes |
| EdgeWalker.WalkOutcome | BP3CodingChallenge2016.js:245-257 | a success is a valid node reached after hops that all pass invalid nodes; an incomplete path is a hop that found no edge; a missing node is the first hop that resolves to nothing; a detected cycle is a chain on which every hop passes an invalid node, so the source's loop never exits |
| EdgeWalker.WalkCacheIndependent | BP3CodingChallenge2016.js:248 | a cache whose entries are what the lookup finds does not change where the walk ends |
| Sequences.Dedup | BP3CodingChallenge2016.js:85-89 | deduplication keeps exactly the elements of its input |
| Sequences.DedupDistinct | BP3CodingChallenge2016.js:85-89 | no element occurs twice after deduplication |
| Sequences.DedupKeepsFirstOccurrenceOrder | BP3CodingChallenge2016.js:85-89 | deduplicated elements appear in the order of their first occurrence in the input |
| Sequences.DedupPrefix | BP3CodingChallenge2016.js:85-89 | deduplication only appends: deduplicating a prefix gives a prefix of the result |
| Reducer.CacheEndpointOutcome | BP3CodingChallenge2016.js:59-64 | caching one endpoint fails (`NodeNotFound`) exactly when it is not cached and resolves to no node; an endpoint already cached leaves the state as it was; a new one is cached as the node the lookup finds, the output nodes gain it exactly when it is valid, and the edges are untouched |
| Reducer.CacheEdgeEndsOutcome | BP3CodingChallenge2016.js:56-66 | caching an edge's two endpoints fails exactly when one of them is not cached and resolves to no node; otherwise the output nodes gain each new valid endpoint, `from` before `to`, and once when both ends are one node |
| Reducer.CacheEnds | BP3CodingChallenge2016.js:56-66 | the source's inner loop over `from` then `to` computes `CacheEdgeEnds` |
| Reducer.ProcessEdge | BP3CodingChallenge2016.js:53-97 | the source's loop body computes the single-edge step `Step`: cache the ends, skip an edge from an invalid node, redirect, emit unless emitted before, cache the output target |
| Reducer.ReduceFromPrefix | BP3CodingChallenge2016.js:52-100 | continuing from the state after the first `i` edges gives the fold over all edges |
| Reducer.ReduceIsFold | BP3CodingChallenge2016.js:44-101 | the reduction is the fold of the single-edge step over the input edges |
| Reducer.FilterHumanTasks | BP3CodingChallenge2016.js:44-101 | the source's reducer loop computes `Reduce`, the fold whose results the lemmas below characterise; the output is a new value and the input diagram is only read |
| ReducerProperties.EndpointsMatch | BP3CodingChallenge2016.js:56-66 | caching an edge's ends succeeds exactly when both resolve, and the cache and output nodes then agree with the nodes looked at, extended by `from` and `to` |
| ReducerProperties.CacheTargetMatches | BP3CodingChallenge2016.js:91-97 | caching the output target, a node the lookup finds and that is valid when not yet cached, succeeds and keeps the cache and output nodes in agreement with the nodes looked at |
| ReducerProperties.StepMatches | BP3CodingChallenge2016.js:53-97 | one input edge goes through exactly when its ends resolve and, if it leaves a valid node, its target is found; the caches then still agree with the nodes looked at and the edges proposed |
| ReducerProperties.ReducePrefixMatches | BP3CodingChallenge2016.js:52-98 | the loop's invariant: after the first `n` edges, the node cache, the emitted-edge set and the outputs agree with the reference sequences |
| ReducerProperties.ReduceCharacterised | BP3CodingChallenge2016.js:44-101 | the reduction succeeds exactly when every edge can be processed; its nodes are the valid nodes looked at, each once, and its edges are the proposed edges, each once |
| ReducerProperties.CandidatesAre | BP3CodingChallenge2016.js:71-89 | an edge is proposed exactly when some input edge leaves a valid node and points, directly or past ServiceTasks, at it |
| ReducerProperties.VisitedAre | BP3CodingChallenge2016.js:56-97 | a node is looked at exactly when it is an endpoint of an input edge, or the output target of an edge that is kept |
| ReducerProperties.ProposedEdgeShape | BP3CodingChallenge2016.js:72-97 | a proposed edge leaves a valid node and points at a node that is not a ServiceTask; both nodes are looked at |
| ReducerProperties.ReduceEdges | BP3CodingChallenge2016.js:75-89 | no duplicate (from, to) pairs; the output edges are exactly the proposed ones; each leaves an output node, never points at a ServiceTask, and points at an output node whenever its target is valid |
| ReducerProperties.ReduceNodes | BP3CodingChallenge2016.js:59-63 | the output nodes are exactly the valid nodes that some input edge looks at, and each one is an input node |
| ReducerProperties.ReduceNodeIdsDistinct | BP3CodingChallenge2016.js:59-63 | no two output nodes carry the same id |
| ReducerProperties.ReduceEdgesInOrder | BP3CodingChallenge2016.js:86-88 | the output edges keep the input's order: the edges proposed by any prefix of the input form a prefix of the output |
| ReducerProperties.ReduceNodesInOrder | BP3CodingChallenge2016.js:61-62 | the output nodes keep the input's order: the valid nodes looked at by any prefix of the input form a prefix of the output |
| ReducerProperties.ValidEdgeKept | BP3CodingChallenge2016.js:72-83 | an edge between two valid nodes is proposed unchanged and looks only at its two endpoints |
| ReducerProperties.ReduceReducedEdges | BP3CodingChallenge2016.js:44-101 | reducing a diagram whose nodes are all valid and whose edges all resolve keeps exactly its edges |
| ReducerProperties.ReduceReducedNodes | BP3CodingChallenge2016.js:44-101 | reducing such a diagram keeps exactly the nodes some edge touches |
| ReducerProperties.UntouchedNodeDropped | BP3CodingChallenge2016.js:52-97 | a node that no input edge touches at either end is not in the output, whatever its type: the output target of a kept edge is always some edge's `to` |
| ReducerProperties.IsolatedNodeDropped | BP3CodingChallenge2016.js:52-66 | a diagram of one valid node and no edges reduces to the empty diagram |

## Left out

- Reading the diagram file, parsing JSON, handling command-line flags and printing the result (`:17-36`). The model takes the parsed diagram as a value and returns the reduced one.
- The self-tests `runTests`, `assertDiagramEquals` and `compareObject` are not part of this model.
- The log message written for an incomplete path (`:256`) is not modelled. The model returns `IncompletePath(start)` instead.
- The inner loop visits an edge's own properties (`:56-58`). The model assumes an edge has exactly `from` and `to`, visited in that order. An extra property on an input edge would also be looked up as a node id; that is not modelled.
- A JavaScript `TypeError` on `null` is modelled as an error result that ends the reduction. No output is produced after it, as in the source. The partial output built before the error is not returned.
- EdgeWalker.IdNextValidNode stops with `CycleDetected` where the source's loop never ends. `WalkOutcome` proves that this happens only on chains where every hop passes an invalid node.
- The walk's loop test `nextId >= 0` (`:247`) is kept as written, so a negative edge target also ends the walk as an incomplete path.
- The cache keys (`id + ""`) and the emitted-edge keys (`"to"+to+"from"+from`) are modelled as integer ids and (from, to) pairs. For integer ids these keys identify the same things.
- A node whose type is unknown is invalid, so it is never output. It is not a ServiceTask, however, so an edge into it is kept without redirection and points at a node missing from the output.
  - The ServiceTask test at `:94` only reaches targets not yet cached. Those are always walk results, and so valid.
- Diagrams.FindNodeFindsTheNode and Diagrams.FindNodeOrderIndependent assume that ids identify nodes. With two nodes sharing an id, the positional fast path (`:286`, `:292`) can return a node other than the first one with that id.
