# trade-sim graph core in Dafny

This project models the simulation core of trade-sim, a browser toy in which agents travel over a graph of nodes and edges. The model covers:

- **`IdPool`**: the id allocator. It keeps a high-water mark and a LIFO stack of released ids.
- **`mapToType`**: the registries built with it (node, edge and agent type maps).
- **`BasicNode`**: a node with an incidence list, its factory and its dump.
- **`BasicEdge`**: the edge factory. It resolves endpoints from the dump or through a resolver.
- **`Graph`**: the container.
  - It loads from a plain dump, resolving edge endpoints through the dump's own node ids.
  - It has the `add*` methods, the `find` lookups by id, the first-match hit test `getNodeByCoord`, and `getDump`.
- **`breathFirstSearch`**: the search and its backtracking.
- **`Traveler` and `PathTraveler`**: the agents' travel state machine, driven by an explicit clock.

## Model structure

- Each class whose fields the program updates in place is a Dafny `class`:
  - `IdPool`, `BasicNode` (its `edges` list), `Traveler`, `PathTraveler` and `Graph`.
  - `IdPool`, `Traveler` and `PathTraveler` each have a pure `State()` view. Their methods are proved to move that state by a pure transition function (`GetIdStep`, `Travel`, `Update`, `PathUpdate`, …).
  - `BasicNode` and `Graph` state their new fields directly in their methods' contracts.
  - The properties of those functions are proved as lemmas.
- Plain records are datatypes: dumps, the `Edge` record `BasicEdge.create` builds, and the BFS queue entries.
- Operations that can throw return `Result`. The kind of exception is not distinguished.
- JavaScript `undefined`/`null` results are `Option`.

The modules follow the source files:

- `results.dfy`: `Option` and `Result`.
- `type_maps.dfy`: `src/utils/mapToType.js`.
- `id_pool.dfy`: `src/utils/IdPool.js`.
- `nodes.dfy`: `src/nodes/BasicNode.js`, the `Edge` record and the node registry.
- `edges.dfy`: `src/edges/BasicEdge.js` and the edge registry.
- `path_finding.dfy`: `src/path_finding/breathFirstSearch.js`.
- `traveler.dfy`: `src/agents/Traveler.js`.
- `path_traveler.dfy`: `src/agents/PathTraveler.js` and the agent registry.
- `js_numbers.dfy`: ToInt32 and the 32-bit `^` of JavaScript, needed for the hit test.
- `graph_queries.dfy`: the value-level parts of `src/Graph.js`.
  - The lookups.
  - The node map used while loading.
  - Which dumps load.
  - The two hit tests.
- `graph.dfy`: the `Graph` class.

Choices the model makes:

- **Clock.** The wall clock (`new Date()`) is the parameter `now`, in milliseconds.
- **Enum strings.** The enum files `NodeType`, `EdgeType` and `AgentType` are not part of this model. Their values are stand-in strings: `"basic"`, `"basic"` and `"path_traveler"`.
- **Resolvers.** A resolver is either:
  - the constructor's node map, `Some(map)`;
  - or the graph's own `getNodeById`, `None`.

  No other resolver is ever passed.

Where the code and its own documentation disagree, the model follows the code:

- **Round trip.** `src/Graph.js:41-48` documents `create` as building a graph from the plain graph representation, and `src/Graph.js:164-167` documents `getDump` as returning that plain representation. Together they promise that `Graph.create(g.getDump())` rebuilds every graph. In the code, `getDump` calls `getDump()` on each edge. The edges are `Edge` records, which have no such method, so `getDump` throws as soon as there is an edge. The round trip therefore holds only for graphs without edges. `Graphs.Reload` proves it there, with ids preserved.
- **Agent factories.** `_create` (`src/Graph.js:80`) calls `Class.create` for every registry, agents included. `Traveler` and `PathTraveler` define no such method, so no agent can ever be added.

## Model

| member | source | states |
|---|---|---|
| TypeMaps.MapToType | src/utils/mapToType.js:6-12 | one key per distinct type tag (a missing tag becomes "undefined"); every stored class is an input class under its own tag; the empty list gives the empty map |
| TypeMaps.LaterClassWins | src/utils/mapToType.js:8-10 | when several classes share a tag, the one stored is the last in the list |
| TypeMaps.BuildTypeMap | src/utils/mapToType.js:6-12 | the loop assigning `classMap[cls.type] = cls` builds exactly the fold `MapToType` |
| Nodes.NodeTypeMapContents | src/nodes/NodeTypeMap.js:7-9 | the node registry maps only the basic type, to BasicNode |
| BasicEdges.EdgeTypeMapContents | src/edges/EdgeTypeMap.js:7-9 | the edge registry maps only the basic type, to BasicEdge |
| PathTravelers.AgentTypeMapContents | src/agents/AgentTypeMap.js:8-11 | Traveler, which declares no type, is registered under "undefined"; PathTraveler under its own type |
| IdPools.IdPool.constructor | src/utils/IdPool.js:5-8 | a new pool has no vacant ids and mark 0 |
| IdPools.IdPool.GetId | src/utils/IdPool.js:14-20 | the new state and the returned id are those of `GetIdStep`; no argument is taken |
| IdPools.IdPool.ReleaseId | src/utils/IdPool.js:26-32 | the new state is that of `ReleaseIdStep` |
| IdPools.TakeMany | src/utils/IdPool.js:14-20 | `n` calls of `getId` return `n` ids, each either vacant before or above the old mark and at most the new one; the mark rises by at most `n` and the stack only loses its top entries |
| IdPools.FreshPoolCountsUp | src/utils/IdPool.js:5-8 | a fresh pool with no releases hands out 1, 2, …, n in order, and its mark ends at n |
| IdPools.CountsUpFrom | src/utils/IdPool.js:14-20 | with no vacant ids and mark h, n calls give h+1 … h+n |
| IdPools.TakeIdPopsLastReleased | src/utils/IdPool.js:15-17 | with vacant ids, `getId` pops the most recently released id and keeps the mark |
| IdPools.TakeIdRaisesMark | src/utils/IdPool.js:18-19 | with no vacant ids, `getId` raises the mark by exactly one and returns the new mark |
| IdPools.ReleaseIdCases | src/utils/IdPool.js:27-31 | releasing the mark only lowers it; releasing any other id only pushes it onto the stack |
| IdPools.ReleaseThenTake | src/utils/IdPool.js:14-32 | release followed by `getId` returns the released id and restores the pool, except when the mark is released while other ids are vacant; then the last vacant id comes back and the mark is one lower |
| IdPools.ReleasingTheMarkCanSkipIt | src/utils/IdPool.js:27-29 | a concrete pool (vacant [1], mark 3) where releasing 3 and then calling `getId` returns 1 |
| IdPools.EmptyPoolAccounts | src/utils/IdPool.js:5-8 | a fresh pool satisfies the bookkeeping invariant with nothing issued |
| IdPools.TakeIdKeepsAccounts | src/utils/IdPool.js:10-20 | `getId` never returns an id still issued; issued ids and the stack stay disjoint, duplicate-free and together exactly 1..mark |
| IdPools.ReleaseIdKeepsAccounts | src/utils/IdPool.js:26-32 | releasing an issued id keeps the same invariant, with that id no longer issued |
| Nodes.BasicNode.constructor | src/nodes/BasicNode.js:16-22 | the id, x and y are stored as given, the list of edges is empty, and the color defaults to 'rgb(255, 252, 56)' |
| Nodes.BasicNode.Create | src/nodes/BasicNode.js:33-40 | a fresh node from exactly the dump's id, x, y and color |
| Nodes.BasicNode.GetDump | src/nodes/BasicNode.js:46-54 | the dump carries the node's id, x, y and color, and the basic type, which the node registry knows |
| Nodes.CreateFromOwnDump | src/nodes/BasicNode.js:33-54 | round trip: `create(n.getDump())` has the id, x, y and color of `n` and no edges |
| Nodes.BasicNode.AddEdge | src/nodes/BasicNode.js:59-61 | appends the edge at the end, with no duplicate check, and changes nothing else |
| Nodes.FindEdgeIndex | src/nodes/BasicNode.js:68 | `findIndex`: the first position with the id, or -1 when no edge has it |
| Nodes.BasicNode.RemoveEdge | src/nodes/BasicNode.js:67-72 | the list becomes `RemoveEdgeAsWritten` of the old one (test `index > 0`) |
| Nodes.RemoveEdgeAsWrittenCases | src/nodes/BasicNode.js:67-72 | as written, the list is unchanged exactly when the id is absent or first at index 0; otherwise exactly one edge is dropped |
| Nodes.RemoveOnlyEdge | src/nodes/BasicNode.js:69 | the only edge of a one-edge list is never removed as written, but is removed as intended |
| Nodes.BasicNode.RemoveEdgeCorrected | src/nodes/BasicNode.js:67-72 | with the test `index >= 0`, the list becomes `RemoveEdgeIntended` of the old one |
| Nodes.RemoveEdgeIntendedRemovesFirstMatch | src/nodes/BasicNode.js:67-72 | as intended, removal drops exactly the first edge with the id and keeps the earlier ones in place; the list is unchanged exactly when no edge has the id |
| BasicEdges.CreateEdge | src/edges/BasicEdge.js:31-41 | `null` exactly when an endpoint stays unresolved; otherwise the edge has the dump's id, the resolved ends and the dump's length, or 1 when the length is absent |
| BasicEdges.GivenNodesIgnoreResolver | src/edges/BasicEdge.js:32-33 | node objects given in the dump are used as they are, and the resolver is not consulted |
| BasicEdges.UnresolvedIdFails | src/edges/BasicEdge.js:32-34 | a dump that names both ends by id fails exactly when the resolver misses one |
| BasicEdges.DumpEdge | src/edges/BasicEdge.js:43-50 | the record has the id, the endpoint ids and the length, and no type |
| BasicEdges.DumpThenCreate | src/edges/BasicEdge.js:31-50 | round trip: re-creating from the dump, through a resolver that maps the endpoint ids back, gives the same edge |
| PathFinding.GetOtherNode | src/path_finding/breathFirstSearch.js:16 | for an endpoint id, returns an endpoint; for an edge that is not a self-loop, the one with the other id |
| PathFinding.Reverse | src/path_finding/breathFirstSearch.js:38 | the list reversed, element by element |
| PathFinding.BacktrackPath | src/path_finding/breathFirstSearch.js:32-39 | the `while` loop returns the predecessor chain's edges, root first |
| PathFinding.VisitEdges | src/path_finding/breathFirstSearch.js:15-21 | the inner loop only extends the queue and the seen set, by the same amount, keeping the queue linked |
| PathFinding.VisitNeighbours | src/path_finding/breathFirstSearch.js:15-21 | the imperative inner loop computes exactly `VisitEdges` |
| PathFinding.BreadthFirstSearch | src/path_finding/breathFirstSearch.js:6-25 | the result is `Search`; a non-empty result is a walk from start to the node with `endId`; whenever some walk reaches it, the result is one with the fewest edges |
| PathFinding.SearchIsShortestWalk | src/path_finding/breathFirstSearch.js:2-24 | the same two facts about the specification function `Search` |
| PathFinding.SearchLoopCorrect | src/path_finding/breathFirstSearch.js:12-22 | the outer loop, FIFO over an appended queue, returns a shortest walk whenever one exists |
| PathFinding.FoundIsShortest | src/path_finding/breathFirstSearch.js:13 | when the node being expanded is the target, no walk to it is shorter than its distance |
| PathFinding.Exhausted | src/path_finding/breathFirstSearch.js:24 | a queue used up without meeting the target means no walk reaches it |
| PathFinding.ChainWalks | src/path_finding/breathFirstSearch.js:32-37 | the predecessor chain of every queued step is a walk to its node, as long as its distance |
| PathFinding.Frontier | src/path_finding/breathFirstSearch.js:12-21 | no walk is shorter than the recorded distance of its end node; a walk to a node not yet queued is longer than the current layer |
| PathFinding.VisitEdgesQueuesOnce | src/path_finding/breathFirstSearch.js:16-20 | with the seen check, no node id is queued twice, and each id queued was unseen |
| PathFinding.QueueBound | src/path_finding/breathFirstSearch.js:12-22 | a queue without repeated ids is no longer than the number of nodes, so the search ends |
| PathFinding.SearchFromTarget | src/path_finding/breathFirstSearch.js:13 | searching for the start's own id gives `[]` |
| PathFinding.SearchUnreachable | src/path_finding/breathFirstSearch.js:24 | when no walk reaches the target, the result is `[]` |
| Travelers.Traveler.constructor | src/agents/Traveler.js:26-39 | a new traveler is idle at its node, with no travel started and no current edge; travel time defaults to 2 |
| Travelers.Traveler.TravelAlong | src/agents/Traveler.js:74-81 | the new state is `Travel` of the old one; `curEdge` is untouched |
| Travelers.Travel | src/agents/Traveler.js:74-81 | keeps the current node and sets the start time to `now` in every case; an incident edge always gives a destination |
| Travelers.TravelPicksOtherEnd | src/agents/Traveler.js:75-76 | the end when the start is the current node, the start when the end is, the old destination otherwise |
| Travelers.CannotStartCases | src/agents/Traveler.js:77-79 | the warning is issued exactly when the traveler is idle and the edge does not touch its node |
| Travelers.ProgressReachesOne | src/agents/Traveler.js:65-68 | `progress >= 1` is the integer test `now - travelStarted >= travelTime*1000` |
| Travelers.Traveler.UpdateAt | src/agents/Traveler.js:87-93 | the new state is `Update` of the old one; `dt` plays no part |
| Travelers.Update | src/agents/Traveler.js:87-93 | the state changes exactly when the hop is over and there is a destination; `travelStarted` is never cleared |
| Travelers.UpdateArrives | src/agents/Traveler.js:89-92 | on arrival the traveler stands on its old destination and is idle |
| Travelers.UpdateWaits | src/agents/Traveler.js:89 | while idle, or before the hop is over, nothing changes |
| Travelers.UpdateIdempotent | src/agents/Traveler.js:87-93 | a second update at the same time is a no-op |
| Travelers.LerpBetween | src/agents/Traveler.js:51 | interpolating at a fraction in [0, 1) stays between the two ends |
| Travelers.PositionCases | src/agents/Traveler.js:44-61 | the shape is at the current node when idle or at departure, at the destination once the hop is over, and within the box of the two nodes while in transit |
| PathTravelers.PathTraveler.constructor | src/agents/Traveler.js:35-39 | a new path traveler is an idle traveler with no path |
| PathTravelers.PathTraveler.TravelPath | src/agents/PathTraveler.js:35-40 | the new state is `TravelEdgePath` of the old one, and the inherited `curEdge` is kept |
| PathTravelers.TravelEdgePath | src/agents/PathTraveler.js:35-40 | an empty list changes nothing; otherwise the path is stored, the cursor set to 0 and the first edge travelled |
| PathTravelers.PathTraveler.GetNextPathStep | src/agents/PathTraveler.js:42-47 | the new state and the result are those of `NextPathStep` |
| PathTravelers.NextPathStepCases | src/agents/PathTraveler.js:42-47 | no path gives `null` and no move; otherwise the cursor advances and the edge under it is returned, or `null` past the end |
| PathTravelers.PathTraveler.UpdateAt | src/agents/PathTraveler.js:49-56 | the new state is `PathUpdate` of the old one, and the inherited `curEdge` is kept |
| PathTravelers.PathNeverCleared | src/agents/PathTraveler.js:35-56 | no operation clears the path; `travelEdgePath` keeps it or replaces it with a non-empty list |
| PathTravelers.PathUpdateWaits | src/agents/PathTraveler.js:49-56 | in transit, before the hop is over, an update leaves the whole path state unchanged, cursor included |
| PathTravelers.PathUpdateCursor | src/agents/PathTraveler.js:52-53 | the cursor moves by one exactly when the traveler is idle after the base update and has a path |
| PathTravelers.ArrivalChainsNextHop | src/agents/PathTraveler.js:49-56 | the update that completes a hop starts the next one from the node arrived at, with no idle tick between them |
| PathTravelers.IdlePastTheEnd | src/agents/PathTraveler.js:42-56 | after the last hop, every idle update only moves the cursor further past the end |
| PathTravelers.HopStep | src/agents/PathTraveler.js:49-56 | one hop along a chain: the update that ends it starts the next or leaves the agent idle at the end |
| PathTravelers.RunChainFrom | src/agents/PathTraveler.js:49-56 | from hop k, paced updates bring the agent to the chain's last node with the cursor at the end |
| PathTravelers.FollowsChain | src/agents/PathTraveler.js:35-56 | sent along a connected chain and updated once per hop after a full travel time, the agent ends idle at the chain's last node |
| GraphQueries.NodeIndex | src/Graph.js:148 | where the search stops: the first node with the id, or the length |
| GraphQueries.FindNode | src/Graph.js:148 | a node with the id, `undefined` exactly when no node has it |
| GraphQueries.EdgeStop | src/Graph.js:155 | the scan stops at the first edge with the id or the first `null` |
| GraphQueries.FindEdge | src/Graph.js:155 | a found edge has the id; `undefined` exactly when every entry is an edge without that id; reaching a `null` first throws |
| GraphQueries.NodeIdIsPosition | src/Graph.js:148 | with pool numbering, the node with id k is at position k-1 |
| GraphQueries.EdgeIdIsPosition | src/Graph.js:155 | with pool numbering, the lookup throws exactly when a `null` comes first, and otherwise finds position id-1 |
| GraphQueries.NodeMap | src/Graph.js:21-24 | the keys are the dump ids, and each value is a created node |
| GraphQueries.NodeMapExtend | src/Graph.js:22-23 | each loop step adds one entry, the later dump overwriting |
| GraphQueries.NodeMapResolvesDumpIds | src/Graph.js:21-28 | endpoints resolve through the dump's own ids, to the node built for the last dump carrying that id |
| GraphQueries.MapResolverBuildsEdge | src/Graph.js:26-31 | through the node map, an edge is built exactly when both ends resolve by dump id; its ends are given nodes or map values |
| GraphQueries.EdgeLoadsThroughMap | src/Graph.js:30-32 | whatever id the pool assigns, an edge dump loads exactly when its type is known and the edge is built |
| GraphQueries.EndsComeFrom | src/Graph.js:101 | an edge's ends are nodes the dump gives or nodes the resolver can return |
| GraphQueries.KnownNodeIsRegistered | src/Graph.js:77-78 | `KnownNode` holds exactly when the node registry has the dump's type |
| GraphQueries.KnownEdgeIsRegistered | src/Graph.js:77-78 | `KnownEdge` holds exactly when the edge registry has the dump's type |
| GraphQueries.KnownAgentIsRegistered | src/Graph.js:77-78 | `KnownAgent` holds exactly when the agent registry has the dump's type |
| GraphQueries.OwnDumpLoads | src/Graph.js:168-174 | a graph's own dump, when it succeeds, is loadable |
| GraphQueries.FirstHitAsWritten | src/Graph.js:126-140 | the first node passing both tests as written, or the length |
| GraphQueries.FirstHit | src/Graph.js:126-140 | the first node passing both tests as intended, or the length |
| GraphQueries.PreciseTestNeverRejects | src/Graph.js:131-135 | inside the square, the XOR-based precise test never rejects |
| GraphQueries.AsWrittenPicksFirstInSquare | src/Graph.js:126-140 | as written, the query picks the first node whose bounding square holds the point |
| GraphQueries.CornerPointAcceptedAsWritten | src/Graph.js:134-135 | the node at (19, 19) and the point (0, 0): inside the square, outside the circle, yet accepted as written |
| GraphQueries.XorNineteen | src/Graph.js:134 | `19 ^ 21` is 6 |
| GraphQueries.XorSix | src/Graph.js:134 | `6 ^ 2` is 4 |
| GraphQueries.CircleInsideSquare | src/Graph.js:131 | the rough test never rejects a point inside the circle |
| GraphQueries.IntendedPicksFirstInCircle | src/Graph.js:126-140 | as intended, the query picks the first node whose circle holds the point |
| JsNumbers.XorOfSmall | src/Graph.js:134 | the 32-bit XOR of two numbers in (-65, 64) lies in [-64, 64) |
| JsNumbers.XorBitsNarrow | src/Graph.js:134 | XOR keeps the high bits uniform when both operands have them uniform |
| JsNumbers.ToInt32 | src/Graph.js:134 | the conversion `^` applies gives a signed 32-bit value |
| Graphs.Graph.Empty | src/Graph.js:12-19 | three fresh, distinct pools and three empty lists |
| Graphs.Graph.Create | src/Graph.js:11-39 | loading succeeds exactly when the dump is `Loadable`; it then yields one node per node dump, numbered 1..n in list order, and one edge per edge dump, numbered 1..m, with the ends resolved through the dump's own node ids |
| Graphs.Graph.AddNodes | src/Graph.js:21-24 | the node loop succeeds exactly when every type is known; it builds the nodes in order and returns `NodeMap` |
| Graphs.Graph.AddEdges | src/Graph.js:30-32 | the edge loop succeeds exactly when every edge dump loads; the edges are those built through the node map, numbered in order |
| Graphs.Graph.AddNode | src/Graph.js:75-93 | fails exactly for an unknown type, before an id is drawn; otherwise appends one fresh node with the pool's next id and changes no other list |
| Graphs.Graph.AddEdge | src/Graph.js:100-107 | an unknown type fails with nothing changed; otherwise the built edge or `null` is appended; `null` then fails; an edge is appended to the start's and then the end's list, so a loop appears twice |
| Graphs.Graph.AddAgent | src/Graph.js:114-118 | always fails; it draws an id exactly when the type is known |
| Graphs.Graph.GetNodeById | src/Graph.js:148 | in a valid graph, the node at position id-1, or `undefined` |
| Graphs.Graph.GetEdgeById | src/Graph.js:155 | in a valid graph with no `null`, the edge at position id-1, or `undefined` |
| Graphs.Graph.GetNodeByCoord | src/Graph.js:126-140 | the first node whose test passes as written; never a node outside its square; `null` exactly when the point is outside every square |
| Graphs.Graph.GetNodeByCoordCorrected | src/Graph.js:126-140 | with squaring, the first node whose circle holds the point; `null` exactly when the point is in no circle |
| Graphs.Graph.GetDump | src/Graph.js:168-174 | succeeds exactly when there are no edges and no agents, giving the node dumps in list order |
| Graphs.Reload | src/Graph.js:168-174 | a graph without edges reloads from its own dump with the same nodes, in order, with the same ids; one with edges cannot be dumped |

## Left out

- Rendering: `node.shape`, `Edge.shape`, the traveler's `_shape` object and its `_progress` cache. The only parts kept are the node radius 20 and the fact that a node's circle is anchored at the node.
- `console.warn` in `travel`: it is a side effect only. The condition for it is modelled (`CannotStart`).
- `Travelers.Traveler.constructor`: requires a positive travel time. With 0 the progress division yields Infinity or NaN, which the model does not represent.
- `PathTravelers.PathTraveler.constructor`: requires a positive travel time too, for the same reason, since it is the inherited `Traveler` constructor.
- Floating point: coordinates and lengths are `real`. Rounding is not modelled.
- The 32-bit XOR is modelled exactly, via ToInt32.
- `breathFirstSearch`: `edge.getOtherNode` is defined by neither `Edge.js` nor `BasicEdge.js`. `BasicEdge.js` imports `Edge` from the `src/edges` index, which is not part of this model.
  - The model supplies it as `GetOtherNode`, with the precondition that the id is an endpoint.
  - As the code stands, the call would throw a TypeError. That is not modelled.
- `breathFirstSearch`: the incidence lists are read through a ghost snapshot `adj`, which the search's precondition ties to the heap. Nothing changes them during the search.
- `Graph.getAgentById` is not modelled. It searches `_agents`, which stays empty because `addAgent` never succeeds, so the lookup always gives `undefined`.
- Agents: `addAgent` always fails (no agent class has `create`), so agent endpoint resolution is never reached.
- `Graph` getters return the live arrays. The model reads the fields directly.
- `_create` with an unknown type throws a ReferenceError (`superType` is undefined) rather than the intended Error. Both are `Failure`.
- Type maps: JavaScript objects also answer inherited keys such as "constructor". Type tags in the model are plain strings looked up in a Dafny map.
- `Graphs.Graph.Create`: does not state the nodes' incidence lists after loading. It states the node and edge lists, the numbering and the endpoints.
- Loading: the constructor is modelled as `Empty`, followed by `AddNodes`, `AddEdges` and `AddAgent`.
- `Graphs.Graph.Create`: the agent loop stops at the first agent. Since any agent makes loading fail, `AddAgent` is called on the first agent only.
- JavaScript coerces object keys to strings. Node ids are integers in the model, so `1` and `"1"` cannot collide.
- `Graph.js:38`: the graph's own resolver (`getNodeById`) is used by `addEdge` calls made after construction. It is `ResolverFor(None, nodes)`.
- `src/Engine.js`, the editor, the UI and randomness are not part of this model.

## Findings

| source | as written | input that shows it | evidently intended | confidence | as-written member | corrected member |
|---|---|---|---|---|---|---|
| src/nodes/BasicNode.js:69 | `if (index > 0)` guards the splice, so an edge found at index 0 is never removed | a node whose only edge is `e`, then `removeEdge(e.id)`: the list stays `[e]` | `index >= 0` ("if found"): the first edge with the id is removed wherever it is | not executed | Nodes.BasicNode.RemoveEdge, Nodes.RemoveOnlyEdge | Nodes.BasicNode.RemoveEdgeCorrected, Nodes.RemoveEdgeIntendedRemovesFirstMatch |
| src/Graph.js:134 | `Math.sqrt(dx^2 + dy^2)` is `(dx ^ (2 + dy)) ^ 2`, a bitwise XOR; inside the bounding square it never exceeds 63, so the precise test never rejects | node at (19, 19), click at (0, 0): `(19 ^ 21) ^ 2` is 4, so the node is returned although the point is 26.9 from the center, outside the radius 20 | `Math.sqrt(dx*dx + dy*dy)`, a Euclidean distance test | not executed | Graphs.Graph.GetNodeByCoord, GraphQueries.CornerPointAcceptedAsWritten, GraphQueries.PreciseTestNeverRejects | Graphs.Graph.GetNodeByCoordCorrected, GraphQueries.IntendedPicksFirstInCircle |
