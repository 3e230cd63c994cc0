# Dijkstra, explained — a verified model

This project models the computational core of *dijkstra-explained*, a web
page that animates Dijkstra's shortest-path search step by step, together
with the two editors in which the user changes the graph.

* `dijkstra-algorithm.ts`: the binary min-heap of `[vertexId, key]` pairs
  that serves as the fringe (class `MinHeap`), and `generateSteps`. The
  latter runs the search and records one immutable `Step` before the search
  and one after every vertex it takes off the fringe. The built-in graph it
  uses when it is called without one is part of the model.
* `components/edit-edges-popup.tsx`: the edge-list editor (`handleAddEdge`,
  `handleDeleteEdge`, `handleEdgeChange`) and the validator `handleSave`.
* `components/edit-graph.tsx`: adding and deleting vertices (`addNode`,
  `deleteNode`) and editing a weight in place as text that is committed
  through `parseInt` when the field loses focus (`handleEdgeValueChange`,
  `handleEdgeInputBlur`).

Modules, one per file:

| module | file | contents |
|---|---|---|
| `Types` | `types.dfy` | vertices, edges, fringe entries, Steps; `Dist` is an integer or `Infinity` |
| `Heap` | `min_heap.dfy` | the class `MinHeap` over a `seq` field, proved to keep heap order and its multiset of entries |
| `Paths` | `paths.dfy` | paths through the edge list, their weight, and what "shortest" means; the reference for the search |
| `Search` | `search.dfy` | the search's loop invariant and the lemmas that each step keeps it |
| `Dijkstra` | `dijkstra.dfy` | `generateSteps` as methods with loops, proved against `Paths` and `Search` |
| `DefaultGraph` | `default_graph.dfy` | the built-in graph and the exact distances and predecessors the search yields on it |
| `EditEdges` | `edit_edges.dfy` | the edge-list editor and its validator |
| `EditGraph` | `edit_graph.dfy` | `parseInt`, the in-place weight editor, adding and deleting vertices |

The main result is `Dijkstra.GenerateSteps`. Given a graph the editors can
produce (distinct vertex ids, edges between existing vertices, no negative
weight), it guarantees the following:

* The trace has one Step per vertex after the initial one.
* Each vertex is the current vertex of exactly one Step.
* Consecutive Steps differ only as the algorithm allows. The current vertex
  becomes processed, and exactly its outgoing edges become active.
* The current vertex had a smallest key in the previous Step's fringe, and
  its own distance does not change.
* No distance grows. Each distance that changes becomes the current
  vertex's distance plus the weight of an edge from it to that vertex.
  Afterwards no edge out of the current vertex offers a shorter distance.
* An `edgeTo` entry changes exactly when that vertex's distance shrinks,
  and always to the current vertex.
* Every fringe snapshot agrees with its Step's `distTo`. As a multiset it
  holds exactly one entry per vertex not processed by then, keyed by that
  Step's distance.
* In the last Step, `distTo` holds the shortest-path distances, with
  `Infinity` for unreachable vertices. Every `edgeTo` entry is the last hop
  of a shortest path, and `-1` (here `None`) marks exactly the start and the
  unreachable vertices.
* Every final `edgeTo` hop comes from a vertex processed before the hop's
  target. So walking `edgeTo` back from a reachable vertex ends at the
  start, along a path whose weight is the vertex's distance. The hops form
  a tree even when some weights are 0.

The heap's entries are proved to be the fringe the search should hold. On
the built-in graph from vertex 0, the distances are 0, 2, 1, 11, 5, 9, 10
and the predecessors are -1, 0, 0, 6, 1, 4, 4.

## Model

| member | source | states |
|---|---|---|
| `Heap.Parent` | dijkstra-algorithm.ts:10-12 | the parent slot lies before `i`, and `i` is its left or right child |
| `Heap.LeftChild` | dijkstra-algorithm.ts:14-16 | the left child lies after `i`, at an odd slot |
| `Heap.RightChild` | dijkstra-algorithm.ts:18-20 | the right child sits right after the left child, at an even slot |
| `Heap.ChildrenParent` | dijkstra-algorithm.ts:10-20 | both child slots of `i` lead back to `i` as their parent |
| `Heap.RootIsMin` | dijkstra-algorithm.ts:31-39 | in heap order the root holds a minimal key, which is why `extractMin` may return `heap[0]` |
| `Heap.MinHeap.constructor` | dijkstra-algorithm.ts:6-8 | a new heap is empty and trivially ordered |
| `Heap.MinHeap.Swap` | dijkstra-algorithm.ts:22-24 | exchanges two entries and keeps the multiset of entries |
| `Heap.MinHeap.Insert` | dijkstra-algorithm.ts:26-29 | keeps heap order and adds exactly the new entry to the multiset |
| `Heap.MinHeap.ExtractMin` | dijkstra-algorithm.ts:31-39 | on an empty heap returns `undefined` (None) and changes nothing; otherwise returns the old root, whose key is no larger than any entry's, removes exactly it and keeps heap order |
| `Heap.MinHeap.BubbleUp` | dijkstra-algorithm.ts:41-46 | from a heap ordered except that one entry may be smaller than its parent, restores heap order without changing the entries |
| `Heap.MinHeap.BubbleDown` | dijkstra-algorithm.ts:48-71 | from a heap ordered except that one entry may be larger than its children, restores heap order without changing the entries |
| `Heap.DownStep` | dijkstra-algorithm.ts:56-66 | swapping an entry with its smaller child, when that child is smaller, moves the one disorder down to the child |
| `Heap.DownDone` | dijkstra-algorithm.ts:64-69 | when neither child is smaller, the heap is fully ordered, so breaking out is right |
| `Heap.MinHeap.FindIndex` | dijkstra-algorithm.ts:74 | `findIndex`: the first position with the id, or -1 exactly when no entry has it |
| `Heap.MinHeap.UpdateKey` | dijkstra-algorithm.ts:73-79 | with no entry of that id nothing changes; otherwise the first such entry, which must not get a larger key, gets the new key and heap order is kept; later entries with the same id are untouched |
| `Heap.MinHeap.IsEmpty` | dijkstra-algorithm.ts:81-83 | true exactly when the heap has no entry |
| `Heap.MinHeap.Copy` | dijkstra-algorithm.ts:85-89 | a fresh heap with the same entries, sharing nothing with this one |
| `Heap.MinHeap.ToArray` | dijkstra-algorithm.ts:91-93 | the entries in heap order, as a value |
| `Types.Less` | dijkstra-algorithm.ts:167 | the `<` of the relaxation test on integers and `Infinity`; its order laws are `Types.LessOrder` |
| `Types.LessOrder` | dijkstra-algorithm.ts:167 | `<` is irreflexive, total and transitive, with every finite distance below `Infinity` |
| `Types.Add` | dijkstra-algorithm.ts:166 | `distTo.get(v) + e.weight`; its laws are `Types.AddMonotone` |
| `Types.AddMonotone` | dijkstra-algorithm.ts:166 | a sum is `Infinity` exactly when the distance is; adding a weight keeps the order of two distances; a weight that is not negative never lowers a distance |
| `Paths.PathExtend` | dijkstra-algorithm.ts:166 | a path to `e.from` followed by `e` is a path to `e.to` weighing `e.weight` more, which is what `distTo[v] + e.weight` stands for |
| `Paths.PotentialBound` | dijkstra-algorithm.ts:163-172 | if no edge lowers a potential by more than its weight, every path from `s` to `t` weighs at least `pot[t] - pot[s]`; this certifies the built-in graph's distances |
| `Search.FringeMember` | dijkstra-algorithm.ts:131-136 | every entry of the fringe the search should hold belongs to an unprocessed vertex and carries its distance |
| `Search.FringeHas` | dijkstra-algorithm.ts:131-136 | every unprocessed vertex has its entry in that fringe |
| `Search.FringeOnce` | dijkstra-algorithm.ts:131-136 | with distinct ids, each unprocessed vertex has exactly one entry |
| `Search.FringeSize` | dijkstra-algorithm.ts:131-136 | initially the fringe has one entry per vertex |
| `Search.FringeRemove` | dijkstra-algorithm.ts:148 | processing `v` removes exactly `v`'s entry |
| `Search.FringeUpdate` | dijkstra-algorithm.ts:168-170 | lowering `distTo[t]` replaces exactly `t`'s entry by one with the new key |
| `Search.DistinctIdsCount` | dijkstra-algorithm.ts:126-129 | a vertex list with distinct ids has as many ids as vertices, so the trace has one Step per vertex |
| `Search.Initial` | dijkstra-algorithm.ts:123-136 | the initial `distTo`/`edgeTo` satisfy the search invariant with nothing processed |
| `Search.CrossesFringe` | dijkstra-algorithm.ts:147-150 | any path from the start to an unprocessed vertex passes an unprocessed vertex whose distance is at most the path's weight |
| `Search.Settle` | dijkstra-algorithm.ts:147-150 | the vertex of minimal distance taken off the fringe has its final distance; processing it keeps the invariant |
| `Search.Improve` | dijkstra-algorithm.ts:166-169 | relaxing an edge that strictly shortens its target's distance keeps the invariant; the target is unprocessed and not the start |
| `Search.Finish` | dijkstra-algorithm.ts:183-185 | once every vertex is processed, with every `edgeTo` hop going back in processing order, `distTo`/`edgeTo` form a shortest-path tree: shortest distances, last hops of shortest paths, and `edgeTo` walks that reach the start along paths of those weights |
| `Search.EdgeToChain` | dijkstra-algorithm.ts:168-169 | walking `edgeTo` back from a reachable vertex gives a path from the start, made of `edgeTo` hops, that weighs the vertex's distance |
| `Search.CycleAvoidsStart` | dijkstra-algorithm.ts:169 | a set of vertices without the start whose `edgeTo` hops stay inside it cannot be entered from the start along `edgeTo` |
| `Search.TreeHasNoCycle` | dijkstra-algorithm.ts:169 | in a shortest-path tree, `edgeTo` hops that go round without reaching the start join only unreachable vertices |
| `Search.LinkedFromDone` | dijkstra-algorithm.ts:169 | an `edgeTo` hop always comes from a processed vertex |
| `Dijkstra.MarkProcessed` | dijkstra-algorithm.ts:152-155 | the next Step's vertices: `v` processed, every other flag and every other field copied |
| `Dijkstra.ActivateFrom` | dijkstra-algorithm.ts:157-160 | the next Step's edges: active exactly when leaving `v`, every other field copied |
| `Dijkstra.TraceAppend` | dijkstra-algorithm.ts:174-182 | appending a Step that follows the last one keeps the trace well formed |
| `Dijkstra.Extracted` | dijkstra-algorithm.ts:148-150 | the minimal entry belongs to an unprocessed vertex of minimal distance, and its key is that vertex's distance, so the stale-entry skip never fires |
| `Dijkstra.InitDistances` | dijkstra-algorithm.ts:124-129 | `distTo` is 0 at the start and `Infinity` elsewhere, and `edgeTo` is -1 (None) everywhere, both defined on exactly the vertex ids |
| `Dijkstra.InitFringe` | dijkstra-algorithm.ts:131-136 | the fresh fringe holds one entry per vertex with its initial distance, in heap order |
| `Dijkstra.RelaxEdgesFrom` | dijkstra-algorithm.ts:162-172 | after relaxing every edge out of `v`, all edges out of processed vertices are relaxed, the invariant holds, the fringe matches the new distances, `distTo`/`edgeTo` changed only as Progress allows, `v`'s own distance is unchanged and no processed vertex's distance exceeds it, and no processed vertex's `edgeTo` changed |
| `Dijkstra.LowerKey` | dijkstra-algorithm.ts:167-170 | `updateKey` turns the fringe for the old distance into the fringe for the lowered one |
| `Dijkstra.RelaxSkip` | dijkstra-algorithm.ts:164-167 | an edge that is filtered out or gives no improvement leaves it relaxed |
| `Dijkstra.FringeKeys` | dijkstra-algorithm.ts:170 | the target's entry is in the fringe and every entry of it has a key no smaller than the new one, as `updateKey` needs |
| `Dijkstra.FringeAfterUpdate` | dijkstra-algorithm.ts:170 | the heap after `updateKey` is the fringe for the lowered distance |
| `Dijkstra.ProgressStep` | dijkstra-algorithm.ts:168-169 | lowering a distance and setting `edgeTo` to `v` keeps Progress |
| `Dijkstra.KeptStep` | dijkstra-algorithm.ts:169 | setting the `edgeTo` of an unprocessed vertex keeps every processed vertex's entry |
| `Dijkstra.TakeMin` | dijkstra-algorithm.ts:148 | removes the entry of an unprocessed vertex of minimal distance whose key is its current distance; the heap shrinks by one and holds the fringe with that vertex processed |
| `Dijkstra.Start` | dijkstra-algorithm.ts:123-145 | the first Step has no current vertex, the graph as given, distance 0 at the start and `Infinity` elsewhere, no predecessors, and one fringe entry per vertex; the invariant holds |
| `Dijkstra.Visit` | dijkstra-algorithm.ts:150-182 | processing the extracted vertex keeps the invariant with it processed and records a Step that follows the previous one (the vertex had a smallest key in the previous fringe, and each changed distance is its distance plus an edge weight), whose fringe holds one entry per unprocessed vertex; no processed vertex's `edgeTo` changes |
| `Dijkstra.MinInFringe` | dijkstra-algorithm.ts:148 | the extracted vertex has an entry in the previous Step's fringe and no fringe entry has a smaller key |
| `Dijkstra.ChangedByEdge` | dijkstra-algorithm.ts:163-172 | every distance the relaxation changes equals the current vertex's distance plus the weight of an edge from it to that vertex |
| `Dijkstra.RelaxedOut` | dijkstra-algorithm.ts:163-172 | after the relaxation no edge out of the current vertex offers a shorter distance to its target |
| `Dijkstra.LastFringe` | dijkstra-algorithm.ts:174-182 | the last recorded fringe holds one entry per unprocessed vertex, keyed by its distance |
| `Dijkstra.Round` | dijkstra-algorithm.ts:148-182 | one round of the loop shrinks the fringe, keeps the invariant and extends the record; the stale-entry skip never fires |
| `Dijkstra.Explore` | dijkstra-algorithm.ts:147-183 | the loop ends with every vertex processed once, in the order recorded by the trace, each recorded fringe holding the unprocessed vertices, every `edgeTo` hop going back in processing order, and the last Step holding the final maps |
| `Dijkstra.RecordVisit` | dijkstra-algorithm.ts:174-182 | recording the Step of a visit keeps the trace, its fringes, the processing order and its ranks |
| `Dijkstra.ElemsOf` | dijkstra-algorithm.ts:147-183 | the processing order lists exactly the processed vertices |
| `Dijkstra.FringesAppend` | dijkstra-algorithm.ts:176 | a new Step whose fringe holds the vertices not yet processed keeps that true of every recorded Step |
| `Dijkstra.RankAppend` | dijkstra-algorithm.ts:169 | the vertex processed next gets the next rank, and every `edgeTo` hop still comes from a vertex of smaller rank |
| `Dijkstra.VisitedIsOrder` | dijkstra-algorithm.ts:174-182 | each Step's fringe holds one entry per vertex that is not the current vertex of any earlier Step |
| `Dijkstra.HopsBackward` | dijkstra-algorithm.ts:169 | in the finished trace the vertex an `edgeTo` hop comes from is the current vertex of an earlier Step than the hop's target |
| `Dijkstra.AllDone` | dijkstra-algorithm.ts:147 | an empty fringe means every vertex is processed |
| `Dijkstra.TraceComplete` | dijkstra-algorithm.ts:147-185 | a finished trace has one Step per vertex after the first, each vertex current in exactly one |
| `Dijkstra.GenerateSteps` | dijkstra-algorithm.ts:96-186 | the trace described above: initial Step, one Step per vertex, consecutive Steps related by NextStep (a smallest-key vertex taken, each changed distance set through an edge from it, its out-edges relaxed), each fringe holding the unprocessed vertices, `edgeTo` hops from earlier Steps' vertices, and a shortest-path tree in the last Step |
| `DefaultGraph.VerticesOr` | dijkstra-algorithm.ts:98 | `customVertices || [...]`: the given list, or the built-in one when none is given |
| `DefaultGraph.EdgesOr` | dijkstra-algorithm.ts:108 | `customEdges || [...]`: the given list, or the built-in one when none is given |
| `DefaultGraph.DefaultVertices` | dijkstra-algorithm.ts:98-106 | seven vertices with ids 0 to 6, none processed |
| `DefaultGraph.DefaultEdges` | dijkstra-algorithm.ts:108-121 | twelve edges between those vertices, all with positive weight |
| `DefaultGraph.DefaultIds` | dijkstra-algorithm.ts:98-106 | the built-in ids are exactly 0 to 6 |
| `DefaultGraph.DefaultGraphOk` | dijkstra-algorithm.ts:98-121 | the built-in graph is one the search accepts |
| `DefaultGraph.PotentialOk` | dijkstra-algorithm.ts:108-121 | no built-in edge lowers the expected distances by more than its weight |
| `DefaultGraph.PotentialExact` | dijkstra-algorithm.ts:108-121 | a path meeting such a bound gives the shortest distance exactly |
| `DefaultGraph.Hop` | dijkstra-algorithm.ts:108-121 | following one built-in edge extends a path from 0 |
| `DefaultGraph.PathTo4` | dijkstra-algorithm.ts:109-112 | the path 0, 1, 4 weighs 5 |
| `DefaultGraph.PathTo6` | dijkstra-algorithm.ts:109-118 | the path 0, 1, 4, 6 weighs 10 |
| `DefaultGraph.ShortestPath` | dijkstra-algorithm.ts:108-121 | every built-in vertex has a path from 0 of its expected weight |
| `DefaultGraph.DistanceOf` | dijkstra-algorithm.ts:108-121 | the shortest distance from 0 to a built-in vertex is its expected one |
| `DefaultGraph.DefaultDistances` | dijkstra-algorithm.ts:108-121 | shortest distances from 0 are 0, 2, 1, 11, 5, 9, 10, all finite |
| `DefaultGraph.DistEq` | dijkstra-algorithm.ts:108-121 | a distance map agreeing with the expected values on ids 0 to 6 is the expected map |
| `DefaultGraph.OnlyLastHop` | dijkstra-algorithm.ts:108-121 | each built-in vertex other than 0 has exactly one edge that ends a shortest path, from the expected predecessor |
| `DefaultGraph.ExpectedFinite` | dijkstra-algorithm.ts:108-121 | every expected distance is finite |
| `DefaultGraph.PredOf` | dijkstra-algorithm.ts:108-121 | a predecessor backed by a shortest-path edge is the expected one |
| `DefaultGraph.DefaultPreds` | dijkstra-algorithm.ts:108-121 | predecessors backed by shortest-path edges are -1, 0, 0, 6, 1, 4, 4 |
| `DefaultGraph.PredEq` | dijkstra-algorithm.ts:108-121 | a predecessor map agreeing with the expected values is the expected map |
| `DefaultGraph.DefaultTree` | dijkstra-algorithm.ts:108-121 | the built-in graph has exactly one shortest-path tree from 0 |
| `DefaultGraph.GenerateStepsOr` | dijkstra-algorithm.ts:96-121 | `generateSteps` with the built-in lists standing in for missing arguments; on the built-in graph from 0 it returns 8 Steps whose last holds the expected distances and predecessors |
| `EditEdges.NewEdge` | components/edit-edges-popup.tsx:36 | the added edge joins two existing vertices with a non-negative weight, and is no self-loop when ids are distinct |
| `EditEdges.HandleAddEdge` | components/edit-edges-popup.tsx:31-37 | with fewer than two vertices only the error changes; otherwise the list gains one edge from the first vertex to the second, weight 1, inactive, with no pending text |
| `EditEdges.WithoutIndex` | components/edit-edges-popup.tsx:40 | the list without the entry at `index`, or unchanged when `index` is out of range |
| `EditEdges.HandleDeleteEdge` | components/edit-edges-popup.tsx:39-41 | removes exactly the entry at `index`, keeps the order of the others, and leaves the error alone |
| `EditEdges.SetField` | components/edit-edges-popup.tsx:51 | `{ ...edge, [field]: value }`: the set field reads back as the value, and every other field is untouched |
| `EditEdges.HandleEdgeChange` | components/edit-edges-popup.tsx:43-54 | a negative weight is refused with an error and the list kept; any other change clears the error and rewrites only the named field of the indexed edge |
| `EditEdges.Problem` | components/edit-edges-popup.tsx:58-71 | an edge passes exactly when it is no self-loop, its weight is not negative and no earlier edge has its ordered pair; a failure names the edge's endpoints |
| `EditEdges.ValidIffNoProblem` | components/edit-edges-popup.tsx:56-76 | a list is valid (no self-loop, no negative weight, no repeated ordered pair) exactly when no edge fails the per-edge check against the edges before it |
| `EditEdges.FirstProblem` | components/edit-edges-popup.tsx:58-71 | an edge that fails after a valid prefix makes the list invalid |
| `EditEdges.HandleSave` | components/edit-edges-popup.tsx:56-76 | hands the list on exactly when it is valid, with the error cleared; otherwise keeps the list and shows the error of the first failing edge |
| `EditEdges.AddThenDelete` | components/edit-edges-popup.tsx:31-41 | deleting the edge just added restores the list |
| `EditEdges.AddCanDuplicate` | components/edit-edges-popup.tsx:67-71 | adding never checks for duplicates, so it can produce a list that saving refuses |
| `EditEdges.ReverseAllowed` | components/edit-edges-popup.tsx:67-72 | an edge and its reverse may both be saved: duplicates are ordered pairs |
| `EditEdges.DeleteKeepsValid` | components/edit-edges-popup.tsx:39-41 | deleting keeps a valid list valid |
| `EditEdges.WeightChangeKeepsValid` | components/edit-edges-popup.tsx:43-54 | changing a weight to an accepted value keeps a valid list valid |
| `EditEdges.SavedGraphOk` | components/edit-edges-popup.tsx:56-76 | a saved list whose endpoints are vertices is a graph the search accepts |
| `EditGraph.TrimStart` | components/edit-graph.tsx:104 | `parseInt`'s skipping of leading white space: a suffix, everything dropped is white space, and it does not start with white space |
| `EditGraph.DigitRun` | components/edit-graph.tsx:104 | the length of the longest run of leading decimal digits |
| `EditGraph.ParseInt` | components/edit-graph.tsx:104 | a number needs a digit first or right after a sign, and only a minus sign gives a negative number; read-back laws are `EditGraph.ParseShow`, `EditGraph.ParseUnsigned`, `EditGraph.ParseSigned`, `EditGraph.ParsePlus` and `EditGraph.ParseNegative` |
| `EditGraph.ShowNat` | components/edit-graph.tsx:104 | the decimal text of a number is a non-empty run of digits |
| `EditGraph.ValueOfShow` | components/edit-graph.tsx:104 | the digits of the decimal text of `n` have the value `n` |
| `EditGraph.RunOfDigits` | components/edit-graph.tsx:104 | the digit run ends where the digits end |
| `EditGraph.TrimSpaces` | components/edit-graph.tsx:104 | leading white space is skipped and nothing more |
| `EditGraph.ParseShow` | components/edit-graph.tsx:104 | `parseInt` reads back the decimal text of `n`, whatever white space precedes it and whatever non-digit text follows it |
| `EditGraph.ParseUnsigned` | components/edit-graph.tsx:104 | text whose first non-space character is a digit parses to the value of its leading digits |
| `EditGraph.ParseSigned` | components/edit-graph.tsx:104 | a `+` or `-` followed by a digit parses to the value of the digits after it, negated only for `-` |
| `EditGraph.ParsePlus` | components/edit-graph.tsx:104 | a plus sign before the decimal text of `n` reads back as `n` |
| `EditGraph.ParseNegative` | components/edit-graph.tsx:104 | a leading minus sign makes the value negative, so the editor refuses it |
| `EditGraph.PendingText` | components/edit-graph.tsx:104 | `edge.tempWeight || ''`: the pending text, and without one a text that does not parse |
| `EditGraph.BlurredWeight` | components/edit-graph.tsx:104-107 | the pending text's value when it parses to a non-negative integer; otherwise the old weight; a weight that was not negative stays so |
| `EditGraph.HandleEdgeValueChange` | components/edit-graph.tsx:92-98 | records the text as pending on the edges with that key and changes nothing else |
| `EditGraph.HandleEdgeInputBlur` | components/edit-graph.tsx:100-115 | on the edges with that key clears the pending text and sets the weight to the parsed text when that is a non-negative integer, otherwise keeps it; every other field and edge is unchanged |
| `EditGraph.TypeThenBlur` | components/edit-graph.tsx:92-115 | typing the decimal text of `n`, after any white space and before any text not starting with a digit, and leaving the field sets exactly the keyed edges' weight to `n` |
| `EditGraph.BlurShow` | components/edit-graph.tsx:104-107 | an edge whose pending text is such a text for `n` gets weight `n` |
| `EditGraph.BadTextKeepsWeight` | components/edit-graph.tsx:104-107 | text that is not a non-negative integer leaves every weight unchanged |
| `EditGraph.EdgeEditsKeepGraphOk` | components/edit-graph.tsx:92-115 | editing weights in place keeps a graph the search accepts |
| `EditGraph.RangeInSet` | components/edit-graph.tsx:124-128 | if ids 0 to n-1 are all used, at least n ids are used, so the search for a free id ends |
| `EditGraph.AddNode` | components/edit-graph.tsx:123-137 | appends one vertex whose id is the smallest non-negative id not in use, with distance `Infinity` and not processed; everything else is kept |
| `EditGraph.AddKeepsGraphOk` | components/edit-graph.tsx:123-137 | the new vertex keeps ids distinct and adds exactly its id |
| `EditGraph.IdsAppend` | components/edit-graph.tsx:136 | appending a vertex adds exactly its id |
| `EditGraph.WithoutVertex` | components/edit-graph.tsx:144 | the vertices kept are exactly those with another id |
| `EditGraph.WithoutIncident` | components/edit-graph.tsx:145 | the edges kept are exactly those not touching the id |
| `EditGraph.WithoutVertexAppend` | components/edit-graph.tsx:144 | the filter works part by part, so the kept vertices stay in order |
| `EditGraph.WithoutIncidentAppend` | components/edit-graph.tsx:145 | the filter works part by part, so the kept edges stay in order |
| `EditGraph.InOrderSnoc` | components/edit-graph.tsx:144-145 | appending an entry keeps an in-order selection, whether the entry is kept or dropped |
| `EditGraph.WithoutVertexCount` | components/edit-graph.tsx:144 | each vertex with another id is kept as many times as it occurs |
| `EditGraph.WithoutIncidentCount` | components/edit-graph.tsx:145 | each edge not touching the id is kept as many times as it occurs |
| `EditGraph.WithoutVertexInOrder` | components/edit-graph.tsx:144 | the kept vertices appear in their original order |
| `EditGraph.WithoutIncidentInOrder` | components/edit-graph.tsx:145 | the kept edges appear in their original order |
| `EditGraph.DeleteNode` | components/edit-graph.tsx:139-146 | refuses the start vertex and changes nothing; otherwise drops exactly that vertex and every edge touching it, keeping every other entry as many times as it occurs and in its original order |
| `EditGraph.DeleteKeepsGraphOk` | components/edit-graph.tsx:139-146 | deleting keeps a graph the search accepts, keeps the start vertex, and removes the deleted id |
| `EditGraph.WithoutVertexDistinct` | components/edit-graph.tsx:144 | filtering vertices keeps ids distinct |

## Left out

- Numbers are modelled as unbounded integers plus `Infinity` (`Dist`). JavaScript doubles, fractional weights, `NaN`, `-0` and the loss of precision above 2^53 are not modelled.
- Screen positions are opaque `real` fields. `addNode` places a vertex at random, so the position is a parameter of `EditGraph.AddNode`.
- React state, rendering and `alert` are left out. Each handler maps the old editor state to the new one. Error messages are an `EdgeError` datatype, not text.
- The edge key `` `${from}-${to}` `` is modelled as the pair `(from, to)`. For integer ids the two identify the same edges.
- The optional arguments of `generateSteps` are `Option` values. `startNode`'s default of 0 is an argument.
- Dijkstra.GenerateSteps: requires distinct vertex ids, edge endpoints that are vertices, and no negative weight. The source does not check these. The editors produce such graphs (`EditEdges.SavedGraphOk`, `EditGraph.AddKeepsGraphOk`, `EditGraph.DeleteKeepsGraphOk`, `EditGraph.EdgeEditsKeepGraphOk`), except that the edge-list editor does not check that endpoints exist.
- Heap.MinHeap.ToArray: returns the entries as a value. In the source the copy is shallow: its `[id, key]` pairs are the heap's own, and `updateKey` writes such a pair in place. The model does not capture that sharing. The search only calls it on a fresh `copy()`, so no recorded fringe is affected.
- Heap.MinHeap.UpdateKey: requires the new key to be no larger than the key of the first entry with that id. Raising a key would break heap order, and `bubbleUp` never restores it. The search's only call lowers the key.
- Dijkstra.GenerateSteps: states each fringe snapshot as a multiset, not the order of its entries. That order is the heap's internal layout.
- The source does not check the start id. A start id that is no vertex's gives every vertex `Infinity`, and the model states that too.
- On the built-in graph the code gives vertex 3 the distance 11 (0, 1, 4, 6, 3). The model follows the code.
- EditGraph.ParseInt: models `parseInt(s, 10)` on decimal integers only: white space, a sign, then digits. Hexadecimal prefixes do not apply to radix 10. Results beyond 2^53 are not rounded.
- Dragging, mouse handlers, `handleEdgeClick`, `handleEdgeInputKeyPress` (which only calls `handleEdgeInputBlur`), `handleStartNodeChange`, `handleSaveEdges`, the visualisation and the code listing are not part of this model. They are user-interface plumbing with no logic of their own.
