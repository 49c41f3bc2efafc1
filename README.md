# Hamiltonian path search and k-spanning rewrites, in Dafny

This project models the `Graph` class of `graph.cpp`. The class holds two
pieces of state:

- an adjacency map from a vertex id to its ordered neighbour list;
- a separately declared `vertexCount`.

It offers these operations:

- `addEdge` stores a pair of half-edges; `addEdgeOnce` stores one half-edge.
  Neither removes duplicates, so the graph is a multigraph.
- `findHamiltonianPath` runs an exhaustive backtracking search from every key.
  The search keeps a shared `path` vector and `visited` set.
- `transformToKSpanningTree(k)` gives every vertex `v` in `1..vertexCount`
  `k-2` fresh pendant ids, `n + v*(k-2) + i`.
- `convertToTwoSpanningTree` copies every stored entry `u -> w` whose two
  endpoints both have stored degree above 1.

The model is imperative where the C++ is imperative:

- `Graph` is a class with fields `adj: map<int, seq<int>>` and `vertexCount`.
- The search's shared `path` and `visited` live in a class `SearchState`.
  `HamiltonianPathUtil` changes them in place and undoes its changes on
  backtrack.
- The transform and the strip are the source's nested loops over a copied or
  fresh `Graph`.

Each method is proved against specification functions:

- `HamiltonianPath` and `CanComplete` for the search;
- `IsTransformOf`, which states the expected lists pointwise, for the transform;
- `Stripped`, the kept sub-list of every key, for the strip.

The lemmas then prove what the source promises about those functions. That
includes the transform-then-strip round trip for graphs built by `addEdge`.

Files:

- `adjacency.dfy` (module `Adjacency`): the map and its lookups; `push_back`
  as `Append`; the `Undirected` invariant that `addEdge` keeps.
- `hamiltonian.dfy` (module `Hamiltonian`): simple linked paths, completion of
  a prefix, and the soundness and completeness lemmas of the backtracking.
- `spanning.dfy` (module `Spanning`): fresh-id arithmetic, the transform and
  strip specifications, their lemmas, and the round trip.
- `graph.dfy` (module `Graphs`): the classes `Graph` and `SearchState` and
  their methods.

The unordered map has no fixed iteration order, so every loop over its keys
takes a parameter `order`. This is any sequence that lists each key exactly
once, and every contract holds for all of them.

The comments at graph.cpp:67 and graph.cpp:87 name the intent: the
transform turns a graph with a Hamiltonian path (a 2-spanning tree) into a
k-spanning one, and the strip turns it back. Where the code does something
narrower, the model follows the code:

- The graph is a multigraph, not a simple graph.
- A fresh id is only guaranteed to be above `n`. It is disjoint from the
  original ids only when those are all at most `n`, so
  `Spanning.TransformShape` states the plain list `[v]` only under that
  hypothesis.
- With `k = 2` the strip is not the inverse of the transform; it still drops
  degree-1 vertices. So the round trip is stated for `k >= 3`.

## Model

| member | source | states |
|---|---|---|
| Adjacency.Append | graph.cpp:16 | one `push_back(w)` on `u`'s list: `u` becomes a key, its list gains `w` at the end, every other list and key is as before |
| Adjacency.EmptyIsUndirected | graph.cpp:13 | a freshly constructed graph (empty map) satisfies the addEdge-only invariant |
| Adjacency.AddEdgeKeepsUndirected | graph.cpp:15-18 | after `addEdge(u, v)` on an undirected graph, `w` occurs in `x`'s list as often as `x` in `w`'s, and every key still has a non-empty list |
| Adjacency.NeighbourIsKey | graph.cpp:15-18 | in a graph built by `addEdge`, every stored neighbour is a key whose list holds the vertex back |
| Graphs.SearchState.constructor | graph.cpp:26-27 | the search starts with an empty `path` and an empty `visited` set, which satisfy the search invariant |
| Graphs.SearchState.Valid | graph.cpp:43-44 | the search invariant: `visited` is the set of entries of `path`, none repeated, so it has exactly as many elements as `path` has entries |
| Graphs.Graph.Degrees | graph.cpp:90-95 | after the degree loop, reading the degree map at any id gives that id's stored degree (0 for an id that is not a key), whatever the key order |
| Graphs.Graph.constructor | graph.cpp:13 | the graph starts with no keys and the given vertex count |
| Graphs.Graph.Copy | graph.cpp:73 | the copy has the same adjacency map and vertex count as the original |
| Graphs.Graph.AddEdge | graph.cpp:15-18 | the new map is the old one with `v` appended to `u`'s list and then `u` to `v`'s list; the vertex count is unchanged |
| Graphs.Graph.AddEdgeOnce | graph.cpp:19-22 | the new map is the old one with only `v` appended to `u`'s list; the vertex count is unchanged |
| Graphs.Graph.SetVertexCount | graph.cpp:121-123 | the vertex count becomes `count` and the map is unchanged |
| Graphs.Graph.FindHamiltonianPath | graph.cpp:25-39 | a non-empty result has exactly `vertexCount` distinct entries, each after the first in its predecessor's list, and starts at a key; the result is empty exactly when no key starts such a path; a non-positive count always gives empty |
| Graphs.Graph.HamiltonianPathUtil | graph.cpp:42-64 | returns true exactly when the entry path plus `v` extends to a Hamiltonian path, and then leaves one in `path`; on false, `path` and `visited` are as on entry; `visited` is always the set of the distinct entries of `path` |
| Hamiltonian.ExtendPath | graph.cpp:43-44 | pushing an unvisited entry of the last vertex's list keeps the path simple and linked, and adds exactly that vertex to the visited set |
| Hamiltonian.RevisitCannotComplete | graph.cpp:53 | skipping a visited neighbour loses nothing: a prefix that repeats a vertex never completes |
| Hamiltonian.NextOnPath | graph.cpp:52-58 | any Hamiltonian path through a shorter prefix continues it with some entry of the last vertex's list |
| Hamiltonian.DeadEnd | graph.cpp:52-63 | when no entry of the last vertex's list leads to a completion, the prefix cannot be completed at all, so backtracking is complete |
| Hamiltonian.PopRestores | graph.cpp:61-62 | popping the vertex just pushed restores the path and the visited set |
| Hamiltonian.LongerPrefixCompletes | graph.cpp:54-55 | success of a deeper call is success of the caller's prefix |
| Hamiltonian.PathCompletesPrefix | graph.cpp:47-48 | a path of the right length completes each of its prefixes, so returning true at the length check is right |
| Hamiltonian.NoCompletionWithoutVertices | graph.cpp:47 | with `vertexCount <= 0` no non-empty prefix completes, because the length check never matches |
| Spanning.FreshIdValue | graph.cpp:79 | the recursive fresh id equals `n + v*(k-2) + i` |
| Spanning.FreshIdDecodes | graph.cpp:79 | a fresh id determines its vertex and its slot, and is at least `n + v` |
| Spanning.BlockEncodes | graph.cpp:79 | every id at or above `n` is the fresh id of its owner at its slot |
| Spanning.FreshIdsDistinct | graph.cpp:77-81 | for `k > 2` the fresh ids of different (vertex, slot) pairs are different, and all lie above `n` |
| Spanning.NothingAtStart | graph.cpp:73-77 | before the first iteration nothing has been attached to any id |
| Spanning.BuiltStep | graph.cpp:78-80 | each inner iteration is one `addEdge(v, id)` with its slot's fresh id |
| Spanning.BuiltNextVertex | graph.cpp:77-78 | each vertex's inner loop starts from the state the previous vertex's loop ended in |
| Spanning.StepAt | graph.cpp:79-80 | one `addEdge(v, id)` attaches `id` to `v` and `v` to `id`, and nothing else |
| Spanning.NextVertexAt | graph.cpp:77-78 | the end of one vertex's inner loop and the start of the next vertex's record the same attachments |
| Spanning.BuiltAt | graph.cpp:77-82 | at every point of the nested loops, each id's list is its original list followed by the entries attached so far, and it is a key exactly when it was one or something is attached |
| Spanning.AllAttached | graph.cpp:77 | once the outer loop passes `n`, what has been attached is the final attachment of every id |
| Spanning.BuiltIsTransform | graph.cpp:77-84 | the loops' final state is the transform: every list is the original followed by its attached entries |
| Graphs.Graph.TransformToKSpanningTree | graph.cpp:68-85 | `k < 2` gives the `invalid_argument` result; the receiver is never modified; otherwise the result is a fresh graph with the same vertex count that is the transform of the receiver |
| Spanning.TransformAtTwo | graph.cpp:78 | with `k = 2` the transform equals the input |
| Spanning.TransformShape | graph.cpp:77-81 | vertex `v` in `1..n` keeps its list and then has its `k-2` fresh ids in slot order; each fresh id lies above `n`, is a key, gains `v` at the end of its list, and has the single neighbour `v` when the original ids are at most `n` |
| Spanning.FreshIdsAreLeaves | graph.cpp:79-80 | when the original ids are at most `n`, each fresh id ends with stored degree 1 |
| Spanning.KeptStep | graph.cpp:99-103 | one inner iteration of the strip copies `s[j]` exactly when both stored degrees exceed 1 |
| Spanning.StrippedAlongFresh | graph.cpp:98 | the key about to be copied has nothing in the result yet |
| Spanning.StrippedAlongStep | graph.cpp:98-104 | finishing one key's list extends the result by that key's kept entries |
| Spanning.StrippedAlongIsStripped | graph.cpp:98-104 | copying every key once, in any iteration order, gives the same result |
| Graphs.Graph.ConvertToTwoSpanningTree | graph.cpp:88-107 | the result is a fresh graph with vertex count 0 and the strip of the receiver, whatever the key order; the receiver is unchanged |
| Spanning.StrippedLookup | graph.cpp:98-104 | key `u`'s list in the result is the entries of `u`'s list, in order, whose stored degree exceeds 1, if `u`'s own degree exceeds 1; `u` is a key exactly when that list is non-empty |
| Spanning.HighDegreeCount | graph.cpp:100 | the filter keeps each entry of degree above 1 as often as it occurs, and no other entry |
| Spanning.StrippedContents | graph.cpp:93-104 | every key of the result has degree above 1; `w` occurs in `u`'s result list as often as in `u`'s input list when both degrees exceed 1, else never; vertices of degree at most 1 appear nowhere |
| Spanning.KeptOfTransformed | graph.cpp:73-104 | for an addEdge-built graph on ids in `1..n` with `k >= 3`, the strip keeps exactly an original key's own list from its transformed list |
| Spanning.RoundTripKeepsKey | graph.cpp:73-104 | after transform and strip, each original key is present with its original list |
| Spanning.RoundTripDropsAdded | graph.cpp:73-104 | after transform and strip, no key the transform added survives |
| Spanning.RoundTrip | graph.cpp:67-106 | for a graph built only by `addEdge`, with all ids in `1..vertexCount` and `k >= 3`, stripping the transform gives back exactly the original map, every list in its original order |

## Left out

- `printGraph` and `main`: console output, console input and the exit status are I/O and are not modelled.
- The iteration order of `unordered_map` and `unordered_set` is not modelled. Loops over keys take any duplicate-free order as a parameter, and `visited` is a mathematical set.
- The `invalid_argument` exception is modelled as the `InvalidArgument` case of a `Result`.
- 32-bit `int` overflow in `n + v*(k-2) + i` is not modelled: ids are unbounded integers.
- The comparison of `path.size()` with a signed `vertexCount` is modelled as an integer comparison. For a negative count this never matches, as in the source.
- Graphs.Graph.HamiltonianPathUtil: `adjacencyList[v]` is modelled as a lookup that yields the empty list. The source may insert an empty entry for a vertex without a list, which can only happen after `addEdgeOnce`. That insertion, and its effect on the outer loop's iterator, are not modelled.
- Graphs.Graph.Degrees: does not state that the degree map's keys are exactly the graph's keys. The strip reads the map only through `DegreeAt`, whose values the contract gives for every id, and the key-set fact in scope makes the strip's proof too expensive.
- Graphs.Graph.ConvertToTwoSpanningTree: `degreeMap[neighbor]` is modelled as a lookup that yields 0. The source default-inserts that 0 into the degree map, which is local to the call.
- The search's `path` and `visited`, passed by reference in the source, are fields of one `SearchState` object.
