# Dijkstra graph editor — verified model

`AlgoritmoDijkstra` is an interactive editor for undirected weighted graphs with a
shortest-path solver. A left click on empty space adds a node labelled `'A' + index`.
A left click on a node anchors it, and the next left click on another node joins the two
with an edge. Right clicks choose the origin and then the destination. Enter runs
Dijkstra's algorithm, and the path found is drawn in red.

This project models the non-drawing core of `Application.cpp` in Dafny:

- `Graph` holds the graph store:
  - the `Nodo` record and the edge list `aristas`;
  - labels, kept as 8-bit `char` codes;
  - the adjacency list that the edge list gives each node (`Incident`);
  - walks through the adjacency lists and their weight.
- `ShortestPath` is `dijkstra` as the source writes it:
  - `dist` and `prev` are value vectors;
  - the priority queue is a sequence of `(distance, node)` entries, with `top()` as the lexicographically least entry;
  - stale entries are never skipped;
  - the loop stops early when the destination is popped;
  - the path is rebuilt by `push_back` along `prev`, then `std::reverse`.

  The search loop is proved to end even with zero-weight edges. The path it returns is proved to be a walk of least total weight whenever the destination is reachable.
- `HitTest` holds the two node searches of the mouse handler. The first is a running minimum below the radius 0.05. The second takes the first node inside the radius. The distances they search are inputs.
- `PathHighlight` is the on-path test of `dibujarAristas`.
- `Editor` has the class `EditorState` holding the globals `nodos`, `aristas`, `nodoIndices`, `caminoMasCorto` and the three selection slots, with `mouse_callback` and `key_callback` as methods.
  - A slot that is `-1` in the source is `None` here.
  - The class invariant `Valid` says:
    - node `i` carries label `Label(i)`;
    - every edge joins two different existing nodes;
    - every adjacency list is exactly what the edge list gives, so adjacency is symmetric;
    - the label index is kept;
    - every slot and every path entry names an existing node.

A left press runs two near-duplicate blocks, one after the other, and both are modelled:

- The first block (lines 161-210) searches in fixed-window coordinates for the nearest node. On a hit, a left press anchors or connects with the unscaled weight, and a right press sets an endpoint.
- The second block (lines 212-246) searches in framebuffer coordinates for the first node inside the radius. A miss adds a node; a hit anchors or connects again, with the weight scaled by 800.

`MouseCallback` states the combined effect. When both searches find the same node, the second block adds no edge.

Where the code does something other than its own `camino.empty()` check or a textbook Dijkstra suggests, the model follows the code:

- `dijkstra` never returns an empty path. For an unreachable destination it returns `[destino]`, because `prev[destino]` stays -1. So the "no path" message of `key_callback` is never printed for in-range endpoints.
- Stale queue entries are re-expanded rather than skipped. This is harmless, because relaxing from a stale entry uses the current, smaller `dist[u]`.
- Enter runs the solver even when the origin and the destination are the same node. The result is then `[destino]`.
- Labels wrap after 256 nodes, since `'A' + nodos.size()` is stored in a `char`. From then on, `nodoIndices` maps a label to the latest node carrying it.

## Model

| member | source | states |
|---|---|---|
| Graph.Label | AlgoritmoDijkstra/src/Application.cpp:224 | the label stored in the `char`: the code in 0..255 congruent to `'A' + i` modulo 256, equal to `'A' + i` itself for the first 191 nodes |
| Graph.Incident | AlgoritmoDijkstra/src/Application.cpp:191-192 | the list a node gets from the edge list: each edge (a, b, w) puts (b, w) on a's list and (a, w) on b's, in edge order, so the list is never longer than `aristas` |
| Graph.MinWeight | AlgoritmoDijkstra/src/Application.cpp:14 | the least weight among a node's adjacency entries to `v`: None exactly when no entry leads to `v`, otherwise an existing entry's weight no greater than any other entry to `v` |
| Graph.LabelInjective | AlgoritmoDijkstra/src/Application.cpp:224 | labels `'A' + i` truncated to a `char` differ for any two nodes created fewer than 256 apart |
| Graph.IncidentSymmetric | AlgoritmoDijkstra/src/Application.cpp:191-193 | adjacency built by pushing each edge onto both endpoints is symmetric with multiplicity: `v` appears in `u`'s list with weight `w` as often as `u` in `v`'s |
| Graph.IncidentBounded | AlgoritmoDijkstra/src/Application.cpp:191-192 | edges between existing nodes only put existing nodes into adjacency lists |
| Graph.IncidentUntouched | AlgoritmoDijkstra/src/Application.cpp:225 | a node that no edge touches has an empty adjacency list, as a freshly pushed node does |
| Graph.IncidentFromEdge | AlgoritmoDijkstra/src/Application.cpp:237-239 | every adjacency entry comes from an edge of `aristas` joining the two nodes with that weight |
| ShortestPath.Plus | AlgoritmoDijkstra/src/Application.cpp:133 | `dist[u] + peso`: finite exactly when `dist[u]` is, never below it, and above it by exactly the weight; `FLT_MAX` stays `FLT_MAX` |
| ShortestPath.Below | AlgoritmoDijkstra/src/Application.cpp:133 | the comparison `<` with `FLT_MAX` on top: true exactly when the right side is not at most the left, and never between equal distances |
| ShortestPath.Top | AlgoritmoDijkstra/src/Application.cpp:124 | `pq.top()` of a min-queue on pairs: an entry no greater, by distance then node, than any queued entry |
| ShortestPath.Pop | AlgoritmoDijkstra/src/Application.cpp:125 | `pq.pop()` removes exactly that one entry: the multiset of entries loses it and keeps every duplicate |
| ShortestPath.RelaxEdge | AlgoritmoDijkstra/src/Application.cpp:129-137 | relaxing one edge keeps the search invariant (well-ranked links, keys at least the distances, every finite node queued or relaxed), never raises a distance and leaves `dist[u]` alone |
| ShortestPath.RelaxEdges | AlgoritmoDijkstra/src/Application.cpp:129-138 | after all edges of the popped node are relaxed the invariant holds with that node relaxed, distances only went down, and the queue grew only if one did |
| ShortestPath.RelaxStep | AlgoritmoDijkstra/src/Application.cpp:133-136 | lowering `dist[v]`, linking `v` to `u` and queueing `(dist[v], v)` preserves the search invariant and strictly lowers the distances |
| ShortestPath.PopKeeps | AlgoritmoDijkstra/src/Application.cpp:124-125 | popping any entry keeps the keys valid and leaves only the popped node waiting to be relaxed |
| ShortestPath.FrontierBound | AlgoritmoDijkstra/src/Application.cpp:123-139 | for any walk from the origin, either its last node's distance is within the walk's weight or some queued key is no larger than that weight |
| ShortestPath.BoundsWhenPopped | AlgoritmoDijkstra/src/Application.cpp:127 | when the least entry names the destination, the destination's distance bounds the weight of every walk to it |
| ShortestPath.BoundsWhenExhausted | AlgoritmoDijkstra/src/Application.cpp:123 | when the queue runs empty, every node's distance bounds every walk to it |
| ShortestPath.DecreasedMeasure | AlgoritmoDijkstra/src/Application.cpp:133-134 | lowering distances lowers the number of infinite ones or, failing that, the sum of the finite ones, so the search loop ends |
| ShortestPath.Search | AlgoritmoDijkstra/src/Application.cpp:116-139 | on exit the origin has distance 0 and link -1, every link names a node that reaches its node by an edge within its distance, and the destination's distance is at most every walk's weight |
| ShortestPath.Chain | AlgoritmoDijkstra/src/Application.cpp:143-145 | following `prev` from a node ends; it yields a walk ending at that node which, for a finite distance, starts at the origin and weighs at most that distance, and is the node alone when its link is -1 |
| ShortestPath.ChainStep | AlgoritmoDijkstra/src/Application.cpp:143-145 | one `push_back` along a link extends the reversed partial path by exactly one step of the chain |
| ShortestPath.ChainIsShortest | AlgoritmoDijkstra/src/Application.cpp:141-146 | with the destination's distance bounding all walks, the chain is a least-weight walk when the destination is reachable and `[destino]` otherwise |
| ShortestPath.Reverse | AlgoritmoDijkstra/src/Application.cpp:146 | `std::reverse`: same length, entry `i` is entry `n-1-i` of the input |
| ShortestPath.Rebuild | AlgoritmoDijkstra/src/Application.cpp:141-146 | the `for (at = destino; at != -1; at = prev[at])` loop plus the reverse yields exactly the chain of links, origin first |
| ShortestPath.Dijkstra | AlgoritmoDijkstra/src/Application.cpp:115-149 | the result is never empty and ends with `destino`; it is `[destino]` when origin and destination coincide or the destination is unreachable; otherwise it starts at `inicio`, each step follows an adjacency entry, and no walk from `inicio` to `destino` weighs less |
| HitTest.Nearest | AlgoritmoDijkstra/src/Application.cpp:169-179 | no hit exactly when no node is strictly inside the radius; a hit is inside the radius, no farther than any node, and strictly nearer than every lower index (ties go to the lowest index) |
| HitTest.NearestNode | AlgoritmoDijkstra/src/Application.cpp:169-179 | the running-minimum loop ends with exactly the hit described by `Nearest` |
| HitTest.FirstWithin | AlgoritmoDijkstra/src/Application.cpp:213-221 | no hit exactly when no node is strictly inside the radius; a hit is inside it and every lower index is outside |
| HitTest.FirstNode | AlgoritmoDijkstra/src/Application.cpp:213-221 | the loop with `break` ends with exactly the hit described by `FirstWithin` |
| HitTest.SearchesAgreeOnSingleHit | AlgoritmoDijkstra/src/Application.cpp:213-221 | when only one node is inside the radius both searches return it |
| PathHighlight.OnPathShape | AlgoritmoDijkstra/src/Application.cpp:82-95 | being on the path does not depend on the order of the edge's endpoints, and no edge is on a path of fewer than two nodes |
| PathHighlight.EsCaminoCorto | AlgoritmoDijkstra/src/Application.cpp:82-95 | the flag is true exactly when the edge's endpoints are consecutive entries of the path, in either order |
| Editor.LabelIndexExact | AlgoritmoDijkstra/src/Application.cpp:226 | until labels wrap, `nodoIndices` maps each node's label back to that node |
| Editor.IndexedByLabelGrows | AlgoritmoDijkstra/src/Application.cpp:224-226 | mapping the new node's label to its index keeps every label mapped to the latest node carrying it |
| Editor.AdjacencyClosed | AlgoritmoDijkstra/src/Application.cpp:129-130 | adjacency lists built from edges between existing nodes only name existing nodes, which is all `dijkstra` needs to index `dist` safely |
| Editor.WalkStepHighlighted | AlgoritmoDijkstra/src/Application.cpp:89-92 | for step `i` of any walk through the adjacency lists, some edge of `aristas` joins `p[i]` and `p[i+1]` in one orientation or the other, so the on-path test marks that edge red |
| Editor.AppendKeeps | AlgoritmoDijkstra/src/Application.cpp:224-225 | appending an unconnected node labelled `'A' + count` keeps labels, edges and adjacency consistent |
| Editor.Join | AlgoritmoDijkstra/src/Application.cpp:237-238 | the two `vecinos.push_back` calls: same node count, positions and labels; for two different nodes, `(h,w)` is appended to a's list and `(a,w)` to h's; every other node is unchanged |
| Editor.JoinKeeps | AlgoritmoDijkstra/src/Application.cpp:237-239 | pushing `a` and `h` onto each other's lists and `(a,h,w)` onto `aristas`, for two different existing nodes, keeps every adjacency list equal to what the edge list gives |
| Editor.AddNodeKeeps | AlgoritmoDijkstra/src/Application.cpp:223-226 | adding a node and indexing its label keeps the whole editor invariant, selections and stored path included |
| Editor.ConnectKeeps | AlgoritmoDijkstra/src/Application.cpp:234-239 | joining two different existing nodes keeps the whole editor invariant |
| Editor.EditorState.constructor | AlgoritmoDijkstra/src/Application.cpp:17-24 | the globals start empty with every selection slot at -1, and the invariant holds |
| Editor.EditorState.AddNode | AlgoritmoDijkstra/src/Application.cpp:223-226 | exactly one node is appended at the cursor with label `'A' + oldCount` and no neighbours, `nodoIndices[label] = oldCount`, and earlier nodes, edges, slots and path are unchanged |
| Editor.EditorState.Connect | AlgoritmoDijkstra/src/Application.cpp:191-193 | `(h,w)` is appended to the anchor's list, `(a,w)` to the hit node's, `(a,h,w)` to `aristas`; no other node changes and the invariant (symmetry, no self-loops) holds |
| Editor.EditorState.SelectOrConnect | AlgoritmoDijkstra/src/Application.cpp:230-244 | the hit node always becomes the anchor; an edge from the old anchor is added exactly when there was one and it differs from the hit |
| Editor.EditorState.SelectEndpoint | AlgoritmoDijkstra/src/Application.cpp:198-207 | the first right-hit sets the origin; every later one overwrites only the destination, and nothing else changes |
| Editor.EditorState.PressNearest | AlgoritmoDijkstra/src/Application.cpp:161-210 | the first block: a miss or another button changes nothing; a left hit anchors the nearest node and adds the edge from a different old anchor with the unscaled weight; a right hit sets the origin if unset, else only the destination |
| Editor.EditorState.PressFirst | AlgoritmoDijkstra/src/Application.cpp:212-246 | the second block: a miss appends exactly one node at the cursor and indexes its label with no edge or selection change; a hit anchors the first node within the radius and adds the edge from a different old anchor with the scaled weight |
| Editor.EditorState.MouseCallback | AlgoritmoDijkstra/src/Application.cpp:153-247 | non-press events and other buttons change nothing; a right press sets an endpoint from the nearest hit; a left press adds the first block's edge and then either appends a node on a second-search miss or the second block's edge, leaving the anchor on the last hit; with both searches agreeing only one edge can appear |
| Editor.EditorState.KeyCallback | AlgoritmoDijkstra/src/Application.cpp:250-277 | only Enter with both endpoints set changes anything: the stored path becomes non-empty, ends at the destination, is a shortest walk from the origin when one exists and `[destino]` otherwise; the graph and slots are untouched |

## Left out

- Drawing is not modelled: `cargarFuente`, `dibujarTexto`, the OpenGL calls of `dibujarNodos`, `dibujarAristas` and `resaltarCamino`, and `main`'s window and event loop. They are rendering and windowing calls; only the on-path test inside `dibujarAristas` decides anything.
- The coordinate conversions of `mouse_callback` (lines 159-160, 166-167) and the `sqrt`/`pow` distances (lines 174, 188-189, 217, 235-236) are floating-point work. The cursor-to-node distances of both searches, the new node's position and both edge weights are inputs of `MouseCallback`, and the `* 800` scaling is folded into the second weight.
- Graph.Weight: edge weights and distances are natural numbers, not `float`. Rounding in `dist[u] + peso` is not modelled.
- ShortestPath.Dist: `FLT_MAX` is an explicit `Infinite`, so adding a weight to it cannot overflow or round into a finite value.
- ShortestPath.Top: the binary heap of `std::priority_queue` is a sequence, and `top()` is specified by its order only. Which of several equal entries the heap returns is not captured, but equal entries are identical pairs.
- `std::cout` logging (lines 202, 206, 227, 240-241, 254-273) is output only and is left out.
- ShortestPath.Dijkstra: it requires in-range endpoints and adjacency entries naming existing nodes. The source does no bounds checks, and the editor's invariant guarantees both (`Editor.AdjacencyClosed`).
