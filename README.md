# Network topology over adjacency-set graphs

This project models the graph library of a network-topology tool, together with the metrics the tool computes over it.

- **Weighted undirected graph.** Each vertex maps to a set of `Edge(dest, w)`. An edge's identity is its destination alone. The graph keeps a counter of the edges added.
- **Unweighted graphs.** An undirected and a directed graph. Each vertex maps to a set of vertex ids. Both can remove edges and vertices.
- **Topology metrics.** These run over the weighted graph:
  - the degree and strength histograms, with their distributions and averages;
  - the local and average clustering coefficient;
  - the single-source shortest-path relaxation;
  - the characteristic path length.

Vertex ids and weights are `int`, since the loader reads integer weights. Sets that the source iterates in insertion order become `seq`s with distinct members (a weighted vertex's edges) or Dafny `set`s (unweighted neighbours, map keys). Where the order does not matter, a method walks them in any order.

Exceptions become an `Outcome` (for `void` methods) or a `Result` (for methods returning a value), with one constructor per Java exception type. A method that throws changes nothing before it throws; the contracts say so.

Each class carries a ghost `Valid()` invariant.

- The weighted graph stores every link in both directions, between vertices of the graph, with equal weights, and `2 * edges` equals the number of entries between distinct vertices.
- The unweighted undirected graph is symmetric, and `edges` counts every link ever added between distinct vertices: those still present plus those `removeEdge` has taken out. The source never decrements `edges`.
- The directed graph only stores arcs that point to its own vertices, and `edges` counts every arc ever added: those present plus those removed.

Files:

- `exceptions.dfy`: `Outcome`, `Result`, `Option`.
- `sums.dfy`: finite sums over sets and sequences, and listing a set.
- `edge.dfy`: `Edge.java` and the edge set of one vertex.
- `weighted_graph.dfy`: `graph/weighted/UndirectedGraph.java`.
- `shortest_path.dfy`: `shortestPath`.
- `network_topology.dfy`: the rest of `NetworkTopology.java`.
- `set_adjacency.dfy`: the map-of-sets representation the unweighted graphs share.
- `unweighted_undirected.dfy`: `graph/unweighted/UndirectedGraph.java`.
- `directed_graph.dfy`: `graph/unweighted/DirectedGraph.java`.

## Model

| member | source | states |
|---|---|---|
| Edges.SetDest | src/edu/uncc/algos/graph/weighted/Edge.java:40-42 | only the destination changes; the weight is kept |
| Edges.SetW | src/edu/uncc/algos/graph/weighted/Edge.java:59-61 | only the weight changes; the destination is kept |
| Edges.ConstructorGetters | src/edu/uncc/algos/graph/weighted/Edge.java:20-32 | the getters return what the constructor stored |
| Edges.EqualsIgnoresWeight | src/edu/uncc/algos/graph/weighted/Edge.java:68-73 | equality ignores the weight; it is reflexive and symmetric |
| Edges.HashConsistent | src/edu/uncc/algos/graph/weighted/Edge.java:75-77 | equal edges have equal hash codes |
| Edges.Wrap32 | src/edu/uncc/algos/graph/weighted/Edge.java:75-77 | a Java `int` result lies in the 32-bit range and is congruent to the exact value modulo 2^32 |
| Edges.Add | src/edu/uncc/algos/graph/weighted/UndirectedGraph.java:104-108 | adding to an edge set reports `true` iff no edge to that destination was there; only then is the edge appended; no other destination's weight changes |
| Edges.AddPresentIsNoop | src/edu/uncc/algos/graph/weighted/UndirectedGraph.java:104-108 | re-adding a destination with any weight changes nothing and reports `false` |
| Edges.LookupAt | src/edu/uncc/algos/graph/weighted/Edge.java:68-73 | with distinct destinations, looking up an edge's destination finds that edge's weight |
| Edges.LookupIndex | src/edu/uncc/algos/graph/weighted/Edge.java:68-73 | a destination that is present sits at some index, with the weight the lookup reports |
| Edges.ContainsIff | src/edu/uncc/algos/graph/weighted/Edge.java:68-73 | membership by destination holds iff some edge has that destination |
| Edges.SumWeightsBounds | src/edu/uncc/algos/graph/weighted/UndirectedGraph.java:176-190 | the strength lies between `k*lo` and `k*hi` when each of the k weights lies in `[lo, hi]` |
| WeightedGraph.Connect | src/edu/uncc/algos/graph/weighted/UndirectedGraph.java:104-108 | `addEdge` after its checks keeps the vertex set and touches only the two endpoints; it does nothing when the pair is already linked |
| WeightedGraph.ConnectLinks | src/edu/uncc/algos/graph/weighted/UndirectedGraph.java:104-108 | afterwards both endpoints see each other with the same weight: the old weight if they were linked, `w` otherwise |
| WeightedGraph.ConnectSymmetric | src/edu/uncc/algos/graph/weighted/UndirectedGraph.java:104-108 | a new link keeps every pair of vertices seeing each other with the same weight |
| WeightedGraph.ConnectClosed | src/edu/uncc/algos/graph/weighted/UndirectedGraph.java:104-108 | every stored destination is still a vertex |
| WeightedGraph.ConnectWellFormed | src/edu/uncc/algos/graph/weighted/UndirectedGraph.java:104-108 | `addEdge` preserves the graph invariant |
| WeightedGraph.ConnectHalfEdges | src/edu/uncc/algos/graph/weighted/UndirectedGraph.java:104-112 | the entries between distinct vertices grow by 2 exactly when a new link between distinct vertices appears, otherwise by 0 |
| WeightedGraph.AbsentIsNoNeighbour | src/edu/uncc/algos/graph/weighted/UndirectedGraph.java:98-102 | a vertex that is not in the graph is nobody's neighbour |
| WeightedGraph.NeighbourIsVertex | src/edu/uncc/algos/graph/weighted/UndirectedGraph.java:98-108 | every neighbour is a vertex |
| WeightedGraph.AddIsolatedVertex | src/edu/uncc/algos/graph/weighted/UndirectedGraph.java:74-80 | a new vertex with an empty set keeps the invariant and the edge entries |
| WeightedGraph.Handshake | src/edu/uncc/algos/graph/weighted/UndirectedGraph.java:104-112 | without self-loops, the degrees sum to twice the edge counter |
| WeightedGraph.LinkedPairs | src/edu/uncc/algos/graph/weighted/UndirectedGraph.java:277-294 | the linked neighbour pairs, each unordered pair once, number at most `kv(kv-1)/2`, and 0 when `kv < 2` |
| WeightedGraph.PairLinksBound | src/edu/uncc/algos/graph/weighted/UndirectedGraph.java:280-292 | after the first `i` rows of the pair loop, at most `i(2kv-i-1)/2` pairs are counted |
| WeightedGraph.RowLinksBound | src/edu/uncc/algos/graph/weighted/UndirectedGraph.java:284-291 | one row of the inner loop counts at most the pairs it visits |
| WeightedGraph.ClusteringInUnitInterval | src/edu/uncc/algos/graph/weighted/UndirectedGraph.java:296-300 | `2nv/(kv(kv-1))` lies in `[0,1]`, and is 0 when there are fewer than two neighbours |
| WeightedGraph.RowLinksAll | src/edu/uncc/algos/graph/weighted/UndirectedGraph.java:284-291 | when every later neighbour is linked, a row counts all of them |
| WeightedGraph.PairLinksAll | src/edu/uncc/algos/graph/weighted/UndirectedGraph.java:280-292 | when all neighbours are pairwise linked, the pair loop counts every pair |
| WeightedGraph.FullClustering | src/edu/uncc/algos/graph/weighted/UndirectedGraph.java:296-300 | every pair linked gives the coefficient 1 |
| WeightedGraph.CompleteNeighbourhood | src/edu/uncc/algos/graph/weighted/UndirectedGraph.java:266-303 | a vertex whose neighbours are pairwise linked has clustering coefficient 1 |
| WeightedGraph.UndirectedGraph.constructor | src/edu/uncc/algos/graph/weighted/UndirectedGraph.java:45-49 | the empty graph, with the invariant |
| WeightedGraph.UndirectedGraph.FromList | src/edu/uncc/algos/graph/weighted/UndirectedGraph.java:58-64 | every listed vertex gets an empty set; the vertex counter is the list length |
| WeightedGraph.UndirectedGraph.AddVertex | src/edu/uncc/algos/graph/weighted/UndirectedGraph.java:74-80 | throws and changes nothing for an existing vertex; otherwise adds an empty set and counts one more vertex |
| WeightedGraph.UndirectedGraph.AddEdge | src/edu/uncc/algos/graph/weighted/UndirectedGraph.java:95-113 | throws before touching anything when an endpoint is missing; otherwise links both ways; the counter grows iff the insertion into `dest`'s set was new; the invariant is kept |
| WeightedGraph.UndirectedGraph.EdgesCount | src/edu/uncc/algos/graph/weighted/UndirectedGraph.java:122-124 | the counter is half the number of entries between distinct vertices |
| WeightedGraph.UndirectedGraph.VerticesCount | src/edu/uncc/algos/graph/weighted/UndirectedGraph.java:133-135 | the vertex counter |
| WeightedGraph.UndirectedGraph.Vertices | src/edu/uncc/algos/graph/weighted/UndirectedGraph.java:142-146 | every vertex exactly once |
| WeightedGraph.UndirectedGraph.Degree | src/edu/uncc/algos/graph/weighted/UndirectedGraph.java:158-164 | throws for an absent vertex; otherwise the size of its edge set |
| WeightedGraph.UndirectedGraph.Strength | src/edu/uncc/algos/graph/weighted/UndirectedGraph.java:176-190 | throws for an absent vertex; otherwise the sum of its edge weights |
| WeightedGraph.UndirectedGraph.CCoefficient | src/edu/uncc/algos/graph/weighted/UndirectedGraph.java:266-303 | throws for an absent vertex; otherwise `2nv/(kv(kv-1))` with `nv` the linked neighbour pairs; always in `[0,1]`; 0 below two neighbours |
| WeightedGraph.UndirectedGraph.GetNeighbours | src/edu/uncc/algos/graph/weighted/UndirectedGraph.java:315-323 | throws for an absent vertex; otherwise exactly its edges, each neighbour seeing it back with the same weight |
| ShortestPaths.WalkExtend | src/edu/uncc/algos/topology/NetworkTopology.java:199-207 | extending a walk by a link adds that link's weight |
| ShortestPaths.WalkOne | src/edu/uncc/algos/topology/NetworkTopology.java:185-192 | each neighbour of the source is reached by a one-link walk of its weight |
| ShortestPaths.WalkLengthNonNegative | src/edu/uncc/algos/topology/NetworkTopology.java:199-207 | with non-negative weights, walks have non-negative length |
| ShortestPaths.WalkLengthAtLeastLinks | src/edu/uncc/algos/topology/NetworkTopology.java:199-207 | with weights of at least 1, a walk is at least as long as its number of links |
| ShortestPaths.ShortestUnique | src/edu/uncc/algos/topology/NetworkTopology.java:194-218 | the distance table is determined by the graph and the source, so it does not depend on the queue order |
| ShortestPaths.UnreachedIffNoWalk | src/edu/uncc/algos/topology/NetworkTopology.java:180-182 | a vertex keeps the sentinel -1 iff no walk from the source reaches it |
| ShortestPaths.CountersUpdate | src/edu/uncc/algos/topology/NetworkTopology.java:202-207 | how setting one distance changes the unreached count and the total of the reached distances, which together bound the loop |
| ShortestPaths.InitEstablishes | src/edu/uncc/algos/topology/NetworkTopology.java:178-192 | the initial table and queue satisfy the loop invariant |
| ShortestPaths.RelaxKeep | src/edu/uncc/algos/topology/NetworkTopology.java:202-213 | a link that does not improve a distance leaves it relaxed |
| ShortestPaths.RelaxUpdate | src/edu/uncc/algos/topology/NetworkTopology.java:202-213 | setting or lowering a distance and enqueuing that vertex keeps the invariant and makes progress |
| ShortestPaths.RelaxSound | src/edu/uncc/algos/topology/NetworkTopology.java:202-213 | a new distance is the length of a walk from the source |
| ShortestPaths.RelaxFixpoint | src/edu/uncc/algos/topology/NetworkTopology.java:202-213 | after an update, every vertex outside the queue except the one being expanded is relaxed |
| ShortestPaths.CloseRow | src/edu/uncc/algos/topology/NetworkTopology.java:196-216 | once all of a polled vertex's links are looked at, that vertex is relaxed |
| ShortestPaths.WalkBound | src/edu/uncc/algos/topology/NetworkTopology.java:194-218 | at the fixpoint, every walk from the source ends at a reached vertex whose distance is at most the walk's length |
| ShortestPaths.FinalIsShortest | src/edu/uncc/algos/topology/NetworkTopology.java:194-218 | an empty queue at the fixpoint means the table holds the shortest distances |
| ShortestPaths.InitialTable | src/edu/uncc/algos/topology/NetworkTopology.java:178-192 | `distance[0]` is 0; each index is -1, 0 for the source, or the weight of the source's link to it; the queue holds the source's neighbours |
| ShortestPaths.SeedNeighbours | src/edu/uncc/algos/topology/NetworkTopology.java:187-192 | after the neighbour loop every slot holds its starting value (the link weight for a neighbour, 0 for the source, -1 otherwise) and the queue holds exactly the neighbours |
| ShortestPaths.RelaxLink | src/edu/uncc/algos/topology/NetworkTopology.java:199-214 | the whole new state after one link: when its end is unreached or farther than through the polled vertex, exactly that slot becomes the new distance and the end is appended to the queue; otherwise table and queue are unchanged |
| ShortestPaths.RelaxStep | src/edu/uncc/algos/topology/NetworkTopology.java:199-214 | either outcome of one link keeps the loop invariant, relaxes one more link of the polled vertex, only sets or lowers distances, queues every vertex whose distance changed, and makes progress unless nothing changed |
| ShortestPaths.LinkEnd | src/edu/uncc/algos/topology/NetworkTopology.java:202 | the end of a stored link is a vertex id, so it indexes the distance array |
| ShortestPaths.NoRiseChain | src/edu/uncc/algos/topology/NetworkTopology.java:198-214 | steps that only set or lower distances and queue what they change compose over the inner loop |
| ShortestPaths.ProgressChain | src/edu/uncc/algos/topology/NetworkTopology.java:198-214 | steps that each change nothing or make progress compose over the inner loop |
| ShortestPaths.ExpandVertex | src/edu/uncc/algos/topology/NetworkTopology.java:196-216 | all of a polled vertex's links looked at restore the fixpoint outside the queue; no reached distance rises or returns to -1; every vertex whose distance changed is in the new queue; progress unless nothing changed |
| ShortestPaths.Poll | src/edu/uncc/algos/topology/NetworkTopology.java:195 | takes one vertex out of the queue, in any order: exactly one copy of it leaves (as a multiset, the rest is the queue minus that vertex), since a vertex can be queued more than once |
| ShortestPaths.ShortestPath | src/edu/uncc/algos/topology/NetworkTopology.java:174-219 | the result is the table of shortest walk lengths from the source, with -1 for unreachable vertices |
| NetworkTopology.NodeCount | src/edu/uncc/algos/topology/NetworkTopology.java:226-276 | the keys are exactly the values that occur, and each maps to the number of vertices with that value |
| NetworkTopology.CountsPositive | src/edu/uncc/algos/topology/NetworkTopology.java:237-247 | every histogram count is at least 1 |
| NetworkTopology.CountRemove | src/edu/uncc/algos/topology/NetworkTopology.java:237-247 | dropping one vertex lowers exactly its value's count by one |
| NetworkTopology.CountsTotal | src/edu/uncc/algos/topology/NetworkTopology.java:237-247 | the counts sum to the number of vertices |
| NetworkTopology.ValuesRemoveShared | src/edu/uncc/algos/topology/NetworkTopology.java:237-247 | dropping a vertex whose value another vertex shares keeps the set of values |
| NetworkTopology.ValuesRemoveLast | src/edu/uncc/algos/topology/NetworkTopology.java:237-247 | dropping the last vertex with a value removes that value |
| NetworkTopology.FractionsSumToOne | src/edu/uncc/algos/topology/NetworkTopology.java:40-44 | the distribution's fractions sum to 1 |
| NetworkTopology.FractionsScaled | src/edu/uncc/algos/topology/NetworkTopology.java:40-44 | the fractions sum to the total count divided by the number of vertices |
| NetworkTopology.Distribution | src/edu/uncc/algos/topology/NetworkTopology.java:39-44 | each occurring value maps to its count over the number of vertices |
| NetworkTopology.DegreeDistribution | src/edu/uncc/algos/topology/NetworkTopology.java:18-61 | every vertex's degree, the degree distribution, and the average degree (none for an empty graph) |
| NetworkTopology.TabulationTotals | src/edu/uncc/algos/topology/NetworkTopology.java:25-28 | summing a per-vertex value over the vertex list equals summing it over the vertex set |
| NetworkTopology.StrengthDistribution | src/edu/uncc/algos/topology/NetworkTopology.java:66-109 | every vertex's strength, the strength distribution, and the average strength (none for an empty graph) |
| NetworkTopology.ClusteringCoefficient | src/edu/uncc/algos/topology/NetworkTopology.java:114-139 | every vertex's local coefficient, and their average, which lies in `[0,1]` (none for an empty graph) |
| NetworkTopology.ClusteringTotal | src/edu/uncc/algos/topology/NetworkTopology.java:122-126 | the summed coefficients over the vertex list equal those over the vertex set and lie in `[0, n]` |
| NetworkTopology.ClusteringSumBounds | src/edu/uncc/algos/topology/NetworkTopology.java:122-126 | a sum of coefficients lies between 0 and the number of terms |
| NetworkTopology.LocalClusteringBounds | src/edu/uncc/algos/topology/NetworkTopology.java:123-125 | every local coefficient lies in `[0,1]` |
| NetworkTopology.MeanInUnitInterval | src/edu/uncc/algos/topology/NetworkTopology.java:136 | a total in `[0, n]` divided by `n` lies in `[0,1]` |
| NetworkTopology.CharacteristicPathLength | src/edu/uncc/algos/topology/NetworkTopology.java:159-173 | as written: for each source, the shortest distances to it and to every later id, -1 sentinels included, summed and divided by `n(n-1)`; none when `n(n-1)` is 0; the value is the same for every complete set of shortest-path tables, so it depends on the graph only |
| NetworkTopology.SumContributions | src/edu/uncc/algos/topology/NetworkTopology.java:164-170 | as written: the outer loop leaves one shortest-path table per vertex and the total of their contributions from the diagonal on |
| NetworkTopology.AllShortestUnique | src/edu/uncc/algos/topology/NetworkTopology.java:159-173 | two complete sets of shortest-path tables of one graph are equal, whatever order the queue served |
| NetworkTopology.AddSource | src/edu/uncc/algos/topology/NetworkTopology.java:164-170 | one source's shortest-path row adds its contribution to the running total |
| NetworkTopology.SumFrom | src/edu/uncc/algos/topology/NetworkTopology.java:167-169 | the inner loop sums the row from index `i` on |
| NetworkTopology.AddRow | src/edu/uncc/algos/topology/NetworkTopology.java:164-170 | a new row adds exactly its own contribution to the total |
| NetworkTopology.AllShortestAdd | src/edu/uncc/algos/topology/NetworkTopology.java:164-170 | adding a shortest-path row keeps every row a shortest-path table |
| NetworkTopology.CplQuotient | src/edu/uncc/algos/topology/NetworkTopology.java:171 | the division at the end gives the as-written value |
| NetworkTopology.MeanShortestPathLength | src/edu/uncc/algos/topology/NetworkTopology.java:159-173 | corrected: the mean shortest distance over ordered pairs of distinct vertices that reach each other; none when there are no such pairs; the same for every complete set of shortest-path tables |
| NetworkTopology.SumPairs | src/edu/uncc/algos/topology/NetworkTopology.java:164-170 | corrected: the outer loop leaves one shortest-path table per vertex, the summed distances of the reached pairs and their number |
| NetworkTopology.AddSourcePairs | src/edu/uncc/algos/topology/NetworkTopology.java:164-170 | corrected: one source adds its reached-pair total and count |
| NetworkTopology.ReachedPairs | src/edu/uncc/algos/topology/NetworkTopology.java:167-169 | corrected: the total and number of the finite distances to other vertices |
| NetworkTopology.AddRowPairs | src/edu/uncc/algos/topology/NetworkTopology.java:164-170 | corrected: a new row adds its own pair total and count |
| NetworkTopology.MeanQuotient | src/edu/uncc/algos/topology/NetworkTopology.java:171 | corrected: the division gives the mean |
| NetworkTopology.PairTotalNonNegative | src/edu/uncc/algos/topology/NetworkTopology.java:167-169 | corrected: with non-negative weights the reached-pair total and count are non-negative |
| NetworkTopology.MeanPathLengthNonNegative | src/edu/uncc/algos/topology/NetworkTopology.java:159-173 | corrected: the mean path length is never negative |
| NetworkTopology.TriangleShortest | src/edu/uncc/algos/topology/NetworkTopology.java:174-219 | on the unit-weight triangle, every other vertex is at distance 1 from each source |
| NetworkTopology.TriangleTables | src/edu/uncc/algos/topology/NetworkTopology.java:164-166 | the triangle's shortest-path rows are determined |
| NetworkTopology.TwoIsolatedWalks | src/edu/uncc/algos/topology/NetworkTopology.java:174-219 | between two isolated vertices, every walk has a single vertex |
| NetworkTopology.TwoIsolatedTables | src/edu/uncc/algos/topology/NetworkTopology.java:164-166 | the rows for two isolated vertices are determined and hold the -1 sentinel |
| NetworkTopology.TriangleContributions | src/edu/uncc/algos/topology/NetworkTopology.java:164-170 | as written, the triangle's tables sum to 3: each unordered pair once |
| NetworkTopology.CplAsWrittenOnTriangle | src/edu/uncc/algos/topology/NetworkTopology.java:159-173 | as written, the triangle's characteristic path length is 0.5 whatever the queue order |
| NetworkTopology.TwoIsolatedContributions | src/edu/uncc/algos/topology/NetworkTopology.java:164-170 | as written, two isolated vertices' tables sum to -1, the sentinel counted as a distance |
| NetworkTopology.TriangleSums | src/edu/uncc/algos/topology/NetworkTopology.java:164-170 | on the triangle every possible set of tables has 3 rows, contributions 3, and 6 reached pairs at total distance 6 |
| NetworkTopology.TwoIsolatedSums | src/edu/uncc/algos/topology/NetworkTopology.java:164-170 | on two isolated vertices every possible set of tables has 2 rows, contributions -1 and no reached pair |
| NetworkTopology.CplAsWrittenOnTwoIsolated | src/edu/uncc/algos/topology/NetworkTopology.java:159-173 | as written, two isolated vertices have characteristic path length -0.5 |
| NetworkTopology.TrianglePairs | src/edu/uncc/algos/topology/NetworkTopology.java:164-170 | corrected: the triangle has six ordered reached pairs at total distance 6 |
| NetworkTopology.MeanPathLengthOnTriangle | src/edu/uncc/algos/topology/NetworkTopology.java:159-173 | corrected: the triangle's mean path length is 1 |
| NetworkTopology.MeanPathLengthOnTwoIsolated | src/edu/uncc/algos/topology/NetworkTopology.java:159-173 | corrected: two isolated vertices have no mean path length |
| SetAdjacency.Insert | src/edu/uncc/algos/graph/unweighted/UndirectedGraph.java:106-109 | one set gains the element; the keys and every other set are unchanged |
| SetAdjacency.Delete | src/edu/uncc/algos/graph/unweighted/UndirectedGraph.java:183-184 | one set loses the element; the keys and every other set are unchanged |
| SetAdjacency.InsertEntries | src/edu/uncc/algos/graph/unweighted/DirectedGraph.java:109-112 | an insertion adds one entry iff the element is new |
| SetAdjacency.DeleteEntries | src/edu/uncc/algos/graph/unweighted/DirectedGraph.java:185-186 | a removal takes away one entry iff the element was there |
| SetAdjacency.RemoveKeyEntries | src/edu/uncc/algos/graph/unweighted/DirectedGraph.java:170 | dropping a vertex drops its set's entries |
| UnweightedUndirected.LinkSymmetric | src/edu/uncc/algos/graph/unweighted/UndirectedGraph.java:106-109 | `addEdge` keeps the graph symmetric and both endpoints see each other |
| UnweightedUndirected.LinkPresentIsNoop | src/edu/uncc/algos/graph/unweighted/UndirectedGraph.java:106-109 | linking an already linked pair changes nothing |
| UnweightedUndirected.LinkLinks | src/edu/uncc/algos/graph/unweighted/UndirectedGraph.java:106-112 | a link between distinct, unlinked vertices adds two entries; any other link adds none |
| UnweightedUndirected.UnlinkSymmetric | src/edu/uncc/algos/graph/unweighted/UndirectedGraph.java:183-184 | `removeEdge` keeps the graph symmetric and the two vertices no longer see each other |
| UnweightedUndirected.UnlinkLinks | src/edu/uncc/algos/graph/unweighted/UndirectedGraph.java:183-184 | removing a link between distinct vertices removes two entries |
| UnweightedUndirected.UnlinkValid | src/edu/uncc/algos/graph/unweighted/UndirectedGraph.java:180-189 | removing a present link keeps the graph symmetric and lowers the link count by two, or by none for a self-loop |
| UnweightedUndirected.UnlinkLink | src/edu/uncc/algos/graph/unweighted/UndirectedGraph.java:180-189 | `removeEdge` undoes an `addEdge` that created a link |
| UnweightedUndirected.AddIsolated | src/edu/uncc/algos/graph/unweighted/UndirectedGraph.java:125-131 | a new isolated vertex keeps symmetry and the link count |
| UnweightedUndirected.RemoveIsolated | src/edu/uncc/algos/graph/unweighted/UndirectedGraph.java:162-169 | dropping an isolated vertex keeps symmetry and the link count |
| UnweightedUndirected.UndirectedGraph.constructor | src/edu/uncc/algos/graph/unweighted/UndirectedGraph.java:63-67 | the empty graph, with the invariant |
| UnweightedUndirected.UndirectedGraph.FromList | src/edu/uncc/algos/graph/unweighted/UndirectedGraph.java:76-82 | every listed vertex gets an empty set; the vertex counter is the list length |
| UnweightedUndirected.UndirectedGraph.AddEdge | src/edu/uncc/algos/graph/unweighted/UndirectedGraph.java:96-114 | throws with the graph unchanged when an endpoint is missing; otherwise links both ways; the counter grows iff `src` was new in `dest`'s set |
| UnweightedUndirected.UndirectedGraph.AddVertex | src/edu/uncc/algos/graph/unweighted/UndirectedGraph.java:125-131 | throws for an existing vertex; otherwise adds an empty set and counts one more vertex |
| UnweightedUndirected.UndirectedGraph.GetNeighbours | src/edu/uncc/algos/graph/unweighted/UndirectedGraph.java:144-152 | throws for an absent vertex; otherwise each neighbour exactly once |
| UnweightedUndirected.UndirectedGraph.RemoveVertex | src/edu/uncc/algos/graph/unweighted/UndirectedGraph.java:162-169 | throws if the vertex is absent or has a neighbour; otherwise removes its key only; neither counter changes |
| UnweightedUndirected.UndirectedGraph.RemoveEdge | src/edu/uncc/algos/graph/unweighted/UndirectedGraph.java:180-189 | throws if a vertex is absent, or if the two are not linked both ways; otherwise removes both directions; the counter is not decremented |
| UnweightedUndirected.UndirectedGraph.Edges | src/edu/uncc/algos/graph/unweighted/UndirectedGraph.java:196-198 | the edge counter |
| UnweightedUndirected.UndirectedGraph.Degree | src/edu/uncc/algos/graph/unweighted/UndirectedGraph.java:205-211 | throws for an absent vertex; otherwise the size of its set |
| UnweightedUndirected.UndirectedGraph.Vertices | src/edu/uncc/algos/graph/unweighted/UndirectedGraph.java:234-238 | every vertex exactly once |
| UnweightedUndirected.UndirectedGraph.Size | src/edu/uncc/algos/graph/unweighted/UndirectedGraph.java:245-250 | the number of vertices present and the edge counter |
| UnweightedDirected.InDegreesTotal | src/edu/uncc/algos/graph/unweighted/DirectedGraph.java:213-242 | the in-degrees sum to the number of arcs, as the out-degrees do |
| UnweightedDirected.DegreesTotal | src/edu/uncc/algos/graph/unweighted/DirectedGraph.java:198-205 | the degrees sum to twice the number of arcs; a self-loop counts twice at its vertex |
| UnweightedDirected.DropArcs | src/edu/uncc/algos/graph/unweighted/DirectedGraph.java:213-242 | emptying one set lowers both the in-degree total and the arc count by its size |
| UnweightedDirected.InSetDrop | src/edu/uncc/algos/graph/unweighted/DirectedGraph.java:221-226 | emptying `u`'s set lowers the in-degree of exactly `u`'s targets, by one each |
| UnweightedDirected.RemoveUnreached | src/edu/uncc/algos/graph/unweighted/DirectedGraph.java:164-171 | a vertex with in-degree 0 can go without leaving an arc to a missing vertex; its outgoing arcs go with it |
| UnweightedDirected.AddIsolatedVertex | src/edu/uncc/algos/graph/unweighted/DirectedGraph.java:125-131 | a new vertex with an empty set keeps every arc inside the graph and the arc count |
| UnweightedDirected.InSetStep | src/edu/uncc/algos/graph/unweighted/DirectedGraph.java:221-226 | one key looked at adds one to the in-degree count iff its set holds the vertex |
| UnweightedDirected.DirectedGraph.constructor | src/edu/uncc/algos/graph/unweighted/DirectedGraph.java:65-69 | the empty graph, with the invariant |
| UnweightedDirected.DirectedGraph.FromList | src/edu/uncc/algos/graph/unweighted/DirectedGraph.java:79-85 | every listed vertex gets an empty set; the vertex counter is the list length |
| UnweightedDirected.DirectedGraph.AddEdge | src/edu/uncc/algos/graph/unweighted/DirectedGraph.java:99-114 | throws with the graph unchanged when an endpoint is missing; otherwise inserts into `src`'s set only; the counter grows iff the arc is new |
| UnweightedDirected.DirectedGraph.AddVertex | src/edu/uncc/algos/graph/unweighted/DirectedGraph.java:125-131 | throws for an existing vertex; otherwise adds an empty set and counts one more vertex |
| UnweightedDirected.DirectedGraph.GetNeighbours | src/edu/uncc/algos/graph/unweighted/DirectedGraph.java:144-154 | throws for an absent vertex; otherwise each target exactly once |
| UnweightedDirected.DirectedGraph.InDegree | src/edu/uncc/algos/graph/unweighted/DirectedGraph.java:213-228 | throws for an absent vertex; otherwise the number of vertices whose set holds it |
| UnweightedDirected.DirectedGraph.OutDegree | src/edu/uncc/algos/graph/unweighted/DirectedGraph.java:236-242 | throws for an absent vertex; otherwise the size of its set |
| UnweightedDirected.DirectedGraph.Degree | src/edu/uncc/algos/graph/unweighted/DirectedGraph.java:198-205 | throws for an absent vertex; otherwise in-degree plus out-degree |
| UnweightedDirected.DirectedGraph.RemoveVertex | src/edu/uncc/algos/graph/unweighted/DirectedGraph.java:164-171 | throws if the vertex is absent or has an incoming arc; otherwise removes it with its outgoing arcs; neither counter changes |
| UnweightedDirected.DirectedGraph.RemoveEdge | src/edu/uncc/algos/graph/unweighted/DirectedGraph.java:182-190 | throws if a vertex is absent or the arc is missing; otherwise removes the arc; the counter is not decremented |
| UnweightedDirected.DirectedGraph.Edges | src/edu/uncc/algos/graph/unweighted/DirectedGraph.java:264-266 | the arc counter |
| UnweightedDirected.DirectedGraph.Vertices | src/edu/uncc/algos/graph/unweighted/DirectedGraph.java:273-277 | every vertex exactly once |
| UnweightedDirected.DirectedGraph.Size | src/edu/uncc/algos/graph/unweighted/DirectedGraph.java:284-289 | the number of vertices present and the arc counter |

## Left out

- Console I/O: the interactive menu, file loading, the charts and every printed report. The metrics return the values they would print.
- `formatDouble`: the rounding of printed values is not modelled. The distributions and averages are exact `real`s.
- Floating point: weights and strengths are `int` and ratios are `real`, so there is no IEEE rounding.
- Integer overflow: the `edges` and `numberOfVertices` counters and the distance sums are unbounded `int`s. Only `hashCode` models a 32-bit result. Three 32-bit `int` products are computed exactly too: `kv * (kv - 1)` and `2 * nv` in `cCoefficient` (weighted/UndirectedGraph.java:297-298), and `vertexList.size() * (vertexList.size() - 1)` in `characteristicPathLength` (NetworkTopology.java:171). From a degree or a vertex count of 46342 on, Java wraps these and gets a negative or wrong coefficient or path length.
- WeightedGraph.ClusteringInUnitInterval: the bound `[0,1]` holds for exact arithmetic only; with Java's 32-bit products it fails from degree 46342 on.
- WeightedGraph.UndirectedGraph.CCoefficient: the result equals `2nv/(kv(kv-1))` over exact integers, not the wrapped 32-bit products, so the `[0,1]` bound does not carry over to degrees of 46342 and more.
- Iteration order of `LinkedHashSet` and `Hashtable`: lists handed out are specified by their members, not their order.
- `scaleFreeNetwork` is not part of this model. It only draws a chart.
- The deprecated `clusteringCoefficient(E v)` of the weighted graph is not part of this model. It is unused; `cCoefficient` is modelled instead.
- Averages over an empty graph, and the characteristic path length of a graph with fewer than two vertices, divide by zero in `double` arithmetic, which gives NaN or an infinity. The model returns `None` instead.
- `toString` of the graphs and of `Edge` is not modelled.
- `weightComparator` is not modelled. The `PriorityQueue` becomes a queue polled in any order (`ShortestPaths.Poll`), and `ShortestPaths.ShortestUnique` shows that the result does not depend on that order.
- The `path[]` predecessor array of `shortestPath` is not modelled. It is written but never returned.
- `Collections.sort` of the vertex list in `characteristicPathLength` is not modelled. The vertices are visited in any order, and the total is an exact integer sum that does not depend on the order.
- ShortestPaths.ShortestPath: requires every vertex id to lie in `1..numberOfVertices` and every weight to be non-negative. The arrays are indexed by vertex id and have `numberOfVertices + 1` slots. Ids below 0 or above `numberOfVertices` make the source throw `ArrayIndexOutOfBoundsException`. Id 0 does not fail: slot 0 is never set to -1, so vertex 0 is reported at distance 0 from every source, and relaxation never changes that. A negative weight on a link reachable from the source makes the relaxation loop run forever, since an undirected link is then a negative cycle; a negative link that cannot be reached does no harm.
- NetworkTopology.CharacteristicPathLength: requires the same ids and weights as `shortestPath`, which it calls for every vertex. It divides by the exact `n(n-1)`, not the 32-bit product, which wraps from 46342 vertices on.
- NetworkTopology.MeanShortestPathLength: requires the same ids and weights as `shortestPath`.
- NetworkTopology.ClusteringCoefficient: requires the weighted graph's invariant, which every constructor and mutator establishes.

## Findings

| source | as written | input that shows it | evidently intended | confidence | as-written member | corrected member |
|---|---|---|---|---|---|---|
| src/edu/uncc/algos/topology/NetworkTopology.java:164-171 | for source `i` only `distance[j]` with `j >= i` is summed, but the total is divided by `n(n-1)`, the number of ordered pairs | the triangle on vertices 1, 2, 3 with unit weights: as written it gives 0.5 | the mean over ordered pairs of distinct vertices, 1.0 on the triangle | not executed | NetworkTopology.CplAsWrittenOnTriangle | NetworkTopology.MeanPathLengthOnTriangle |
| src/edu/uncc/algos/topology/NetworkTopology.java:167-169 | the sentinel -1 of an unreached vertex is added as if it were a distance | two vertices and no edge: as written it gives -0.5 | unreached pairs are skipped, and with no reached pair the measure is undefined (never negative) | not executed | NetworkTopology.CplAsWrittenOnTwoIsolated | NetworkTopology.MeanPathLengthOnTwoIsolated |
