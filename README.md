# Moth for Grasshopper — a verified model of its algorithmic core

Moth is a Grasshopper (Rhino) plugin: each component reads inputs from the
canvas, runs one algorithm and writes outputs back. This project models, in
Dafny, the algorithms inside the components listed below and proves what
they compute. Rhino geometry, Grasshopper data trees and file I/O are
replaced by plain values: a graph is a sequence of adjacency lists, a point
is a triple of reals, a data tree is a sequence of branches, and an image's
metadata is what its Exif and ICC directories hold for the tags read.

| Dafny file | component(s) |
|---|---|
| `graphs.dfy` | walks, reachability and shortest distance shared by the graph components |
| `shortest_path.dfy` | `ShortestPathComponent` (breadth-first search with a predecessor map) |
| `spanning_tree.dfy` | `MinimumSpanningTreeComponent` (edge list, sort by length, Kruskal with union–find) |
| `closeness.dfy`, `normalisation.dfy` | `ClosenessCentralityComponent` |
| `betweenness.dfy` | `BetweenessCentralityComponent` |
| `bipartite.dfy` | `IsGraphBipartiteComponent` (two-colouring by breadth-first search) |
| `graph_from_lines.dfy`, `geometry.dfy` | `GraphFromLinesComponent` |
| `maze.dfy` | `MazeComponent` (randomised depth-first walk over a grid) |
| `cell_partitioning.dfy` | `RecursiveCellPartitioningComponent` |
| `random_draws.dfy` | the `System.Random` draws and the 32-bit seed arithmetic both grid components use |
| `clean_polyline.dfy` | `CleanPolyline` and `CleanPolyAngleGreaterThanComponent` |
| `snowflake.dfy` | `RecursiveSnowflakeComponent` |
| `data_sorts.dfy`, `sorting.dfy` | the six `Sort*` components of `Data/` |
| `tree_branch.dfy` | `TreeBranchComponent` |
| `image_metadata.dfy` | `ImageOrientationComponent`, `ImageColorProfileComponent`, `ImageDateTimeComponent` |
| `seqs.dfy` | sequence helpers (ranges, permutations, removal, de-duplication) |
| `arith.dfy` | integer facts behind the index arithmetic (products, quotient and remainder) |

Each component that works by updating variables in a loop is modelled by a
`method` with that loop and its invariants, proved against a specification
function or predicate; the properties the component promises are then
lemmas about that specification. Union–find keeps the source's two arrays.

## Model

| member | source | states |
|---|---|---|
| Graphs.ShortestExists | Graph/ShortestPathComponent.cs:103-130 | any walk from s to e implies a shortest walk from s to e exists (the notion of "shortest path" the search returns) |
| Graphs.Dist | Graph/ShortestPathComponent.cs:103-130 | the distance between two connected nodes is the length of some shortest walk between them |
| Graphs.DistIsLeast | Graph/ShortestPathComponent.cs:103-130 | no walk is shorter than the distance, and a walk of exactly that length is a shortest walk |
| Graphs.CutLoop | Graph/ShortestPathComponent.cs:103-130 | removing the loop between two visits of the same node leaves a walk with the same ends |
| Graphs.ShortestHasNoRepeats | Graph/ShortestPathComponent.cs:103-130 | a shortest walk visits no node twice |
| Graphs.WalkPrefix | Graph/ShortestPathComponent.cs:103-130 | dropping the last node of a walk leaves a walk, and its last step is an edge |
| Graphs.ShortestLength | Graph/ShortestPathComponent.cs:103-130 | every shortest walk has exactly distance + 1 nodes |
| Graphs.DistSelf | Graph/ShortestPathComponent.cs:108-112 | a node is at distance 0 from itself |
| Graphs.DistPositive | Graph/ShortestPathComponent.cs:103-130 | two different connected nodes are at distance at least 1 |
| Graphs.DistBound | Graph/ShortestPathComponent.cs:82-88 | a distance is at most the number of nodes minus one |
| Bfs.WalkCons | Graph/ShortestPathComponent.cs:65-70 | prepending a predecessor of the first node of a walk gives a walk |
| Bfs.GetPath | Graph/ShortestPathComponent.cs:60-78 | following the predecessor map back from a visited end and reversing gives a walk from start to end with level(end) + 1 nodes |
| Bfs.ShortWalksReached | Graph/ShortestPathComponent.cs:103-130 | every node with a walk of fewer than m steps from the start has been dequeued once the search reaches level m |
| Bfs.StartSearching | Graph/ShortestPathComponent.cs:82-97 | the initial visited list, empty predecessor map and one-element queue satisfy the search invariant |
| Bfs.NextLevel | Graph/ShortestPathComponent.cs:103-130 | when the current level is exhausted, the queue holds exactly the next level |
| Bfs.ExpandKeepsSearching | Graph/ShortestPathComponent.cs:106-129 | dequeuing a node and enqueuing its unvisited neighbours preserves the whole search invariant, with one more node expanded |
| Bfs.ExpandKeepsTree | Graph/ShortestPathComponent.cs:121-129 | after expanding a node, every visited node other than the start still has a visited, adjacent predecessor exactly one level lower |
| Bfs.ExpandKeepsQueued | Graph/ShortestPathComponent.cs:121-129 | after expanding a node the queue is duplicate-free, disjoint from the expanded nodes, ordered by level, and together with them covers every visited node |
| Bfs.ExpandKeepsEntries | Graph/ShortestPathComponent.cs:121-129 | after expanding a node every queue entry is visited, not yet expanded, and at the current level up to the cut |
| Bfs.ExpandKeepsCoverage | Graph/ShortestPathComponent.cs:121-129 | after expanding a node every visited node is expanded or queued |
| Bfs.ExpandKeepsClosed | Graph/ShortestPathComponent.cs:121-129 | after expanding a node every neighbour of an expanded node is visited and at most one level deeper |
| Bfs.ReadyToVisit | Graph/ShortestPathComponent.cs:106 | the node at the head of the queue is visited, at the current level and not yet dequeued |
| Bfs.FoundIsShortest | Graph/ShortestPathComponent.cs:108-112 | the path rebuilt when the end is dequeued is a shortest walk |
| Bfs.UnvisitedUnreachable | Graph/ShortestPathComponent.cs:103 | when the queue empties without reaching the end, no walk from the start reaches it |
| Bfs.VisitNeighbours | Graph/ShortestPathComponent.cs:121-129 | the queue grows by exactly the unvisited neighbours, each marked visited with the node as predecessor; earlier predecessors are unchanged and all neighbours end up visited |
| Bfs.NoRepeatsAppend | Graph/ShortestPathComponent.cs:125 | appending new nodes absent from a duplicate-free queue keeps it duplicate-free |
| Bfs.ShortestPath | Graph/ShortestPathComponent.cs:80-133 | the output path is empty exactly when the end is unreachable, and otherwise is a shortest walk from start to end |
| SpanningTree.Root | Graph/MinimumSpanningTreeComponent.cs:78-85 | the root of a node is a self-parented node whose rank is at least the node's, strictly more when the node is not itself a root |
| SpanningTree.Find | Graph/MinimumSpanningTreeComponent.cs:78-85 | returns the node's root, points the node directly at it, and leaves every node's root unchanged |
| SpanningTree.Compress | Graph/MinimumSpanningTreeComponent.cs:82 | pointing a node at its root keeps the forest rank-ordered and keeps every root |
| SpanningTree.CompressRoot | Graph/MinimumSpanningTreeComponent.cs:82 | after path compression each node still has the same root |
| SpanningTree.ApplyUnion | Graph/MinimumSpanningTreeComponent.cs:89-112 | the classes of x and y are merged under the root the rank rule picks, and the ranks change only when two equal-rank roots are joined |
| SpanningTree.UnionEffect | Graph/MinimumSpanningTreeComponent.cs:89-112 | linking the two roots found by Find merges exactly the two classes, by the rank rule |
| SpanningTree.UnionCorrect | Graph/MinimumSpanningTreeComponent.cs:94-111 | linking the roots rx and ry relabels exactly their two classes |
| SpanningTree.UnionSame | Graph/MinimumSpanningTreeComponent.cs:94 | joining a class with itself changes nothing |
| SpanningTree.UnionLink | Graph/MinimumSpanningTreeComponent.cs:97-110 | attaching one root under the other keeps the forest rank-ordered and merges the two classes |
| SpanningTree.UnionByRank | Graph/MinimumSpanningTreeComponent.cs:97-110 | the lower-rank root is attached under the higher one; on equal ranks y's root goes under x's and x's rank grows by one |
| SpanningTree.Link | Graph/MinimumSpanningTreeComponent.cs:97-110 | one parent update between two distinct roots keeps the rank order and relabels the loser's class |
| SpanningTree.LinkRoot | Graph/MinimumSpanningTreeComponent.cs:97-110 | after linking, each node's root is the winner if it was either linked root, and unchanged otherwise |
| SpanningTree.Widen | Graph/MinimumSpanningTreeComponent.cs:109 | raising the rank bound keeps every root |
| SpanningTree.WidenRoot | Graph/MinimumSpanningTreeComponent.cs:109 | raising the rank bound keeps each node's root |
| SpanningTree.LinkedSelf | Graph/MinimumSpanningTreeComponent.cs:165-180 | every vertex is linked to itself by the chosen edges |
| SpanningTree.LinkedEdge | Graph/MinimumSpanningTreeComponent.cs:176 | a chosen edge links its two ends |
| SpanningTree.LinkedSym | Graph/MinimumSpanningTreeComponent.cs:165-180 | being linked is symmetric |
| SpanningTree.LinkedTrans | Graph/MinimumSpanningTreeComponent.cs:165-180 | being linked is transitive |
| SpanningTree.LinkedMore | Graph/MinimumSpanningTreeComponent.cs:176 | adding an edge keeps every link |
| SpanningTree.LinkedVia | Graph/MinimumSpanningTreeComponent.cs:165-180 | if every edge of E is linked by F, every walk over E is linked by F |
| SpanningTree.WalkInClass | Graph/MinimumSpanningTreeComponent.cs:171-174 | a walk over edges inside classes stays in one class |
| SpanningTree.LinkedInClass | Graph/MinimumSpanningTreeComponent.cs:171-174 | linked vertices have the same root |
| SpanningTree.CountAll | Graph/MinimumSpanningTreeComponent.cs:156-157 | when every vertex is its own root, there are as many trees as vertices |
| SpanningTree.CountOne | Graph/MinimumSpanningTreeComponent.cs:165 | a forest with a root has at least one tree |
| SpanningTree.CountTwo | Graph/MinimumSpanningTreeComponent.cs:174 | a forest with two distinct roots has at least two trees |
| SpanningTree.CountSingle | Graph/MinimumSpanningTreeComponent.cs:165 | a forest with exactly one root has one tree |
| SpanningTree.CountDrop | Graph/MinimumSpanningTreeComponent.cs:178 | a union removes exactly one root from the count |
| SpanningTree.GetEdges | Graph/MinimumSpanningTreeComponent.cs:115-136 | every listed edge comes from an adjacency list, every adjacency appears in one direction or the other, and no edge is listed twice or in both directions |
| SpanningTree.SortEdges | Graph/MinimumSpanningTreeComponent.cs:139-147 | the sorted edges are a permutation of the input, in non-decreasing length |
| SpanningTree.Singletons | Graph/MinimumSpanningTreeComponent.cs:156-157 | the initial arrays (every vertex its own parent, rank 0) are a rank-ordered forest of n one-vertex trees with no edges |
| SpanningTree.JoinClasses | Graph/MinimumSpanningTreeComponent.cs:174-178 | adding an edge between two classes and relabelling them keeps classes equal to "linked by the chosen edges" |
| SpanningTree.DropClass | Graph/MinimumSpanningTreeComponent.cs:174-178 | merging two classes reduces the tree count by one |
| SpanningTree.OneClass | Graph/MinimumSpanningTreeComponent.cs:165 | with at most one tree, all vertices share a root |
| SpanningTree.GreedyIn | Graph/MinimumSpanningTreeComponent.cs:165-180 | every kept edge is one of the sorted edges |
| SpanningTree.GreedySorted | Graph/MinimumSpanningTreeComponent.cs:165-180 | the kept edges stay in non-decreasing length order |
| SpanningTree.GreedyAcyclic | Graph/MinimumSpanningTreeComponent.cs:174-178 | no kept edge joins two vertices the earlier kept edges already link |
| SpanningTree.GreedyLinks | Graph/MinimumSpanningTreeComponent.cs:165-180 | the kept edges link the ends of every scanned edge |
| SpanningTree.GreedyStops | Graph/MinimumSpanningTreeComponent.cs:165 | once everything is linked, scanning more edges keeps nothing more, so the early exit changes nothing |
| SpanningTree.KeepStep | Graph/MinimumSpanningTreeComponent.cs:174-178 | keeping an edge between two classes preserves the scan invariant |
| SpanningTree.SkipStep | Graph/MinimumSpanningTreeComponent.cs:171-174 | skipping an edge inside one class preserves the scan invariant |
| SpanningTree.Finish | Graph/MinimumSpanningTreeComponent.cs:165-180 | at loop exit the kept edges are the greedy selection, fewer than n, and exactly n - 1 when the sorted edges connect all vertices |
| SpanningTree.Connected | Graph/MinimumSpanningTreeComponent.cs:165-180 | a forest whose edges link everything the input links has n - 1 edges when the input is connected |
| SpanningTree.Start | Graph/MinimumSpanningTreeComponent.cs:156-163 | the initial arrays and empty edge list satisfy the scan invariant |
| SpanningTree.JoinEnds | Graph/MinimumSpanningTreeComponent.cs:171-178 | the edge is kept exactly when its ends have different roots, and then the two classes are merged |
| SpanningTree.ConsiderEdge | Graph/MinimumSpanningTreeComponent.cs:167-179 | one loop iteration keeps the edge exactly when the greedy rule does and preserves the scan invariant |
| SpanningTree.Scan | Graph/MinimumSpanningTreeComponent.cs:165-180 | the loop stops at the end of the edges or after n - 1 edges, with the scan invariant |
| SpanningTree.Kruskal | Graph/MinimumSpanningTreeComponent.cs:155-180 | the result is the greedy selection of the sorted edges, has fewer than n edges, and has n - 1 when the edges connect all n vertices |
| SpanningTree.ReachableLinked | Graph/MinimumSpanningTreeComponent.cs:115-136 | a walk in the graph is a walk over its listed edges |
| SpanningTree.JoinsReordered | Graph/MinimumSpanningTreeComponent.cs:139-147 | sorting keeps every edge |
| SpanningTree.MinimumSpanningTree | Graph/MinimumSpanningTreeComponent.cs:151-180 | the result uses only graph edges, is sorted by length, has no cycle, links every pair the graph connects, has fewer edges than points, and n - 1 edges when the graph is connected |
| Closeness.Reciprocal | Graph/ClosenessCentralityComponent.cs:197-204 | a zero sum gives centrality 0, any other sum gives its multiplicative inverse |
| Closeness.PathTo | Graph/ClosenessCentralityComponent.cs:172-174 | the path to another vertex is the breadth-first shortest path (empty when unreachable), so its node count minus one is the hop distance, or -1 |
| Closeness.PathLength | Graph/ClosenessCentralityComponent.cs:179-183 | the loop sums the point distances between consecutive vertices of the path |
| Closeness.NodeSum | Graph/ClosenessCentralityComponent.cs:169-194 | the inner loop's sum is the hop-distance sum over all other vertices (unweighted) or the summed lengths of the shortest paths found to them (weighted) |
| Closeness.WeightSumSnoc | Graph/ClosenessCentralityComponent.cs:170-194 | one more target adds its path length to the weighted sum, except the vertex itself |
| Closeness.WeightSumPrefix | Graph/ClosenessCentralityComponent.cs:170-194 | the weighted sum over the first k targets does not depend on the paths found later |
| Closeness.Closeness | Graph/ClosenessCentralityComponent.cs:160-220 | one centrality per vertex, computed over the BFS path from the vertex to every other vertex (none when unreachable): the reciprocal (0 for a zero sum) of the sum of hop counts when unweighted, and of the summed segment lengths along those paths when weighted, which is never negative for non-negative distances; the normalised list is the min–max ratio of the centralities |
| Closeness.WeightSumNonNegative | Graph/ClosenessCentralityComponent.cs:179-183 | the weighted sum is never negative |
| Closeness.PathWeightNonNegative | Graph/ClosenessCentralityComponent.cs:179-183 | the length of a path is never negative |
| Closeness.HopSumBounds | Graph/ClosenessCentralityComponent.cs:188-191 | the unweighted sum lies between -k and k·(n-1) |
| Closeness.ConnectedHopSum | Graph/ClosenessCentralityComponent.cs:188-191 | from a vertex that reaches every other, each other vertex adds at least 1 to the sum |
| Closeness.IsolatedHopSum | Graph/ClosenessCentralityComponent.cs:188-191 | from a vertex that reaches no other, each unreachable vertex adds -1, because its empty path has Count - 1 = -1 |
| Closeness.ConnectedCentrality | Graph/ClosenessCentralityComponent.cs:197-204 | a vertex that reaches all others has centrality in (0, 1/(n-1)] |
| Closeness.IsolatedCentrality | Graph/ClosenessCentralityComponent.cs:197-204 | an isolated vertex has the negative centrality -1/(n-1), not 0 |
| Closeness.ReciprocalAntitone | Graph/ClosenessCentralityComponent.cs:203 | a larger positive sum gives a smaller positive centrality |
| Normalisation.Divide | Graph/ClosenessCentralityComponent.cs:215 | floating-point division is finite exactly when the divisor is non-zero, and NaN exactly for 0/0 |
| Normalisation.Min | Graph/ClosenessCentralityComponent.cs:209 | the minimum is an element no larger than any element |
| Normalisation.Max | Graph/ClosenessCentralityComponent.cs:210 | the maximum is an element no smaller than any element |
| Normalisation.Normalize | Graph/ClosenessCentralityComponent.cs:212-216 | the loop produces the min–max ratio of every value, in order |
| Normalisation.MinMaxRatioRange | Graph/ClosenessCentralityComponent.cs:209-216 | when all values are equal every ratio is NaN; otherwise every ratio is finite, in [0, 1], 0 exactly at the minimum and 1 exactly at the maximum |
| Normalisation.UnitRatio | Graph/ClosenessCentralityComponent.cs:215 | a value between distinct bounds maps into [0, 1], to 0 only at the lower and to 1 only at the upper bound |
| Betweenness.AddInterior | Graph/BetweenessCentralityComponent.cs:172-176 | every vertex strictly inside the path gains one per occurrence, nothing else changes, and the total grows by the number of interior positions |
| Betweenness.TotalIncrement | Graph/BetweenessCentralityComponent.cs:175 | adding one to one counter adds one to the total |
| Betweenness.TotalZeros | Graph/BetweenessCentralityComponent.cs:156-157 | the counters start with total 0 |
| Betweenness.CountPair | Graph/BetweenessCentralityComponent.cs:167-177 | for one pair the path is the breadth-first path and the total grows by the number of vertices strictly between the ends on a shortest path (0 when unreachable or equal) |
| Betweenness.CountFrom | Graph/BetweenessCentralityComponent.cs:165-179 | for one source, every counter grows by its visits along that row's shortest paths, and the total by the row's sum of (distance - 1) |
| Betweenness.RowStep | Graph/BetweenessCentralityComponent.cs:165-179 | one more target extends the row of shortest paths and keeps the counters equal to the row's visits |
| Betweenness.FoundAllAt | Graph/BetweenessCentralityComponent.cs:170 | each recorded path of a row is what the search returns for its target |
| Betweenness.Betweenness | Graph/BetweenessCentralityComponent.cs:153-195 | every counter equals the number of times its vertex lies strictly inside the shortest paths found for all ordered pairs, the total is the sum over connected pairs of (distance - 1), and the normalised list is the min–max ratio of the counters |
| Betweenness.NotInterior | Graph/BetweenessCentralityComponent.cs:172-176 | in an undirected graph a vertex with fewer than two distinct neighbours is never strictly inside a shortest path |
| Betweenness.TwoNeighbours | Graph/BetweenessCentralityComponent.cs:172-176 | an interior vertex of a repeat-free walk in an undirected graph has two distinct neighbours on it |
| Betweenness.RowNotVisited | Graph/BetweenessCentralityComponent.cs:165-179 | such a vertex gets no visits from any row |
| Betweenness.FewNeighboursScoreZero | Graph/BetweenessCentralityComponent.cs:163-181 | in an undirected graph, a vertex with fewer than two distinct neighbours ends with counter 0 |
| Bipartite.WithColour | Graph/IsGraphBipartiteComponent.cs:113-124 | the listed vertices are vertices of the order that carry the given colour |
| Bipartite.Unseeded | Graph/IsGraphBipartiteComponent.cs:96-100 | the listed vertices are in the order and are not seeds |
| Bipartite.ColourNeighbours | Graph/IsGraphBipartiteComponent.cs:106-134 | without a clash, the node's neighbours are all coloured opposite to it, the new ones queued, and the search invariant holds with one more node processed; a clash means the (undirected) graph is not bipartite |
| Bipartite.ScanStep | Graph/IsGraphBipartiteComponent.cs:108-128 | colouring an uncoloured neighbour 1 - colour(node), or passing a neighbour of the other colour, extends the scanned prefix of the node's neighbours |
| Bipartite.ColourStep | Graph/IsGraphBipartiteComponent.cs:108-126 | colouring a new neighbour and queuing it keeps the search invariant |
| Bipartite.StepKeepsColours | Graph/IsGraphBipartiteComponent.cs:108-126 | colouring a new neighbour keeps colours in {-1, 0, 1}, coloured exactly on the components seen, and every processed vertex's neighbours coloured opposite |
| Bipartite.StepKeepsRooted | Graph/IsGraphBipartiteComponent.cs:110 | every vertex of the current component is reached from the seed by a walk whose length has the parity of its colour |
| Bipartite.StepKeepsListed | Graph/IsGraphBipartiteComponent.cs:113-124 | the output lists still match the colouring order |
| Bipartite.StepKeepsDiscovered | Graph/IsGraphBipartiteComponent.cs:108-126 | the colouring order stays repeat-free and lists exactly the coloured vertices |
| Bipartite.StepKeepsOutputs | Graph/IsGraphBipartiteComponent.cs:113-124 | after colouring a vertex, `a` and `b` hold the colour-0 and colour-1 points in colouring order, and the `Sets` branches the non-seed colour-0 and the colour-1 vertices |
| Bipartite.ColourSnoc | Graph/IsGraphBipartiteComponent.cs:113-124 | colouring one more vertex appends it to exactly the list of its colour |
| Bipartite.PointsSnoc | Graph/IsGraphBipartiteComponent.cs:115 | appending a vertex appends its point |
| Bipartite.WithColourFrame | Graph/IsGraphBipartiteComponent.cs:110 | changing colours outside the order does not change the per-colour lists |
| Bipartite.FinishNode | Graph/IsGraphBipartiteComponent.cs:106-134 | once all neighbours are scanned without a clash, the node counts as processed |
| Bipartite.Clash | Graph/IsGraphBipartiteComponent.cs:128-133 | a neighbour with the node's own colour means an undirected graph is not bipartite |
| Bipartite.ClosedBack | Graph/IsGraphBipartiteComponent.cs:94-149 | in an undirected graph, a neighbour of a vertex in a closed set makes the vertex a member too |
| Bipartite.OddCycle | Graph/IsGraphBipartiteComponent.cs:128-133 | two walks from one vertex of equal parity ending at adjacent vertices rule out any two-colouring |
| Bipartite.WalkParity | Graph/IsGraphBipartiteComponent.cs:110 | in a two-colouring, the two ends of a walk have the same colour exactly when its length is even |
| Bipartite.DrainQueue | Graph/IsGraphBipartiteComponent.cs:102-141 | draining the queue either keeps the search invariant and colours the whole component, or stops on a clash that proves an undirected graph not bipartite |
| Bipartite.Dequeue | Graph/IsGraphBipartiteComponent.cs:104 | the dequeued node belongs to the current component and is not yet processed |
| Bipartite.IsGraphBipartite | Graph/IsGraphBipartiteComponent.cs:80-155 | colours stay in {-1, 0, 1}; a true result comes with a proper 0/1 colouring; a self-loop gives false; for an undirected graph the result is true exactly when the graph is bipartite; the outputs list the colour classes in the discovery order, where each vertex is a seed or a neighbour of an earlier one and the seeds come in increasing index; on a true result the seeds, which stay out of `Sets`, are exactly the vertices that no smaller index reaches |
| Bipartite.VisitVertex | Graph/IsGraphBipartiteComponent.cs:94-148 | one outer pass: vertex i starts a new component exactly when no smaller index reaches it, and afterwards every finished vertex is reached from a seed of no larger index |
| Bipartite.ClosedReach | Graph/IsGraphBipartiteComponent.cs:94-148 | a walk that starts in the finished components stays inside them |
| Bipartite.FirstUncoloured | Graph/IsGraphBipartiteComponent.cs:96 | a vertex still uncoloured when the outer loop reaches it is reached from no smaller index |
| Bipartite.ReachedBefore | Graph/IsGraphBipartiteComponent.cs:96 | a vertex already coloured when the outer loop reaches it is reached from an earlier seed, so it is not a seed |
| Bipartite.NewSeed | Graph/IsGraphBipartiteComponent.cs:96-100 | seeding vertex i adds exactly i to the seeds, and its component is reached from it |
| Bipartite.OrderedSnoc | Graph/IsGraphBipartiteComponent.cs:108-126 | appending a neighbour of an already listed vertex keeps the discovery order |
| Bipartite.OrderedSeed | Graph/IsGraphBipartiteComponent.cs:96-100 | appending a new seed larger than every earlier seed keeps the discovery order |
| Bipartite.EdgeHasOneSeed | Graph/IsGraphBipartiteComponent.cs:96-117 | on the single edge 0–1 only vertex 0 is a seed, so only vertex 1 goes into `Sets` |
| Bipartite.ColourComponent | Graph/IsGraphBipartiteComponent.cs:96-142 | seeding an uncoloured vertex with colour 0 and draining the queue finishes its component, made of vertices it reaches, and adds it to the seeds; otherwise it proves an undirected graph not bipartite |
| Bipartite.SeedStep | Graph/IsGraphBipartiteComponent.cs:96-100 | seeding a vertex with colour 0, queuing it and adding its point to `a` establishes the search invariant for a new component |
| Bipartite.SeedKeepsColours | Graph/IsGraphBipartiteComponent.cs:96-100 | the colour bookkeeping holds after seeding |
| Bipartite.SeedKeepsListed | Graph/IsGraphBipartiteComponent.cs:100 | the output lists still match the colouring order after seeding |
| Bipartite.SeedKeepsOutputs | Graph/IsGraphBipartiteComponent.cs:100 | a seed goes to `a` but not into the `Sets` tree |
| Bipartite.UnseededAbsent | Graph/IsGraphBipartiteComponent.cs:100 | adding a seed that is not yet ordered leaves the non-seed list unchanged |
| Bipartite.FinishComponent | Graph/IsGraphBipartiteComponent.cs:102-142 | a drained component joins the finished ones, so all vertices up to the seed are finished |
| Bipartite.AllColoured | Graph/IsGraphBipartiteComponent.cs:94-149 | when every vertex is finished without a clash the colouring is proper |
| Bipartite.ProperIsBipartite | Graph/IsGraphBipartiteComponent.cs:152 | a proper 0/1 colouring witnesses bipartiteness |
| Bipartite.SelfLoopNotBipartite | Graph/IsGraphBipartiteComponent.cs:128 | a vertex adjacent to itself rules out any two-colouring |
| Geometry.SqDistPositive | Graph/GraphFromLinesComponent.cs:82 | the squared distance of a point to itself is 0, never negative, and positive between different points |
| GraphFromLines.SimilarReflexive | Graph/GraphFromLinesComponent.cs:97-104 | every point is similar to itself |
| GraphFromLines.SimilarSymmetric | Graph/GraphFromLinesComponent.cs:97-104 | similarity is symmetric |
| GraphFromLines.SimilarNotEuclidean | Graph/GraphFromLinesComponent.cs:97-104 | the per-coordinate test accepts points farther apart than 0.001 (a box, not a ball) |
| GraphFromLines.SimilarNotTransitive | Graph/GraphFromLinesComponent.cs:97-104 | similarity is not transitive: three collinear points 0.0006 apart |
| GraphFromLines.StraightLines | Graph/GraphFromLinesComponent.cs:56-69 | the lines are exactly the start-to-end lines of the linear curves, in order |
| GraphFromLines.CollectLines | Graph/GraphFromLinesComponent.cs:54-69 | the line list is that of the linear curves, and the error message is raised exactly when some curve is not linear |
| GraphFromLines.CollectPoints | Graph/GraphFromLinesComponent.cs:108-115 | the points are the line ends in first-appearance order, each line's start before its end, each listed once |
| GraphFromLines.EndsMembers | Graph/GraphFromLinesComponent.cs:108-115 | the first-appearance list holds every line end and nothing else, without repeats |
| GraphFromLines.FindDuplicates | Graph/GraphFromLinesComponent.cs:118-133 | a point is marked for removal exactly when it is similar to some point listed before it |
| GraphFromLines.Survivors | Graph/GraphFromLinesComponent.cs:136-141 | the unique points are the listed points not marked for removal, without repeats |
| GraphFromLines.FirstSurvives | Graph/GraphFromLinesComponent.cs:118-141 | the first point always survives |
| GraphFromLines.SurvivorsApart | Graph/GraphFromLinesComponent.cs:118-141 | no two surviving points are similar |
| GraphFromLines.Unshadowed | Graph/GraphFromLinesComponent.cs:118-141 | the surviving points are exactly the listed points not similar to a point listed before them |
| GraphFromLines.Weld | Graph/GraphFromLinesComponent.cs:108-141 | the vertex points are exactly those line ends, in first-appearance order, that are not similar to an earlier end; they are distinct, pairwise dissimilar, and there is at least one when there is a line |
| GraphFromLines.ChainCollapses | Graph/GraphFromLinesComponent.cs:118-141 | a chain of three points 0.0006 apart keeps only the first, although the first and last are not similar |
| GraphFromLines.AssignIndices | Graph/GraphFromLinesComponent.cs:144-154 | every unique point gets its list position as index and an empty adjacency list |
| GraphFromLines.ClosestUnique | Graph/GraphFromLinesComponent.cs:74-93 | there is only one first nearest point |
| GraphFromLines.FindClosest | Graph/GraphFromLinesComponent.cs:74-93 | returns nothing exactly when there are no points, otherwise the first point at least as near as every other |
| GraphFromLines.SnapToSelf | Graph/GraphFromLinesComponent.cs:74-93 | a listed point snaps to itself |
| GraphFromLines.Connect | Graph/GraphFromLinesComponent.cs:158-169 | each line's ends snap to their nearest unique points, and the adjacency lists hold exactly the snapped connections, without repeats |
| GraphFromLines.AddAdjacency | Graph/GraphFromLinesComponent.cs:167-168 | adding each end to the other's list, unless present, describes one more connection |
| GraphFromLines.DescribedGraph | Graph/GraphFromLinesComponent.cs:167-168 | lists describing snapped lines form an undirected graph |
| GraphFromLines.NoLonelyVertex | Graph/GraphFromLinesComponent.cs:158-169 | every vertex that is itself a line end has at least one neighbour |
| GraphFromLines.GraphFromLines | Graph/GraphFromLinesComponent.cs:47-186 | the error flag is raised exactly for a non-linear curve; the vertices are exactly the line ends that are not similar to an earlier end in the scanned list of distinct ends, no two of them similar; each line end snaps to its nearest vertex, and the graph holds exactly those connections, symmetric, without repeats, every vertex with a neighbour |
| Maze.DuplicateSymmetric | Grid/MazeComponent.cs:87-109 | being duplicates does not depend on the order or direction of the two lines, and a line duplicates itself under a positive tolerance |
| Maze.RemoveDuplicates | Grid/MazeComponent.cs:61-84 | the result is the input in order minus some lines; no two remaining lines are duplicates, and every removed line duplicates a kept line that comes before it |
| Maze.RemoveLaterDuplicates | Grid/MazeComponent.cs:71-80 | the inner loop removes the later duplicates of line i, keeping the first i + 1 lines and the order |
| Maze.ScanStart | Grid/MazeComponent.cs:71 | the inner loop's invariant holds before its first iteration |
| Maze.ScanDone | Grid/MazeComponent.cs:71-80 | at the end of the inner loop, no line after position i duplicates lines 0..i |
| Maze.ScanRemove | Grid/MazeComponent.cs:76-79 | removing a duplicate at j keeps the inner loop's invariant |
| Maze.ScanKeep | Grid/MazeComponent.cs:76 | passing a non-duplicate at j keeps the inner loop's invariant |
| Maze.RemovalKeepsOrder | Grid/MazeComponent.cs:78 | removing an entry keeps the remaining lines a subsequence of the input, in order |
| Maze.DroppedAfterRemoval | Grid/MazeComponent.cs:78 | a line removed as a duplicate of an earlier kept line is accounted for, and earlier removals stay accounted for |
| Maze.PassMembers | Grid/MazeComponent.cs:120-137 | a cell proposed for one offset is in the grid, unvisited and shares a side with the cell |
| Maze.PassHas | Grid/MazeComponent.cs:120-137 | an unvisited grid cell at that offset along either axis is proposed |
| Maze.NeighboursUnfold | Grid/MazeComponent.cs:118-139 | the neighbours are the cells proposed for offset -1, then for offset +1 |
| Maze.NeighboursExact | Grid/MazeComponent.cs:112-141 | the neighbours are exactly the unvisited grid cells sharing a side with the cell, at most four |
| Maze.GetNeighbours | Grid/MazeComponent.cs:112-141 | the loop over the two offsets returns the neighbour list in the source's order |
| Maze.DecodeInGrid | Grid/MazeComponent.cs:192-196 | a flat index below rows·cols decodes to a cell of the grid |
| Maze.Start | Grid/MazeComponent.cs:191-203 | the first cell, drawn from rows·cols flat indices, is in the grid |
| Maze.StartInv | Grid/MazeComponent.cs:191-203 | the walk's invariant holds before the loop, with measure at most 3·rows·cols |
| Maze.AdvanceFacts | Grid/MazeComponent.cs:215-245 | moving to a drawn unvisited neighbour keeps the invariant and lowers the measure |
| Maze.UnvisitedShrinks | Grid/MazeComponent.cs:227 | marking an unvisited cell visited removes exactly one cell from the unvisited ones |
| Maze.StepFacts | Grid/MazeComponent.cs:207-256 | each iteration as written keeps the invariant (every step joins side-sharing cells and reaches a new cell) and lowers the measure |
| Maze.RunFacts | Grid/MazeComponent.cs:207-256 | with enough iterations the loop as written ends with an empty stack and the invariant |
| Maze.RowSize | Grid/MazeComponent.cs:158 | a row has cols cells |
| Maze.GridSize | Grid/MazeComponent.cs:154-186 | the grid has rows·cols cells |
| Maze.DepthFirstWalk | Grid/MazeComponent.cs:188-256 | the loop ends in the state the step function reaches; every path step joins two cells that share a side; there are at most rows·cols - 1 steps |
| Maze.RunUnfold | Grid/MazeComponent.cs:207 | while the stack is non-empty the loop takes one more step |
| Maze.TracksStart | Grid/MazeComponent.cs:188-203 | the loop invariant holds on entry |
| Maze.TracksDone | Grid/MazeComponent.cs:207 | on exit the walk is the one the step function reaches, with side-sharing steps and at most rows·cols - 1 of them |
| Maze.TracksStep | Grid/MazeComponent.cs:207-256 | one iteration keeps the loop invariant with one less fuel and a lower measure |
| Maze.PathBound | Grid/MazeComponent.cs:235 | a walk satisfying the invariant has at most rows·cols - 1 steps |
| Maze.Iteration | Grid/MazeComponent.cs:209-255 | the loop body computes one step of the walk as written |
| Maze.WalkMissesCell | Grid/MazeComponent.cs:247-255 | on a 1×3 grid with draws 1 then 0 the walk as written ends with the cell (0, 2) never visited and only one step, so the maze is not spanning |
| Maze.StartInvIntended | Grid/MazeComponent.cs:191-203 | the start also satisfies the backtracking invariant of the corrected walk |
| Maze.StepIntendedFacts | Grid/MazeComponent.cs:207-256 | each step of the corrected walk (returning to the new stack top after a pop) keeps both invariants and lowers the measure |
| Maze.PopFacts | Grid/MazeComponent.cs:247-255 | a pop of the corrected walk keeps both invariants and lowers the measure |
| Maze.PopKeepsClosed | Grid/MazeComponent.cs:247-255 | a popped cell has all its grid neighbours visited, so visited cells off the stack stay closed |
| Maze.RunIntendedKeeps | Grid/MazeComponent.cs:207 | any property each step keeps, with a measure each step lowers, holds when the corrected walk ends, with an empty stack |
| Maze.Spreads | Grid/MazeComponent.cs:112-141 | a set of cells containing a grid cell and closed under side-sharing neighbours contains the whole grid |
| Maze.AlongRow | Grid/MazeComponent.cs:131-136 | such a set contains the whole row of any of its cells |
| Maze.AlongColumn | Grid/MazeComponent.cs:123-128 | such a set contains the whole column of any of its cells |
| Maze.WalkIntendedVisitsAll | Grid/MazeComponent.cs:188-256 | the corrected walk visits every cell and takes exactly rows·cols - 1 side-sharing steps: a spanning tree of the grid |
| Maze.StepsKeepGood | Grid/MazeComponent.cs:207-256 | every step of the corrected walk keeps its invariant and lowers the measure |
| Maze.DoneCoversGrid | Grid/MazeComponent.cs:207 | when the corrected walk's stack empties, every grid cell is visited and there are rows·cols - 1 steps |
| RandomDraws.Wrap32 | Grid/RecursiveCellPartitioningComponent.cs:343 | C# `int` addition: the result is a 32-bit signed value congruent to the exact sum modulo 2^32, and equal to it when no overflow occurs |
| RandomDraws.Half | Grid/RecursiveCellPartitioningComponent.cs:396 | C# `int` division by 2 truncates toward zero: the remainder has the sign of the dividend and magnitude at most 1 |
| CellPartitioning.ConcatOrdered | Grid/RecursiveCellPartitioningComponent.cs:145-158 | appending a row-major ordered list whose cells all come later keeps it ordered |
| CellPartitioning.GetNeighbours | Grid/RecursiveCellPartitioningComponent.cs:138-161 | the nested offset loops produce the window of grid cells around the cell, in row-major order |
| CellPartitioning.RowCellsMembers | Grid/RecursiveCellPartitioningComponent.cs:147-157 | one pass of the inner loop adds exactly the grid cells of one row within the column offsets |
| CellPartitioning.RowCellsOrdered | Grid/RecursiveCellPartitioningComponent.cs:147-157 | one pass of the inner loop lists its cells by increasing column |
| CellPartitioning.BlockMembers | Grid/RecursiveCellPartitioningComponent.cs:145-158 | the first k passes of the outer loop add exactly the grid cells of those rows and columns |
| CellPartitioning.BlockOrdered | Grid/RecursiveCellPartitioningComponent.cs:145-158 | the outer loop lists its cells in row-major order |
| CellPartitioning.WindowExact | Grid/RecursiveCellPartitioningComponent.cs:138-161 | the neighbour list holds exactly the grid cells within Chebyshev distance M - 1 of the cell, each once, in row-major order, and the cell itself when M ≥ 1 |
| CellPartitioning.OnRing | Grid/RecursiveCellPartitioningComponent.cs:121-134 | the two-branch test of `RoundNeighbours` holds exactly at Chebyshev distance `step` |
| CellPartitioning.RoundNeighbours | Grid/RecursiveCellPartitioningComponent.cs:115-137 | the loop keeps the neighbours on the ring of the given step, in order |
| CellPartitioning.RingMembers | Grid/RecursiveCellPartitioningComponent.cs:115-137 | the ring holds exactly the listed cells at Chebyshev distance `step`, and is no longer than the list |
| CellPartitioning.CheckConditions | Grid/RecursiveCellPartitioningComponent.cs:73-113 | the nested loops return, for each cell of the second list in turn, the positions of the first list the two comparisons rule out |
| CellPartitioning.HitsMembers | Grid/RecursiveCellPartitioningComponent.cs:81-97 | for one cell of the second list, the inner loop lists exactly the positions it rules out, each at most once |
| CellPartitioning.RemovalsMembers | Grid/RecursiveCellPartitioningComponent.cs:73-113 | a position is returned exactly when some cell of the second list rules it out |
| CellPartitioning.RemovalsLength | Grid/RecursiveCellPartitioningComponent.cs:73-113 | at most one position per pair of cells is returned |
| CellPartitioning.RemovalsRepeat | Grid/RecursiveCellPartitioningComponent.cs:73-113 | a position ruled out by two cells of the second list, equal or distinct, is returned twice, which is why the caller de-duplicates |
| CellPartitioning.FindIndex | Grid/RecursiveCellPartitioningComponent.cs:257 | -1 exactly when the cell is absent, otherwise the position of its first occurrence |
| CellPartitioning.VisitedInMembers | Grid/RecursiveCellPartitioningComponent.cs:254-264 | one ring contributes exactly its cells that are in the neighbour list and visited |
| CellPartitioning.TakenMembers | Grid/RecursiveCellPartitioningComponent.cs:248-307 | the rings 1 to j contribute exactly the visited neighbours at Chebyshev distance 1 to j |
| CellPartitioning.GroupMembers | Grid/RecursiveCellPartitioningComponent.cs:266-304 | a direction's list holds exactly the contributed cells lying in that direction from the drawn cell |
| CellPartitioning.MarkStep | Grid/RecursiveCellPartitioningComponent.cs:262-305 | flagging a visited ring cell and filing it under its direction keeps flags and direction lists in step with the cells seen |
| CellPartitioning.MarkSkip | Grid/RecursiveCellPartitioningComponent.cs:258-262 | a ring cell that is absent from the neighbour list or unvisited changes nothing |
| CellPartitioning.Classify | Grid/RecursiveCellPartitioningComponent.cs:266-304 | the eight-branch chain appends the cell to the list of its direction, and to none when it is the drawn cell itself |
| CellPartitioning.MarkedStart | Grid/RecursiveCellPartitioningComponent.cs:219-243 | all flags false and eight empty lists agree with no cells seen |
| CellPartitioning.MarkRing | Grid/RecursiveCellPartitioningComponent.cs:254-306 | one ring's loop flags and files exactly the ring's visited neighbours |
| CellPartitioning.MarkTaken | Grid/RecursiveCellPartitioningComponent.cs:219-307 | the flags mark exactly the visited neighbours on rings 1 to M - 1, and each direction's list holds those lying in its direction |
| CellPartitioning.RuleMeansInRect | Grid/RecursiveCellPartitioningComponent.cs:317-326 | for a visited cell q in any direction, the comparisons that direction's call uses rule out p exactly when q lies in the block of cells spanned by the drawn cell and p |
| CellPartitioning.IndexOf | Grid/RecursiveCellPartitioningComponent.cs:317-326 | the index of a direction in call order is below 8 exactly for the eight directions |
| CellPartitioning.IndexOfDirection | Grid/RecursiveCellPartitioningComponent.cs:317-326 | direction and call index are inverse |
| CellPartitioning.DirectionOfIndex | Grid/RecursiveCellPartitioningComponent.cs:266-304 | every cell other than the drawn one lies in one of the eight directions, and its index names it |
| CellPartitioning.RemovedIsBlocked | Grid/RecursiveCellPartitioningComponent.cs:317-326 | a position one call rules out has a visited cell in its block |
| CellPartitioning.BlockedIsRemoved | Grid/RecursiveCellPartitioningComponent.cs:317-326 | a position whose block holds a visited cell of some direction is ruled out by that direction's call |
| CellPartitioning.AddGroup | Grid/RecursiveCellPartitioningComponent.cs:317-326 | each call adds exactly the positions blocked by the visited cells of its direction |
| CellPartitioning.AllGroups | Grid/RecursiveCellPartitioningComponent.cs:309-326 | after the flags and all eight calls, a position is collected exactly when its block holds a visited cell |
| CellPartitioning.RuleOutLarger | Grid/RecursiveCellPartitioningComponent.cs:317-319 | the three calls for larger rows add the positions their directions block |
| CellPartitioning.RuleOutSmaller | Grid/RecursiveCellPartitioningComponent.cs:321-323 | the three calls for smaller rows add the positions their directions block |
| CellPartitioning.RuleOutEqual | Grid/RecursiveCellPartitioningComponent.cs:325-326 | the two calls for the same row add the positions their directions block |
| CellPartitioning.RuleOut | Grid/RecursiveCellPartitioningComponent.cs:309-328 | `to_remove` ends distinct and holds exactly the neighbour positions whose block from the drawn cell contains a visited cell of rings 1 to M - 1 |
| CellPartitioning.Candidates | Grid/RecursiveCellPartitioningComponent.cs:215-340 | the candidates are the window cells whose block from the drawn cell crosses no visited cell of rings 1 to M - 1, followed by the drawn cell itself |
| CellPartitioning.DecodeEncode | Grid/RecursiveCellPartitioningComponent.cs:388 | a grid cell's flat index m[0]·cols + m[1] lies below rows·cols and decodes back to the cell |
| CellPartitioning.EncodeDecode | Grid/RecursiveCellPartitioningComponent.cs:207-208 | a flat index below rows·cols decodes to a grid cell whose flat index is the index again |
| CellPartitioning.Without | Grid/RecursiveCellPartitioningComponent.cs:393 | the filtered pool holds exactly the indices not in the removal list, stays distinct and does not grow |
| CellPartitioning.MarkCovered | Grid/RecursiveCellPartitioningComponent.cs:377-390 | the neighbours the rectangle covers become visited and their flat indices listed, and nothing else |
| CellPartitioning.PartitionStart | Grid/RecursiveCellPartitioningComponent.cs:192-196 | the full pool 0 .. rows·cols - 1 with no rectangle and nothing visited satisfies the loop invariant |
| CellPartitioning.RemoveAtMembers | Grid/RecursiveCellPartitioningComponent.cs:203-204 | removing the drawn position leaves every other index, once |
| CellPartitioning.RectanglesStep | Grid/RecursiveCellPartitioningComponent.cs:398 | adding a rectangle from the drawn cell keeps all rectangles within the grid and their start cells distinct and out of the pool |
| CellPartitioning.CoverageStep | Grid/RecursiveCellPartitioningComponent.cs:387-393 | every grid cell stays in the pool, visited, or the start of a rectangle |
| CellPartitioning.PartitionStep | Grid/RecursiveCellPartitioningComponent.cs:198-400 | one iteration keeps the loop invariant |
| CellPartitioning.Partition | Grid/RecursiveCellPartitioningComponent.cs:192-400 | every rectangle joins a drawn cell to itself or a window cell of the grid; no cell starts two rectangles; every grid cell is covered or starts a rectangle; there are at most rows·cols rectangles and at least one for a non-empty grid |
| CellPartitioning.SolveInstance | Grid/RecursiveCellPartitioningComponent.cs:48-411 | the component outputs its rectangles exactly when the grid has at least four rows and two columns, because of the trailing `Rectangles[0]` and `Nested.Branch(3)[1]` |
| CellPartitioning.SolveInstanceIntended | Grid/RecursiveCellPartitioningComponent.cs:48-409 | without the trailing statements the component always outputs the partition, empty exactly for an empty grid |
| CleanPolyline.FirstDropped | Curve/CleanPolyline.cs:81-95 | the `for` loop stops at the first interior point whose turn angle passes the test, or at none exactly when no interior point passes it |
| CleanPolyline.FirstDroppedFrom | Curve/CleanPolyline.cs:81-95 | scanning from position i finds the first passing interior point at or after i, or none exactly when there is none |
| CleanPolyline.Cleaned | Curve/CleanPolyline.cs:73-96 | the cleaned polyline is no longer than the input and keeps at least two points when the input has two |
| CleanPolyline.RemovalStep | Curve/CleanPolyline.cs:89-93 | removing the first passing point and restarting gives the same final polyline, with the kept positions shifted past the removed one |
| CleanPolyline.CleanedKeepsEnds | Curve/CleanPolyline.cs:73-96 | the result is the input with some interior points left out, in order, and keeps the first and last points |
| CleanPolyline.NothingDropped | Curve/CleanPolyline.cs:76-96 | when no interior point passes the test the polyline is returned unchanged |
| CleanPolyline.RangeIsSubsequence | Curve/CleanPolyline.cs:68 | the whole input is a subsequence of itself keeping both ends |
| CleanPolyline.KeptAfterRemoval | Curve/CleanPolyline.cs:91 | what is kept from the shortened list is kept from the original, with positions shifted past the removed point |
| CleanPolyline.CleanedIsFixpoint | Curve/CleanPolyline.cs:76-96 | no interior point of the result passes the test |
| CleanPolyline.CleanedIdempotent | Curve/CleanPolyline.cs:76-96 | cleaning a cleaned polyline changes nothing |
| CleanPolyline.RemovePoints | Curve/CleanPolyline.cs:68-96 | the `while`/`for`/`break` loop computes the cleaned polyline |
| CleanPolyline.CleanPolylineBelow | Curve/CleanPolyline.cs:44-104 | a non-polyline input gives the error "P must be a polyline"; otherwise the output is the polyline cleaned of points whose turn angle is below a |
| CleanPolyline.CloseUp | Curve/CleanPolyAngleGreaterThanComponent.cs:99-123 | for a closed input the output is closed (first point equals last) with at least two points; an open input is left as cleaned |
| CleanPolyline.CleanPolylineAbove | Curve/CleanPolyAngleGreaterThanComponent.cs:45-130 | a non-polyline input gives the error; otherwise the output is the polyline cleaned of points turning by more than a, then closed up, and it is closed whenever the input is |
| Snowflake.SpreadSplitsLine | Curve/RecursiveSnowflakeComponent.cs:80-117 | each line becomes four: start to midpoint, midpoint to end, and two branches from the midpoint whose tips are placed symmetrically about the point at `Depth` along the line |
| Snowflake.NextGenerationLayout | Curve/RecursiveSnowflakeComponent.cs:74-120 | the next generation has four lines per input line, the k-th input line's four at positions 4k .. 4k + 3 |
| Snowflake.SnowflakeStep | Curve/RecursiveSnowflakeComponent.cs:74-120 | the `foreach` loop produces the next generation |
| Snowflake.Polar | Curve/RecursiveSnowflakeComponent.cs:123-141 | `rotations` copies of the line, the j-th rotated by j times the integer angle step, every angle in [0, 360) |
| Snowflake.StepsWithinTurn | Curve/RecursiveSnowflakeComponent.cs:128-132 | the rotation angles of the copies stay below one full turn |
| Snowflake.UnevenArms | Curve/RecursiveSnowflakeComponent.cs:128 | with 7 arms the integer division gives a 51° step, leaving a 54° gap between the last arm and the first |
| Snowflake.AngleStepIntended | Curve/RecursiveSnowflakeComponent.cs:128 | the real-valued step times the number of arms is exactly 360° |
| Snowflake.PolarIntended | Curve/RecursiveSnowflakeComponent.cs:123-141 | the corrected polar array rotates the j-th copy by j times the exact step |
| Snowflake.IterateCount | Curve/RecursiveSnowflakeComponent.cs:144-161 | n generations multiply the number of lines by 4^n |
| Snowflake.Recursive | Curve/RecursiveSnowflakeComponent.cs:144-161 | with no iterations the list is unchanged; otherwise only the last generation is appended to it |
| Snowflake.RecursiveSnowflake | Curve/RecursiveSnowflakeComponent.cs:48-184 | fewer than one arm gives the error "B must be postive"; no iterations give no lines; otherwise the output is exactly the i-th generation of the B copies of the base line rotated by the integer step, B·4^i lines |
| Sorting.ByKeyOrdered | Data/SortByDistanceComponent.cs:68 | comparing by a real key is a consistent order, and a sequence is ordered by that comparison exactly when its keys never decrease |
| Sorting.Sort | Data/SortPointsByXComponent.cs:64 | the sort leaves a permutation of the list and, whenever the comparison is consistent, no element comes after a later one |
| DataSorts.IndexedSort | Data/SortPointsByXComponent.cs:56-73 | tagging each item with its index, sorting the tags and unpacking them gives a permutation whose indices are a permutation of 0..n-1, item m being input item index[m]; a consistent comparison leaves it ordered |
| DataSorts.SortPointsByX | Data/SortPointsByXComponent.cs:44-78 | the points are the input points permuted, each paired with its original index, in non-decreasing X |
| DataSorts.SortPointsByZ | Data/SortPointsByZComponent.cs:42-76 | the points are the input points permuted, each paired with its original index |
| DataSorts.XAgainstZMisorders | Data/SortPointsByZComponent.cs:62 | comparing one point's X with the other's Z is not a consistent order, and the list (0,0,1), (2,0,0) already counts as ordered under it although its Z values decrease |
| DataSorts.SortPointsByZIntended | Data/SortPointsByZComponent.cs:42-76 | comparing Z with Z gives the input points permuted, with their original indices, in non-decreasing Z |
| DataSorts.SortByDistance | Data/SortByDistanceComponent.cs:46-87 | the points are the input permuted with their original indices, each distance is that point's distance to C, and the distances never decrease |
| DataSorts.Unitize | Data/SortByVectorComponent.cs:66 | a zero-length vector is left unchanged |
| DataSorts.ScalarProjection | Data/SortByVectorComponent.cs:56-62 | the projection is a finite number exactly when the reference vector has non-zero length, and then it times that length equals the dot product |
| DataSorts.DoubleOrderConsistent | Data/SortByVectorComponent.cs:89 | comparing doubles, NaN and the infinities included, is a consistent order |
| DataSorts.KeyOrderConsistent | Data/SortByVectorComponent.cs:89 | comparing items by a key under a consistent order of keys is itself consistent |
| DataSorts.SortByVector | Data/SortByVectorComponent.cs:45-103 | the points are the input permuted with their original indices, each key is the point's scalar projection onto the unitised vector, and the keys are ordered as doubles |
| DataSorts.SortByLength | Data/SortByLengthComponent.cs:49-95 | the curves are the input permuted with their original indices, each length is that curve's length, and the lengths never decrease |
| DataSorts.SortCurveByX | Data/SortCurveByXComponent.cs:49-101 | the error "t must be postive" for a negative t, "t must be inside the curve range" when t exceeds some curve's length, otherwise the curves permuted with their indices in non-decreasing X of the point at length t |
| TreeBranch.Select | Data/TreeBranchComponent.cs:47-77 | a negative index gives "Index must be postive", an empty tree a division by zero; otherwise the branch chosen is the one whose position is congruent to the index modulo the number of paths |
| TreeBranch.SelectInRange | Data/TreeBranchComponent.cs:70-72 | an index inside the tree selects the branch at that position |
| TreeBranch.SelectWraps | Data/TreeBranchComponent.cs:70 | adding the number of paths to the index selects the same branch |
| ImageMetadata.Orientation | Image/ImageOrientationComponent.cs:59-111 | no Exif directory leaves every output "Data not available"; a directory without the tag fails; with the tag the extraction succeeds and the angle is absent exactly when the orientation is "Unknown orientation" |
| ImageMetadata.OrientationAngleIdentifiesTag | Image/ImageOrientationComponent.cs:83-105 | an angle is given exactly for tags 1, 3, 6 and 8, and the angle determines the tag |
| ImageMetadata.ColorSpaceName | Image/ImageColorProfileComponent.cs:107-133 | the name of a colour-space code is never one of the placeholders |
| ImageMetadata.ColorSpaceNamesDistinct | Image/ImageColorProfileComponent.cs:109-132 | the name is "Unknown" exactly for codes other than 1, 2, 3, 4, 5 and 65535, and each of those six names determines its code |
| ImageMetadata.ColorProfile | Image/ImageColorProfileComponent.cs:62-148 | the profile is the ICC version, else the profile class, else "Unknown profile", or the placeholder without an ICC directory; without an Exif directory the other outputs keep the placeholder, with one the colour space is "Not available" exactly when its tag is missing and is otherwise the code's name, and the photometric interpretation is "Not available" exactly when its description is missing or empty |
| ImageMetadata.Split | Image/ImageDateTimeComponent.cs:80 | splitting gives at least one part and no part holds the separator |
| ImageMetadata.JoinSplit | Image/ImageDateTimeComponent.cs:80 | joining the parts with the separator gives back the string |
| ImageMetadata.SplitTwo | Image/ImageDateTimeComponent.cs:82-86 | a string that splits into two parts is the first part, the separator and the second part |
| ImageMetadata.SplitAtSeparator | Image/ImageDateTimeComponent.cs:80 | a separator-free prefix followed by the separator splits off as the first part; a separator-free string is one part |
| ImageMetadata.DateTime | Image/ImageDateTimeComponent.cs:58-93 | without a directory all outputs are "Data not available"; a description with exactly one space is the date, a space and the time; any other description leaves date and time as the placeholder |
| ImageMetadata.SplitPlaceholder | Image/ImageDateTimeComponent.cs:72-80 | the fallback text "Not available" splits into two parts |
| ImageMetadata.DateTimeSplitsPlaceholder | Image/ImageDateTimeComponent.cs:72-86 | a directory without the date-time tag reports the date "Not" and the time "available" |
| ImageMetadata.DateTimeIntended | Image/ImageDateTimeComponent.cs:58-93 | a date or time other than the placeholder comes only from a real tag value that is that date, a space and that time, and a tag with one space is always split that way |

## Left out

- Rhino and Grasshopper geometry (point distance, `Unitize` length, vector angles, rotation, curve length and the point at a length, polygon containment) is taken as function parameters; floating-point rounding is not modelled, reals stand for doubles except where NaN and the infinities matter (`DataSorts.ScalarProjection`).
- `System.Random` is the parameter `draw`, constrained only to return a value below its bound; the exact .NET generator is not modelled.
- Reading image files and the MetadataExtractor library are replaced by what a directory lookup returns; `ImageCamara`, `ImageFileInfo`, `ImageGPSCoordinates` and `ImageSize` are not part of this model.
- Exceptions are modelled as `Failure` values carrying the exception's or the runtime message's text; a component that stops on an error outputs nothing.
- Grasshopper data trees (the grid `G`, the `Sets` tree, `graphTree`) are sequences of branches; `GH_Path` numbering and null or non-polyline grid cells are not modelled.
- Enumeration order of `HashSet` and `Dictionary` (the unique points of `GraphFromLines`, the edge set of `MinimumSpanningTree`) is fixed as insertion order; results are proved for that order only.
- `Sorting.Sort`: the .NET introspective sort is modelled as an insertion sort; both produce an ordered permutation, but .NET's sort is not stable, so the order of equal keys is not claimed.
- The maze's `Cell` objects, their walls, `DeleteWall` and the drawing of cell lines are left out; the walk and the removal of duplicate lines are modelled.
- The maze seed update `S += 1` is unbounded here; 32-bit wrap-around is modelled only for the seed arithmetic of the cell partitioning (`RandomDraws.Wrap32`).
- `IsClosed` tolerance, non-rectangular grids and an overflow of `rows * cols` are not modelled.
- The rectangles of the cell partitioning are output as the pairs of grid cells at their corners rather than as Rhino rectangles; the `Visited` data tree is a set of cells.
- The three quadrant dictionaries of the cell partitioning are one map keyed by the pair of coordinate signs.
- `Closeness.Closeness`: requires a non-empty graph, because `Centrality.Min()` throws on an empty list; for the weighted variant it requires a point per vertex.
- `Betweenness.Betweenness`: requires a non-empty graph, for the same reason.
- `Bipartite.IsGraphBipartite`: requires a point per vertex; the "exactly when bipartite" direction is proved for undirected (symmetric) graphs only, which is what `GraphFromLines` produces.
- `Bipartite.IsGraphBipartite`: the discovery order is stated as "each vertex a seed or a neighbour of an earlier vertex, seeds in increasing index", not as the exact first-in-first-out order of the queue and of each branch's neighbours; the seeds are named exactly only when the result is true, since a clash stops the outer loop early.
- `Maze.DepthFirstWalk`: requires at least one row and one column; the source throws on an empty grid (a division by zero or an index out of range) and that error is not modelled.
- `CellPartitioning.Candidates`: states which cells are candidates, not the order in which they are listed.
- `CellPartitioning.Partition`: requires the seed to be a 32-bit integer, as the component's integer input is.
- `DataSorts.SortPointsByZ`: states only that the result is a permutation, since its comparison is not a consistent order (see Findings). .NET's `List.Sort` may throw `InvalidOperationException` on such a comparison (a point with X greater than Z sorts after itself); the model covers only runs in which the sort completes.
- `Bfs.ShortestPath`, `Closeness.Closeness`, `Betweenness.Betweenness`, `Bipartite.IsGraphBipartite`: require every neighbour index to be below the number of branches (`ValidGraph`) and, for `Bfs.ShortestPath`, the start vertex to be in the graph; the source throws an index error on `Visited[j]` or its arrays for such input, and that error is not modelled.
- `SpanningTree.MinimumSpanningTree`: requires every edge end to have a point; the source throws an index error otherwise.
- `CellPartitioning.Partition`: does not carry forward that each new rectangle's block holds no cell covered before it was drawn; `CellPartitioning.Candidates` states that for each draw, on the rings around the drawn cell.

## Findings

| source | as written | input that shows it | evidently intended | confidence | as-written member | corrected member |
|---|---|---|---|---|---|---|
| Data/SortPointsByZComponent.cs:62 | compares the X of one point with the Z of the other | the points (0,0,1), (2,0,0) count as sorted although their Z values decrease | compare Z with Z | high, not executed | DataSorts.XAgainstZMisorders | DataSorts.SortPointsByZIntended |
| Image/ImageDateTimeComponent.cs:72-86 | the fallback text "Not available" for a missing tag goes through the split too | an image with an Exif directory but no date-time tag gives the date "Not" and the time "available" | keep the placeholders when the tag is missing | high, not executed | ImageMetadata.DateTimeSplitsPlaceholder | ImageMetadata.DateTimeIntended |
| Curve/RecursiveSnowflakeComponent.cs:128 | `360 / rotations` is an integer division | with 7 arms the step is 51°, leaving a 54° gap between the last arm and the first | divide the full turn evenly | high, not executed | Snowflake.UnevenArms | Snowflake.AngleStepIntended |
| Grid/MazeComponent.cs:247-255 | a dead end pops the stack, whose top is the dead-end cell itself, and the loop ends as soon as the stack is empty, even when the last popped cell still has unvisited neighbours | a 1×3 grid with draws 1 then 0 stops with the cell (0, 2) never visited | backtrack to the cell on top of the stack, so every cell is visited | high, not executed | Maze.WalkMissesCell | Maze.WalkIntendedVisitsAll |
| Grid/RecursiveCellPartitioningComponent.cs:403-405 | unused trailing statements read `Rectangles[0]` and `Nested.Branch(3)[1]` | a 3 by 3 grid fails after partitioning | output the partition for every grid | medium, not executed | CellPartitioning.SolveInstance | CellPartitioning.SolveInstanceIntended |
