# Bacon game: degrees of separation, in Dafny

This project models the core of a "degrees of separation" game played over movie
casts. Actors are vertices of a labelled graph. Two different actors who appeared in
a common movie are joined by an edge in each direction. The edge label is the set of
movies they share. The game keeps:

- a current *center of the universe*;
- the breadth-first shortest-path tree from that center, whose edges point from
  child to parent;
- the tree taken at start-up, with Kevin Bacon as the center.

The queries answered over them are:

- actors ranked by in-degree;
- actors ranked by separation from the center;
- the actors missing from the tree;
- the path from an actor to the center;
- the top or bottom `n` centers ranked by average separation.

Modules, one per concern:

- `LabeledGraph` (graph.dfy): the graph value and the operations the algorithms
  call. Each insertion returns the new graph.
- `Reachability` (reach.dfy): `Within(g, s, k)`, the vertices at most `k` edges from
  `s`. It also defines reachability, shortest distance, and the BFS layers used to
  prove breadth-first search correct.
- `PathTree` (pathtree.dfy): trees whose edges point to a parent one level up, with
  their depths, descendants and depth sums.
- `BaconGraphLib` (baconlib.dfy): `bfs`, `getPath`, `missingVertices`,
  `averageSeparation` and its recursive helper. The loops are methods, each proved
  against the definitions above.
- `Sorting` (sorting.dfy): the list sort the rankings use, proved to return a sorted
  permutation.
- `CastGraph` (castgraph.dfy): `buildGraph`'s scan over each cast, and the graph it
  produces, stated as a function of the casts.
- `Bacon` (bacon.dfy): the game's static state as the class `Game`, and its queries.

Main results:

- `Bfs` returns a tree whose vertices are exactly the actors reachable from the
  source. The depth of each is its shortest distance, and each tree edge reverses a
  graph edge and keeps that edge's label.
- `GetPath` returns `depth + 1` vertices from `v` to the root, joined by `depth` tree
  edges.
- `AverageSeparation` computes the sum of the depths with its recursive helper, over
  a denominator equal to the number of non-root vertices.
- `BuildGraph` joins exactly the co-stars, both ways, with equal labels. Labels only
  grow.
- `DegreeList`, `SeparationList` and `AvgSeparationList` return exactly the actors in
  range, without duplicates, in the required order.

## Model

| member | source | states |
|---|---|---|
| `LabeledGraph.Empty` | Bacon.java:20 | A new graph has no vertices and no edges. |
| `LabeledGraph.Graph.InsertVertex` | Bacon.java:180 | Adds the vertex, keeps every edge, and keeps the graph well formed. |
| `LabeledGraph.Graph.InsertDirected` | BaconGraphLib.java:31 | Creates or overwrites a->b with the label, adds both endpoints, and leaves every other edge and label as it was. |
| `LabeledGraph.Graph.InsertUndirected` | Bacon.java:284 | Writes the label on a->b and on b->a, leaves every other edge as it was, and keeps a symmetric graph symmetric. |
| `LabeledGraph.Graph.HasVertex` | Bacon.java:428 | Tests membership of the vertex set. In a well-formed graph an absent actor has no in- or out-neighbours. |
| `LabeledGraph.Graph.HasEdge` | Bacon.java:283 | Tests for the directed edge a->b. In a well-formed graph both endpoints of an edge are vertices. |
| `LabeledGraph.Graph.GetLabel` | Bacon.java:287 | The label of a->b. In a symmetric graph b->a exists and carries the same label. |
| `LabeledGraph.Graph.OutDegree` | BaconGraphLib.java:46 | 0 exactly when the vertex has no out-edge. In a well-formed graph it is at most the number of vertices. |
| `LabeledGraph.Graph.InDegree` | Bacon.java:359 | 0 exactly when the vertex has no in-edge. In a well-formed graph it is at most the number of vertices. |
| `LabeledGraph.Graph.NumVertices` | Bacon.java:338 | 0 exactly when the graph has no vertex. |
| `LabeledGraph.Graph.NumEdges` | BaconGraphLib.java:88 | 0 exactly when the graph has no edge. |
| `LabeledGraph.Graph.OutNeighbors` | BaconGraphLib.java:26 | `w` is an out-neighbour of `v` exactly when v->w is an edge. |
| `LabeledGraph.Graph.InNeighbors` | BaconGraphLib.java:99 | `w` is an in-neighbour of `v` exactly when w->v is an edge. |
| `LabeledGraph.SymmetricDegrees` | Bacon.java:359 | In the co-star graph, in-neighbours and out-neighbours coincide, so the in-degree counts an actor's co-stars. |
| `Reachability.Post` | BaconGraphLib.java:26-32 | The vertices one edge away from a set are exactly the targets of its out-edges. |
| `Reachability.DistUnique` | BaconGraphLib.java:15-37 | A vertex has at most one shortest distance from a source. |
| `Reachability.DistIsLeast` | BaconGraphLib.java:15-37 | The shortest distance is no longer than any path to the vertex. |
| `Reachability.SameComponent` | Bacon.java:308-313 | In the co-star graph, two actors who reach each other reach the same actors. |
| `PathTree.Parent` | BaconGraphLib.java:59-61 | A non-root vertex of a path tree has exactly one out-neighbour, its parent, one level up. |
| `PathTree.OutDegreeInTree` | BaconGraphLib.java:45-57 | In a path tree, out-degree 0 marks the root and every other vertex has out-degree 1. |
| `PathTree.DepthZeroIsRoot` | BaconGraphLib.java:57 | Only the root has depth 0. |
| `PathTree.Depths` | BaconGraphLib.java:57-62 | A ranked tree has exactly one depth assignment. |
| `PathTree.DescOfRoot` | BaconGraphLib.java:99-101 | The vertices whose chain of parent edges reaches the root are every other vertex of the tree. |
| `PathTree.SeparationWeightAtLeast` | BaconGraphLib.java:88 | When every depth is at least 1, the depth sum is at least the number of vertices. |
| `BaconGraphLib.Bfs` | BaconGraphLib.java:15-37 | The tree holds exactly the reachable vertices. The depth of each is its shortest distance. Each tree edge runs from child to parent, reverses a graph edge and carries its label. The source has out-degree 0, and there is one edge per non-source vertex. |
| `BaconGraphLib.Visit` | BaconGraphLib.java:23-34 | One round of the outer loop. The dequeued head `u` of the queue is in the tree afterwards. The visited set grows by exactly the out-neighbours of `u`. The queue is the old queue without its head, followed by exactly the newly visited vertices. Old tree edges and labels stay. The only new edges are v->u for each newly visited `v`, carrying the label of u->v, with `v` one level below `u`. The search invariant is kept, and either new vertices are seen or the queue gets shorter. |
| `BaconGraphLib.Explore` | BaconGraphLib.java:26-33 | The neighbour loop. The visited set grows by exactly the out-neighbours of `u`. Those not seen before are appended to the queue, behind its old contents. Each is hung below `u` by the edge v->u with the label of u->v, one level below `u`. Old tree edges, labels and depths stay, and no other edge appears. The search invariant is kept. |
| `BaconGraphLib.Examine` | BaconGraphLib.java:27-32 | One neighbour `v` of `u`. Afterwards `v` is visited. If it was new, it is appended to the queue and the visited set gains exactly `v`; if it was already seen, visited set, queue and tree are unchanged. The description of the growth since `u` was dequeued is kept. |
| `BaconGraphLib.GetPath` | BaconGraphLib.java:42-64 | Empty when `v` is absent or is the root. Otherwise the path starts at `v`, ends at the root, follows tree edges, and has `depth(v) + 1` entries. |
| `BaconGraphLib.MissingVertices` | BaconGraphLib.java:70-81 | Exactly the vertices of the graph that the subgraph lacks. |
| `BaconGraphLib.AverageSeparationHelper` | BaconGraphLib.java:94-103 | Started on `r` at level `lvl`, returns the sum over the strict descendants of `r` of their level below the starting vertex. |
| `BaconGraphLib.AverageSeparation` | BaconGraphLib.java:86-89 | The numerator is the sum of the depths of the non-root vertices. The denominator is the tree's edge count, which equals the number of non-root vertices and is at most the numerator. |
| `Sorting.SortBy` | Bacon.java:364 | The result is a permutation of the input, in non-decreasing key order. |
| `Sorting.SortedPrefix` | Bacon.java:340 | A prefix of a sorted list is sorted, and its keys are no larger than any key after it. |
| `Sorting.DistinctCount` | Bacon.java:338 | A duplicate-free list of the members of a set is as long as the set. |
| `CastGraph.ToSeq` | Bacon.java:279 | Lists every actor of the cast exactly once, in some order: as many entries as actors, and the same members. |
| `CastGraph.AddRow` | Bacon.java:282-288 | One pass of the inner loop adds the movie on the edges between `actors[c]` and every later actor, both ways. An edge that was missing starts from the empty label. |
| `CastGraph.AddCast` | Bacon.java:279-290 | After the scan of one movie, the graph is the old one with the movie added on exactly the ordered pairs of two different cast members. |
| `CastGraph.Collapse` | Bacon.java:277-292 | After the loop over all movies, an edge is an old edge or a co-star pair. Its label is the old label plus the movies the two actors share. |
| `CastGraph.SharedPairsIff` | Bacon.java:278-282 | (a, b) is a co-star pair exactly when a != b and they share a movie. |
| `CastGraph.CollapsedEdge` | Bacon.java:283-287 | a->b is an edge afterwards exactly when it was one before or a and b are different co-stars. Its label is then the old label plus the shared movies. |
| `CastGraph.CoStarsJoined` | Bacon.java:282-287 | Two different actors of a movie are joined both ways. The movie is in their label, and the label is the same in both directions. |
| `CastGraph.LabelsOnlyGrow` | Bacon.java:283-287 | An existing edge is kept, never replaced, and its label only gains movies. |
| `CastGraph.OnlyCoStars` | Bacon.java:278-288 | A movie newly on a label is one both actors appeared in. |
| `CastGraph.NewEdgesAreCoStars` | Bacon.java:283-285 | A new edge joins two different actors of a common movie. |
| `Bacon.Game.constructor` | Bacon.java:14-20 | The center starts as Kevin Bacon, the graph empty, and both trees null. |
| `Bacon.Game.AddActor` | Bacon.java:180 | Each actor read becomes a vertex, and nothing else changes. |
| `Bacon.Game.BuildGraph` | Bacon.java:277-292 | The new graph is the old one with every movie's cast collapsed into it (`Collapse`). The graph stays symmetric, and the center and trees are unchanged. |
| `Bacon.Game.SetCenter` | Bacon.java:427-439 | When `s` is absent, nothing changes. Otherwise the center becomes `s` and the tree becomes a BFS tree of the graph from `s`, with `s` at out-degree 0 and one edge per non-root actor. |
| `Bacon.Game.Start` | Bacon.java:56-57 | The center is kept. When the initial center is an actor of the graph, the tree becomes the BFS tree from it; otherwise the tree is unchanged (null after construction). Either way the Bacon tree is that tree. |
| `Bacon.Game.DegreeList` | Bacon.java:356-366 | Exactly the tree's actors whose in-degree is in [low, high], each once, in non-increasing in-degree order. |
| `Bacon.Game.SeparationList` | Bacon.java:402-422 | Exactly the tree's actors other than the center whose separation is in [low, high], each once, in non-decreasing separation order. |
| `Bacon.Game.AvgSeparationList` | Bacon.java:298-350 | Empty for 0 and for a count larger than the Bacon universe. Otherwise it holds exactly `abs(num)` distinct actors of the Bacon universe, sorted by total separation (ascending for positive `num`, descending for negative). No unlisted actor of the universe ranks ahead of a listed one. |
| `Bacon.StepsAreDistances` | Bacon.java:410 | In a BFS tree, an actor's separation (path length minus one) is its shortest distance in the graph. |
| `Bacon.CenterTree` | Bacon.java:433 | The BFS tree from `s` is a ranked tree over actors of the graph, and has one edge per non-root actor. |
| `Bacon.PathTreeInGraph` | BaconGraphLib.java:25-31 | A BFS tree only holds vertices of the graph. |
| `Bacon.PathTreesAgree` | Bacon.java:433 | Two BFS trees from the same center have the same actors and the same depths. |
| `Bacon.TotalSeparationIs` | Bacon.java:313 | Every BFS tree from an actor has the same total separation. |
| `Bacon.TotalSeparationOf` | Bacon.java:313 | Runs BFS from the actor and returns the numerator of its average separation. |
| `Bacon.TopOfSorted` | Bacon.java:338-343 | The first `n` of a list sorted by total separation lead every actor left out. |
| `Bacon.SameUniverse` | Bacon.java:318-334 | Every actor of a center's component has a BFS tree with the same actors and edge count. All averages therefore share one denominator, and comparing averages is comparing totals. |
| `Bacon.Wrap32` | Bacon.java:341-343 | The result is in Java `int` range and congruent to the exact value modulo 2^32. It is the exact value when that fits. |
| `Bacon.ListLengthAsWritten` | Bacon.java:341-343 | The guards as written: none exactly when `num` is 0, a positive `num` exceeds `n`, or the wrapped `num * -1` exceeds `n`. Otherwise the length is the wrapped `abs(num)`. |
| `Bacon.LengthAsWrittenNegative` | Bacon.java:341-343 | For `num` = -2^31, the guards as written pass and ask `subList` for length -2^31. |
| `Bacon.RequestedLength` | Bacon.java:338-349 | The length is exactly `abs(num)` when that is between 1 and the universe size, and none ("Invalid #") exactly when `num` is 0 or `abs(num)` exceeds the size. |
| `Bacon.LengthAsWrittenAgrees` | Bacon.java:338-349 | For every other `int`, the guards as written give the same result as `RequestedLength`. |

## Left out

- The file readers, the command loop, argument parsing and all printing are not
  modelled. This includes the messages of `setCenter` and `getPath` and the average
  that `setCenter` prints. `findInfinite` and `findPath` only print what
  `missingVertices` and `getPath` return.
- The graph class itself (`AdjacencyMapGraph`) is not part of this model. Its
  operations are modelled from how the game uses them.
- Inserting an edge adds its endpoints as vertices.
- `numEdges` counts directed edges.
- `BaconGraphLib.AverageSeparation`: returns the numerator and denominator as
  integers instead of their quotient as a `double`. A tree with only the root has
  denominator 0; Java yields NaN there.
- `Bacon.Game.AvgSeparationList`: ranks by total separation instead of the `double`
  average. Both orders agree: `Bacon.SameUniverse` shows every ranked actor's
  average has the same denominator. Rounding of doubles is not modelled.
- `Bacon.Game.AvgSeparationList`: requires `num` to be a Java `int`, the only values
  `Integer.parseInt` can hand it.
- `Bacon.Game.AvgSeparationList`: requires the Bacon tree to be non-null when `num`
  is not 0. With a null tree Java throws `NullPointerException` there; for `num` 0 it
  returns the empty list before reading the tree, and so does the model.
- `Bacon.Game.DegreeList`: requires the current tree to be non-null. With a null
  tree Java throws `NullPointerException`.
- `Bacon.Game.SeparationList`: requires the current tree to be non-null, for the
  same reason.
- `BaconGraphLib.GetPath`: requires its argument to be a tree whose edges point one
  level up (every caller passes a `bfs` tree). The null-tree case is not modelled.
  On a cycle, the Java loop would not terminate.
- `BaconGraphLib.Bfs`: requires the source to be a vertex of the graph, as
  `setCenter` checks before calling it.
- `Bacon.Game.BuildGraph`: one label set in Java is shared by a->b and b->a. The
  model writes the grown label to both directions instead, so aliasing is not
  modelled. The graph is also assembled in a local value and then stored, rather
  than updated in place.
- Iteration order of `HashSet`s, `keySet` and `toArray` is arbitrary in the model
  (any element may come next). The results are proved for every order.
- Sort stability is not modelled: actors with equal keys may come in any order.
  The sort is modelled on a sequence, not in place on the `ArrayList`.
- `subList` returns a view that aliases the sorted list; the model returns a copy.
- 32-bit overflow is modelled only in `Bacon.ListLengthAsWritten`, the `num * -1`
  guard as written. Degrees, separations and sums are unbounded integers.
- `Bacon.Game.AvgSeparationList`: follows the corrected guard `Bacon.RequestedLength`
  of the Finding below. For `num` = -2^31 it returns an empty list, whereas the
  Java code throws from `subList` and the game stops.
- `getPath` on the root returns an empty list, as the code does. A zero-length
  path `[root]` would also be reasonable, but the code prints "Error" instead.

## Findings

| source | as written | input that shows it | evidently intended | confidence | as-written member | corrected member |
|---|---|---|---|---|---|---|
| Bacon.java:341-343 | The negative branch tests `num * -1 <= baconGraph.numVertices()` in 32-bit `int` arithmetic. For `num` = -2^31 the product wraps back to -2^31, so the guard passes and `subList(0, -1 * num)` gets length -2^31. `subList` then throws, and only `NumberFormatException` is caught (Bacon.java:79), so the game stops. | The command `c -2147483648` (`Bacon.LengthAsWrittenNegative`) | Report "Invalid #" and return an empty list, as for any other count larger than the universe | not executed | `Bacon.ListLengthAsWritten` | `Bacon.RequestedLength` |
