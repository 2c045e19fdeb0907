/**
 * The algorithm library of the game: breadth-first construction of a
 * shortest-path tree, path reconstruction along parent edges, the set of
 * vertices a tree misses, and the average depth of a tree.
 */
module BaconGraphLib {
  import opened LabeledGraph
  import opened Reachability
  import opened PathTree

  /**
   * Breadth-first search from `source`. Every vertex discovered from `u` gets one
   * tree edge pointing back to `u` and carrying the label of the graph edge u->v.
   * The neighbours of a vertex are taken in an unspecified order, so which of
   * several equally short predecessors becomes the parent is not determined;
   * the ghost `depth` gives each tree vertex its depth.
   */
  method Bfs<V(!new), E>(g: Graph<V, E>, source: V) returns (tree: Graph<V, E>, ghost depth: map<V, nat>)
    requires g.Valid() && g.HasVertex(source)
    ensures IsPathTree(g, source, tree, depth)
    ensures tree.HasVertex(source) && tree.OutDegree(source) == 0
    ensures tree.NumEdges() == tree.NumVertices() - 1
  {
    tree := Empty();
    var visited: set<V> := {source};
    var queue: seq<V> := [source];
    depth := map[source := 0];
    ghost var lvl: nat := 0;
    ghost var low: nat := 1;
    ghost var layers := SearchStart(g, source);
    while queue != []
      invariant Searching(g, source, tree, visited, queue, depth, layers, lvl, low)
      invariant |visited| <= |g.verts|
      decreases |g.verts| - |visited|, |queue|
    {
      tree, visited, queue, depth, layers, lvl, low := Visit(g, source, tree, visited, queue, depth, layers, lvl, low);
      SubsetSize(visited, g.verts);
    }
    SearchDone(g, source, tree, visited, depth, layers, lvl, low);
  }

  /** One round of the outer loop: dequeue the head `u` of the queue, put it into the
      tree, and explore its out-neighbours. The neighbours not seen before join the
      back of the queue and hang below `u`. Either new vertices are seen or the queue
      gets shorter. */
  method Visit<V(!new), E>(g: Graph<V, E>, source: V, tree0: Graph<V, E>, visited0: set<V>, queue0: seq<V>,
                           ghost depth0: map<V, nat>, ghost layers0: seq<set<V>>, ghost lvl0: nat, ghost low0: nat)
    returns (tree: Graph<V, E>, visited: set<V>, queue: seq<V>,
             ghost depth: map<V, nat>, ghost layers: seq<set<V>>, ghost lvl: nat, ghost low: nat)
    requires Searching(g, source, tree0, visited0, queue0, depth0, layers0, lvl0, low0) && queue0 != []
    ensures Searching(g, source, tree, visited, queue, depth, layers, lvl, low)
    ensures queue0[0] in tree.verts
    ensures visited == visited0 + g.OutNeighbors(queue0[0])
    ensures |queue0| - 1 <= |queue| && queue[..|queue0| - 1] == queue0[1..]
    ensures forall v :: v in queue[|queue0| - 1..] <==> v in visited - visited0
    ensures Grown(g, queue0[0], tree0.edges, visited0, depth0, tree.edges, visited, depth)
    ensures visited0 <= visited
    ensures visited == visited0 ==> |queue| < |queue0|
    ensures visited != visited0 ==> |visited| > |visited0|
  {
    var u, rest := queue0[0], queue0[1..];
    layers, lvl, low := BeginVisit(g, source, tree0, visited0, queue0, depth0, layers0, lvl0, low0);
    tree, visited, queue, depth := Explore(g, source, u, tree0.InsertVertex(u), visited0, rest, depth0, layers, lvl, low);
  }

  /** The inner loop of the search: every out-neighbour of `u` not yet seen is
      discovered from `u`, enqueued, and hung below `u` in the tree. */
  method Explore<V(!new), E>(g: Graph<V, E>, source: V, u: V, tree0: Graph<V, E>, visited0: set<V>,
                             queue0: seq<V>, ghost depth0: map<V, nat>, ghost layers: seq<set<V>>,
                             ghost lvl: nat, ghost low: nat)
    returns (tree: Graph<V, E>, visited: set<V>, queue: seq<V>, ghost depth: map<V, nat>)
    requires ReadyToExplore(g, source, u, tree0, visited0, queue0, depth0, layers, lvl, low)
    ensures Searching(g, source, tree, visited, queue, depth, layers, lvl, low)
    ensures tree0.verts <= tree.verts && visited == visited0 + g.OutNeighbors(u)
    ensures |queue0| <= |queue| && queue[..|queue0|] == queue0
    ensures forall v :: v in queue[|queue0|..] <==> v in visited - visited0
    ensures Grown(g, u, tree0.edges, visited0, depth0, tree.edges, visited, depth)
    ensures visited0 <= visited
    ensures visited == visited0 ==> queue == queue0
    ensures visited != visited0 ==> |visited| > |visited0|
  {
    tree, visited, queue, depth := tree0, visited0, queue0, depth0;
    var nbrs := g.OutNeighbors(u);
    ExploreStart(g, source, u, tree0, visited0, queue0, depth0, layers, lvl, low);
    while nbrs != {}
      invariant Exploring(g, source, u, nbrs, tree, visited, queue, depth, layers, lvl, low)
      invariant Progress(g, u, nbrs, tree0, visited0, queue0, depth0, tree, visited, queue, depth)
      invariant visited == visited0 ==> queue == queue0
      invariant visited != visited0 ==> |visited| > |visited0|
      decreases nbrs
    {
      var v :| v in nbrs;
      tree, visited, queue, depth := Examine(g, source, u, nbrs, tree0, visited0, queue0, depth0,
                                             tree, visited, queue, depth, layers, lvl, low, v);
      nbrs := nbrs - {v};
    }
    ExploreDone(g, source, u, tree0, visited0, queue0, depth0, tree, visited, queue, depth, layers, lvl, low);
  }

  /** One round of the inner loop: an out-neighbour `v` of `u` not yet seen is marked
      visited, enqueued one level below `u`, and hung below `u` with the label of u->v;
      one already seen changes nothing. */
  method Examine<V(!new), E>(g: Graph<V, E>, source: V, u: V, nbrs: set<V>, tree0: Graph<V, E>,
                             visited0: set<V>, queue0: seq<V>, ghost depth0: map<V, nat>,
                             tree1: Graph<V, E>, visited1: set<V>, queue1: seq<V>, ghost depth1: map<V, nat>,
                             ghost layers: seq<set<V>>, ghost lvl: nat, ghost low: nat, v: V)
    returns (tree: Graph<V, E>, visited: set<V>, queue: seq<V>, ghost depth: map<V, nat>)
    requires ReadyToExplore(g, source, u, tree0, visited0, queue0, depth0, layers, lvl, low)
    requires Exploring(g, source, u, nbrs, tree1, visited1, queue1, depth1, layers, lvl, low)
    requires Progress(g, u, nbrs, tree0, visited0, queue0, depth0, tree1, visited1, queue1, depth1)
    requires visited1 == visited0 ==> queue1 == queue0
    requires visited1 != visited0 ==> |visited1| > |visited0|
    requires v in nbrs
    ensures Exploring(g, source, u, nbrs - {v}, tree, visited, queue, depth, layers, lvl, low)
    ensures Progress(g, u, nbrs - {v}, tree0, visited0, queue0, depth0, tree, visited, queue, depth)
    ensures v in visited
    ensures v !in visited1 ==> visited == visited1 + {v} && queue == queue1 + [v]
    ensures v in visited1 ==> visited == visited1 && queue == queue1 && tree == tree1
    ensures visited == visited0 ==> queue == queue0
    ensures visited != visited0 ==> |visited| > |visited0|
  {
    if v !in visited1 {
      Discover(g, source, u, nbrs, tree1, visited1, queue1, depth1, layers, lvl, low, v);
      DiscoverProgress(g, u, nbrs, tree0, visited0, queue0, depth0, tree1, visited1, queue1, depth1, v);
      visited := visited1 + {v};
      queue := queue1 + [v];
      depth := depth1[v := lvl + 1];
      tree := tree1.InsertVertex(v).InsertDirected(v, u, g.GetLabel(u, v));
    } else {
      Skip(g, source, u, nbrs, tree1, visited1, queue1, depth1, layers, lvl, low, v);
      tree, visited, queue, depth := tree1, visited1, queue1, depth1;
    }
  }

  /** What exploring `u` does to the tree: the edges and labels already there stay, and
      each newly seen vertex `v` gets the one new edge v->u, carrying the label of the
      graph edge u->v, and lies one level below `u`. Earlier depths stay. */
  ghost predicate Grown<V(!new), E>(g: Graph<V, E>, u: V, edges0: map<(V, V), E>, visited0: set<V>, depth0: map<V, nat>,
                                    edges: map<(V, V), E>, visited: set<V>, depth: map<V, nat>)
  {
    && (forall e :: e in edges0 ==> e in edges && edges[e] == edges0[e])
    && (forall e :: e in edges && e !in edges0 ==> e.1 == u && e.0 in visited - visited0)
    && (forall v :: v in visited0 ==> v in depth0 && v in depth && depth[v] == depth0[v])
    && (forall v :: v in visited - visited0 ==>
          (u, v) in g.edges && (v, u) in edges && edges[(v, u)] == g.edges[(u, v)]
          && u in depth && v in depth && depth[v] == depth[u] + 1)
  }

  /** How far exploring `u` has got: the visited set has grown by out-neighbours of `u`
      outside `nbrs`, which were appended to the queue and hung below `u`. */
  ghost predicate Progress<V(!new), E>(g: Graph<V, E>, u: V, nbrs: set<V>, tree0: Graph<V, E>, visited0: set<V>,
                                       queue0: seq<V>, depth0: map<V, nat>, tree: Graph<V, E>, visited: set<V>,
                                       queue: seq<V>, depth: map<V, nat>)
  {
    && visited0 <= visited && visited <= visited0 + (g.OutNeighbors(u) - nbrs)
    && |queue0| <= |queue| && queue[..|queue0|] == queue0
    && (forall v :: v in queue[|queue0|..] <==> v in visited - visited0)
    && Grown(g, u, tree0.edges, visited0, depth0, tree.edges, visited, depth)
  }

  /** Discovering `v` from `u` appends it to the queue and adds the tree edge v->u. */
  lemma DiscoverProgress<V(!new), E>(g: Graph<V, E>, u: V, nbrs: set<V>, tree0: Graph<V, E>, visited0: set<V>,
                                     queue0: seq<V>, depth0: map<V, nat>, tree: Graph<V, E>, visited: set<V>,
                                     queue: seq<V>, depth: map<V, nat>, v: V)
    requires Progress(g, u, nbrs, tree0, visited0, queue0, depth0, tree, visited, queue, depth)
    requires tree0.Valid() && tree0.verts <= visited0 && u in visited0 && u in depth0
    requires v in nbrs && v !in visited && (u, v) in g.edges
    ensures Progress(g, u, nbrs - {v}, tree0, visited0, queue0, depth0,
                     tree.InsertVertex(v).InsertDirected(v, u, g.GetLabel(u, v)), visited + {v}, queue + [v],
                     depth[v := depth[u] + 1])
  {
    EnqueueFresh(queue0, visited0, queue, visited, v);
    assert (v, u) !in tree0.edges;
    GrowEdge(g, u, tree0.edges, visited0, depth0, tree.edges, visited, depth, v);
    assert tree.InsertVertex(v).InsertDirected(v, u, g.GetLabel(u, v)).edges == tree.edges[(v, u) := g.edges[(u, v)]];
  }

  /** Appending a newly seen vertex keeps the queue as the old queue followed by
      exactly the vertices seen since. */
  lemma EnqueueFresh<V>(queue0: seq<V>, visited0: set<V>, queue: seq<V>, visited: set<V>, v: V)
    requires |queue0| <= |queue| && queue[..|queue0|] == queue0
    requires forall x :: x in queue[|queue0|..] <==> x in visited - visited0
    requires visited0 <= visited && v !in visited
    ensures |queue0| <= |queue + [v]| && (queue + [v])[..|queue0|] == queue0
    ensures forall x :: x in (queue + [v])[|queue0|..] <==> x in visited + {v} - visited0
  {
    assert (queue + [v])[..|queue0|] == queue[..|queue0|];
    assert (queue + [v])[|queue0|..] == queue[|queue0|..] + [v];
  }

  /** The edge v->u, added for a newly seen `v`, keeps the description of the growth. */
  lemma GrowEdge<V(!new), E>(g: Graph<V, E>, u: V, edges0: map<(V, V), E>, visited0: set<V>, depth0: map<V, nat>,
                             edges: map<(V, V), E>, visited: set<V>, depth: map<V, nat>, v: V)
    requires Grown(g, u, edges0, visited0, depth0, edges, visited, depth)
    requires visited0 <= visited && u in visited0 && u in depth0 && v !in visited
    requires (u, v) in g.edges && (v, u) !in edges0
    ensures Grown(g, u, edges0, visited0, depth0, edges[(v, u) := g.edges[(u, v)]], visited + {v}, depth[v := depth[u] + 1])
  {
  }

  /** The state at the head of the outer loop of the search. */
  ghost predicate Searching<V(!new), E>(g: Graph<V, E>, source: V, tree: Graph<V, E>, visited: set<V>,
                                        queue: seq<V>, depth: map<V, nat>, layers: seq<set<V>>,
                                        lvl: nat, low: nat)
  {
    && g.Valid() && visited <= g.verts
    && IsLayering(g, source, layers) && |layers| == lvl + 2
    && (source in tree.verts ==> tree.verts == visited)
    && (source !in tree.verts ==> tree == Empty() && queue == [source] && visited == {source})
    && TreeSoFar(g, source, tree, visited, depth, layers)
    && Frontier(visited, queue, depth, lvl, low, layers)
    // vertices already dequeued lie no deeper than the current level, and their neighbours are known
    && (forall x :: x in visited && x !in queue ==> depth[x] <= lvl)
    && (forall x, w :: x in visited && x !in queue && (x, w) in g.edges ==> w in visited)
  }

  /** The state once `u` has been dequeued and put into the tree. */
  ghost predicate ReadyToExplore<V(!new), E>(g: Graph<V, E>, source: V, u: V, tree: Graph<V, E>,
                                             visited: set<V>, queue: seq<V>, depth: map<V, nat>,
                                             layers: seq<set<V>>, lvl: nat, low: nat)
  {
    && g.Valid() && visited <= g.verts
    && IsLayering(g, source, layers) && |layers| == lvl + 2
    && tree.verts == visited
    && TreeSoFar(g, source, tree, visited, depth, layers)
    && Frontier(visited, queue, depth, lvl, low, layers)
    && u in visited && depth[u] == lvl
    && (forall x :: x in visited && x !in queue ==> depth[x] <= lvl)
    && (forall x, w :: x in visited && x !in queue && x != u && (x, w) in g.edges ==> w in visited)
  }

  /** The state inside the inner loop: the out-neighbours of `u` outside `nbrs` are known. */
  ghost predicate Exploring<V(!new), E>(g: Graph<V, E>, source: V, u: V, nbrs: set<V>, tree: Graph<V, E>,
                                        visited: set<V>, queue: seq<V>, depth: map<V, nat>,
                                        layers: seq<set<V>>, lvl: nat, low: nat)
  {
    && ReadyToExplore(g, source, u, tree, visited, queue, depth, layers, lvl, low)
    && nbrs <= g.OutNeighbors(u)
    && (forall w :: w in g.OutNeighbors(u) && w !in nbrs ==> w in visited)
  }

  /** The search starts from `source` alone, at level 0. */
  lemma SearchStart<V(!new), E>(g: Graph<V, E>, source: V) returns (layers: seq<set<V>>)
    requires g.Valid() && g.HasVertex(source)
    ensures Searching(g, source, Empty(), {source}, [source], map[source := 0], layers, 0, 1)
  {
    layers := [{source}];
    ExtendLayering(g, source, layers);
    layers := layers + [layers[0] + Post(g, layers[0])];
    assert DistIn(layers, source, 0);
  }

  /** When every queued vertex lies at level `lvl + 1`, the whole of layer `lvl + 1` is known,
      and the search can move one level down. */
  lemma NextLevel<V(!new), E>(g: Graph<V, E>, source: V, tree: Graph<V, E>, visited: set<V>,
                              queue: seq<V>, depth: map<V, nat>, layers: seq<set<V>>, lvl: nat)
    requires Searching(g, source, tree, visited, queue, depth, layers, lvl, 0) && queue != []
    ensures Searching(g, source, tree, visited, queue, depth,
                      layers + [layers[lvl + 1] + Post(g, layers[lvl + 1])], lvl + 1, |queue|)
  {
    var next := layers[lvl + 1] + Post(g, layers[lvl + 1]);
    LayerComplete(g, source, layers, visited, (set x | x in queue), depth, lvl);
    ExtendLayering(g, source, layers);
    LongerLayering(g, source, tree, visited, depth, layers, next);
    FrontierDown(visited, queue, depth, lvl, layers, next);
  }

  /** Before the next dequeue: when no queued vertex is left at the current level, every
      queued vertex lies one level below it, and the search moves down a level. */
  lemma Advance<V(!new), E>(g: Graph<V, E>, source: V, tree: Graph<V, E>, visited: set<V>,
                            queue: seq<V>, depth: map<V, nat>, layers: seq<set<V>>, lvl: nat, low: nat)
    returns (layers': seq<set<V>>, lvl': nat, low': nat)
    requires Searching(g, source, tree, visited, queue, depth, layers, lvl, low) && queue != []
    ensures Searching(g, source, tree, visited, queue, depth, layers', lvl', low') && low' > 0
  {
    if low == 0 {
      NextLevel(g, source, tree, visited, queue, depth, layers, lvl);
      layers', lvl', low' := layers + [layers[lvl + 1] + Post(g, layers[lvl + 1])], lvl + 1, |queue|;
    } else {
      layers', lvl', low' := layers, lvl, low;
    }
  }

  /** The ghost part of a round of the outer loop: move down a level if the current one
      is used up, then dequeue the front vertex and insert it into the tree. */
  lemma BeginVisit<V(!new), E>(g: Graph<V, E>, source: V, tree: Graph<V, E>, visited: set<V>,
                               queue: seq<V>, depth: map<V, nat>, layers: seq<set<V>>, lvl: nat, low: nat)
    returns (layers': seq<set<V>>, lvl': nat, low': nat)
    requires Searching(g, source, tree, visited, queue, depth, layers, lvl, low) && queue != []
    ensures ReadyToExplore(g, source, queue[0], tree.InsertVertex(queue[0]), visited, queue[1..],
                           depth, layers', lvl', low')
    ensures |queue[1..]| == |queue| - 1 && tree.InsertVertex(queue[0]).edges == tree.edges
  {
    var layers1, lvl1, low1 := Advance(g, source, tree, visited, queue, depth, layers, lvl, low);
    StartVisit(g, source, tree, visited, queue, depth, layers1, lvl1, low1);
    layers', lvl', low' := layers1, lvl1, low1 - 1;
  }

  /** Dequeueing the front vertex and inserting it into the tree. */
  lemma StartVisit<V(!new), E>(g: Graph<V, E>, source: V, tree: Graph<V, E>, visited: set<V>,
                               queue: seq<V>, depth: map<V, nat>, layers: seq<set<V>>, lvl: nat, low: nat)
    requires Searching(g, source, tree, visited, queue, depth, layers, lvl, low) && low > 0
    ensures |queue| > 0
    ensures ReadyToExplore(g, source, queue[0], tree.InsertVertex(queue[0]), visited, queue[1..],
                           depth, layers, lvl, low - 1)
  {
    FrontierPop(visited, queue, depth, lvl, low, layers);
    var u, rest := queue[0], queue[1..];
    Dequeue(g, source, tree, visited, depth, layers, u);
    assert tree.InsertVertex(u).verts == visited;
    forall x | x in visited && x !in rest ensures depth[x] <= lvl {
      assert x == u || x !in queue;
    }
    forall x, w | x in visited && x !in rest && x != u && (x, w) in g.edges ensures w in visited {
      assert x !in queue;
    }
  }

  /** Discovering `v` from `u`. */
  lemma Discover<V(!new), E>(g: Graph<V, E>, source: V, u: V, nbrs: set<V>, tree: Graph<V, E>,
                             visited: set<V>, queue: seq<V>, depth: map<V, nat>,
                             layers: seq<set<V>>, lvl: nat, low: nat, v: V)
    requires Exploring(g, source, u, nbrs, tree, visited, queue, depth, layers, lvl, low)
    requires v in nbrs && v !in visited
    ensures (u, v) in g.edges
    ensures Exploring(g, source, u, nbrs - {v}, tree.InsertVertex(v).InsertDirected(v, u, g.GetLabel(u, v)),
                      visited + {v}, queue + [v], depth[v := lvl + 1], layers, lvl, low)
  {
    assert (u, v) in g.edges;
    GrowTree(g, source, tree, visited, depth, layers, u, v, lvl);
    FrontierPush(visited, queue, depth, lvl, low, layers, v);
  }

  /** An out-neighbour of `u` that is already known changes nothing. */
  lemma Skip<V(!new), E>(g: Graph<V, E>, source: V, u: V, nbrs: set<V>, tree: Graph<V, E>,
                         visited: set<V>, queue: seq<V>, depth: map<V, nat>,
                         layers: seq<set<V>>, lvl: nat, low: nat, v: V)
    requires Exploring(g, source, u, nbrs, tree, visited, queue, depth, layers, lvl, low)
    requires v in nbrs && v in visited
    ensures Exploring(g, source, u, nbrs - {v}, tree, visited, queue, depth, layers, lvl, low)
  {
  }

  /** Exploring `u` starts with none of its out-neighbours examined. */
  lemma ExploreStart<V(!new), E>(g: Graph<V, E>, source: V, u: V, tree0: Graph<V, E>, visited0: set<V>,
                                 queue0: seq<V>, depth0: map<V, nat>, layers: seq<set<V>>, lvl: nat, low: nat)
    requires ReadyToExplore(g, source, u, tree0, visited0, queue0, depth0, layers, lvl, low)
    ensures Exploring(g, source, u, g.OutNeighbors(u), tree0, visited0, queue0, depth0, layers, lvl, low)
    ensures Progress(g, u, g.OutNeighbors(u), tree0, visited0, queue0, depth0, tree0, visited0, queue0, depth0)
  {
    assert queue0[|queue0|..] == [];
  }

  /** Once every out-neighbour of `u` is known, `u` counts as processed, and the
      visited set has grown by exactly the out-neighbours of `u` not seen before. */
  lemma ExploreDone<V(!new), E>(g: Graph<V, E>, source: V, u: V, tree0: Graph<V, E>, visited0: set<V>,
                                queue0: seq<V>, depth0: map<V, nat>, tree: Graph<V, E>,
                                visited: set<V>, queue: seq<V>, depth: map<V, nat>,
                                layers: seq<set<V>>, lvl: nat, low: nat)
    requires Exploring(g, source, u, {}, tree, visited, queue, depth, layers, lvl, low)
    requires Progress(g, u, {}, tree0, visited0, queue0, depth0, tree, visited, queue, depth)
    requires tree0.verts == visited0
    ensures Searching(g, source, tree, visited, queue, depth, layers, lvl, low)
    ensures tree0.verts <= tree.verts && visited == visited0 + g.OutNeighbors(u)
  {
  }

  /** Once the queue is empty, the tree is a shortest-path tree over exactly the
      vertices reachable from `source`. */
  lemma SearchDone<V(!new), E>(g: Graph<V, E>, source: V, tree: Graph<V, E>, visited: set<V>,
                               depth: map<V, nat>, layers: seq<set<V>>, lvl: nat, low: nat)
    requires Searching(g, source, tree, visited, [], depth, layers, lvl, low)
    ensures IsPathTree(g, source, tree, depth)
    ensures tree.HasVertex(source) && tree.OutDegree(source) == 0
    ensures tree.NumEdges() == tree.NumVertices() - 1
  {
    forall v | v in tree.verts ensures IsDist(g, source, v, depth[v]) && Reachable(g, source, v) {
      DistInIsDist(g, source, layers, v, depth[v]);
    }
    forall v | Reachable(g, source, v) ensures v in tree.verts {
      var k: nat :| v in Within(g, source, k);
      ClosedHoldsWithin(g, source, visited, k);
    }
    OutDegreeInTree(tree, source, depth, source);
  }

  /** Appending a layer keeps the distances read off the earlier layers. */
  lemma LongerLayering<V(!new), E>(g: Graph<V, E>, source: V, tree: Graph<V, E>, visited: set<V>,
                                   depth: map<V, nat>, layers: seq<set<V>>, next: set<V>)
    requires TreeSoFar(g, source, tree, visited, depth, layers)
    ensures TreeSoFar(g, source, tree, visited, depth, layers + [next])
  {
    forall v | v in visited ensures DistIn(layers + [next], v, depth[v]) {
      assert DistIn(layers, v, depth[v]);
    }
  }

  /** Inserting an already discovered vertex into the tree keeps the tree invariant. */
  lemma Dequeue<V(!new), E>(g: Graph<V, E>, source: V, tree: Graph<V, E>, visited: set<V>,
                            depth: map<V, nat>, layers: seq<set<V>>, u: V)
    requires TreeSoFar(g, source, tree, visited, depth, layers) && u in visited
    ensures TreeSoFar(g, source, tree.InsertVertex(u), visited, depth, layers)
  {
    forall v | v in visited && v != source ensures HasParent(tree.InsertVertex(u), v) {
      assert HasParent(tree, v);
    }
  }

  /** What holds of the tree built so far: every vertex discovered except `source`
      has exactly one edge, to the vertex it was discovered from, at a shortest distance. */
  ghost predicate TreeSoFar<V(!new), E>(g: Graph<V, E>, source: V, tree: Graph<V, E>,
                                       visited: set<V>, depth: map<V, nat>, layers: seq<set<V>>)
  {
    && depth.Keys == visited
    && source in visited && depth[source] == 0
    && tree.Valid()
    && tree.verts <= visited
    && |tree.edges| + 1 == |visited|
    && (forall e :: e in tree.edges ==>
          e.0 != source && depth[e.0] == depth[e.1] + 1
          && (e.1, e.0) in g.edges && tree.edges[e] == g.edges[(e.1, e.0)])
    && (forall v {:trigger HasParent(tree, v)} :: v in visited && v != source ==> HasParent(tree, v))
    && (forall v, p, q :: (v, p) in tree.edges && (v, q) in tree.edges ==> p == q)
    && (forall v :: v in visited ==> depth[v] < |visited|)
    && (forall v {:trigger DistIn(layers, v, depth[v])} :: v in visited ==> DistIn(layers, v, depth[v]))
  }

  /** The queue holds known vertices: its first `low` entries lie at level `lvl` and
      the rest at level `lvl + 1`. Every vertex within `lvl` steps of the source is known. */
  ghost predicate Frontier<V>(visited: set<V>, queue: seq<V>, depth: map<V, nat>, lvl: nat, low: nat,
                             layers: seq<set<V>>)
  {
    && (forall x :: x in queue ==> x in visited && x in depth)
    && low <= |queue|
    && (forall i :: 0 <= i < |queue| ==> queue[i] in depth && depth[queue[i]] == if i < low then lvl else lvl + 1)
    && lvl < |layers| && layers[lvl] <= visited
  }

  /** Once every queued vertex lies at level `lvl + 1` and the next layer is known,
      the search moves one level down. */
  lemma FrontierDown<V>(visited: set<V>, queue: seq<V>, depth: map<V, nat>, lvl: nat,
                        layers: seq<set<V>>, next: set<V>)
    requires Frontier(visited, queue, depth, lvl, 0, layers)
    requires lvl + 1 < |layers| && layers[lvl + 1] <= visited
    ensures Frontier(visited, queue, depth, lvl + 1, |queue|, layers + [next])
  {
  }

  /** Dequeueing the front vertex, which lies at level `lvl`. */
  lemma FrontierPop<V>(visited: set<V>, queue: seq<V>, depth: map<V, nat>, lvl: nat, low: nat,
                       layers: seq<set<V>>)
    requires Frontier(visited, queue, depth, lvl, low, layers) && low > 0
    ensures queue[0] in visited && queue[0] in depth && depth[queue[0]] == lvl
    ensures Frontier(visited, queue[1..], depth, lvl, low - 1, layers)
    ensures forall x :: x in queue <==> x == queue[0] || x in queue[1..]
  {
    assert queue[0] in queue;
    assert forall i :: 0 <= i < |queue| - 1 ==> queue[1..][i] == queue[i + 1];
  }

  /** Enqueueing a newly discovered vertex at level `lvl + 1`. */
  lemma FrontierPush<V>(visited: set<V>, queue: seq<V>, depth: map<V, nat>, lvl: nat, low: nat,
                        layers: seq<set<V>>, v: V)
    requires Frontier(visited, queue, depth, lvl, low, layers) && v !in visited
    ensures Frontier(visited + {v}, queue + [v], depth[v := lvl + 1], lvl, low, layers)
    ensures forall x :: x in queue + [v] <==> x in queue || x == v
  {
    assert forall i :: 0 <= i < |queue| ==> (queue + [v])[i] == queue[i];
  }

  /** Discovering `v` from `u` keeps the tree invariant. */
  lemma GrowTree<V(!new), E>(g: Graph<V, E>, source: V, tree: Graph<V, E>, visited: set<V>,
                             depth: map<V, nat>, layers: seq<set<V>>, u: V, v: V, lvl: nat)
    requires TreeSoFar(g, source, tree, visited, depth, layers)
    requires IsLayering(g, source, layers) && lvl + 1 < |layers|
    requires u in tree.verts && depth[u] == lvl && (u, v) in g.edges && v !in visited
    requires layers[lvl] <= visited
    ensures TreeSoFar(g, source, tree.InsertVertex(v).InsertDirected(v, u, g.GetLabel(u, v)),
                      visited + {v}, depth[v := lvl + 1], layers)
  {
    DiscoverEdges(g, source, tree, visited, depth, layers, u, v, lvl);
    DiscoverParents(g, source, tree, visited, depth, layers, u, v, lvl);
    DiscoverDepths(g, source, tree, visited, depth, layers, u, v, lvl);
  }

  /** The new edge v->u keeps the edge facts of the tree. */
  lemma DiscoverEdges<V(!new), E>(g: Graph<V, E>, source: V, tree: Graph<V, E>, visited: set<V>,
                             depth: map<V, nat>, layers: seq<set<V>>, u: V, v: V, lvl: nat)
    requires TreeSoFar(g, source, tree, visited, depth, layers)
    requires IsLayering(g, source, layers) && lvl + 1 < |layers|
    requires u in tree.verts && depth[u] == lvl && (u, v) in g.edges && v !in visited
    requires layers[lvl] <= visited
    ensures var t := tree.InsertVertex(v).InsertDirected(v, u, g.GetLabel(u, v));
            var vis := visited + {v}; var d := depth[v := lvl + 1];
      && d.Keys == vis && source in vis && d[source] == 0 && t.Valid() && t.verts <= vis && |t.edges| + 1 == |vis|
      && (forall e :: e in t.edges ==>
            e.0 != source && d[e.0] == d[e.1] + 1 && (e.1, e.0) in g.edges && t.edges[e] == g.edges[(e.1, e.0)])
  {
    assert (v, u) !in tree.edges;
  }

  /** `v` gets exactly one parent, `u`, and no other vertex changes parent. */
  lemma DiscoverParents<V(!new), E>(g: Graph<V, E>, source: V, tree: Graph<V, E>, visited: set<V>,
                             depth: map<V, nat>, layers: seq<set<V>>, u: V, v: V, lvl: nat)
    requires TreeSoFar(g, source, tree, visited, depth, layers)
    requires IsLayering(g, source, layers) && lvl + 1 < |layers|
    requires u in tree.verts && depth[u] == lvl && (u, v) in g.edges && v !in visited
    requires layers[lvl] <= visited
    ensures var t := tree.InsertVertex(v).InsertDirected(v, u, g.GetLabel(u, v));
      && (forall x {:trigger HasParent(t, x)} :: x in visited + {v} && x != source ==> HasParent(t, x))
      && (forall x, p, q :: (x, p) in t.edges && (x, q) in t.edges ==> p == q)
  {
    var t := tree.InsertVertex(v).InsertDirected(v, u, g.GetLabel(u, v));
    forall x | x in visited + {v} && x != source ensures HasParent(t, x) {
      if x != v {
        assert HasParent(tree, x);
        var p :| (x, p) in tree.edges;
        assert (x, p) in t.edges;
      } else {
        assert (v, u) in t.edges;
      }
    }
  }

  /** `v` lies at distance `lvl + 1`, one layer below `u`. */
  lemma DiscoverDepths<V(!new), E>(g: Graph<V, E>, source: V, tree: Graph<V, E>, visited: set<V>,
                             depth: map<V, nat>, layers: seq<set<V>>, u: V, v: V, lvl: nat)
    requires TreeSoFar(g, source, tree, visited, depth, layers)
    requires IsLayering(g, source, layers) && lvl + 1 < |layers|
    requires u in tree.verts && depth[u] == lvl && (u, v) in g.edges && v !in visited
    requires layers[lvl] <= visited
    ensures var vis := visited + {v}; var d := depth[v := lvl + 1];
      && (forall x :: x in vis ==> d[x] < |vis|)
      && (forall x :: x in vis ==> DistIn(layers, x, d[x]))
  {
    assert DistIn(layers, u, depth[u]);
    StepInto(g, source, layers, lvl, u, v);
    var vis := visited + {v};
    assert |vis| == |visited| + 1;
    forall x | x in vis ensures depth[v := lvl + 1][x] < |vis| && DistIn(layers, x, depth[v := lvl + 1][x]) {
      if x != v {
        assert depth[v := lvl + 1][x] == depth[x];
      }
    }
  }

  /**
   * The path from `v` up to the root of a path tree, following the parent edges. It is
   * empty when `v` is not in the tree, and also for the root itself, whose out-degree is 0.
   * The ghost `root` and depths `d` only describe the tree; the walk reads the tree alone.
   */
  method GetPath<V(!new), E>(tree: Graph<V, E>, v: V, ghost root: V, ghost d: map<V, nat>) returns (path: seq<V>)
    requires RankedTree(tree, root, d)
    ensures !tree.HasVertex(v) || v == root ==> path == []
    ensures tree.HasVertex(v) && v != root ==>
      && |path| == d[v] + 1
      && path[0] == v && path[|path| - 1] == root && tree.OutDegree(root) == 0
      && (forall i :: 0 <= i < |path| - 1 ==> (path[i], path[i + 1]) in tree.edges)
  {
    path := [];
    if tree.HasVertex(v) && tree.OutDegree(v) == 0 {
      OutDegreeInTree(tree, root, d, v);
      return;
    }
    if !tree.HasVertex(v) {
      return;
    }
    var current := v;
    while tree.OutDegree(current) != 0
      invariant current in tree.verts && d[current] <= d[v]
      invariant |path| == d[v] - d[current]
      invariant path == [] ==> current == v
      invariant path != [] ==> path[0] == v && (path[|path| - 1], current) in tree.edges
      invariant forall i :: 0 <= i < |path| - 1 ==> (path[i], path[i + 1]) in tree.edges
      decreases d[current]
    {
      path := path + [current];
      OutDegreeInTree(tree, root, d, current);
      ghost var p := Parent(tree, root, d, current);
      // the loop over the out-neighbours keeps the last one; a non-root vertex has exactly one
      var parents := tree.OutNeighbors(current);
      var next := current;
      while parents != {}
        invariant parents == {p} || (parents == {} && next == p)
        decreases parents
      {
        var x :| x in parents;
        next := x;
        parents := parents - {x};
      }
      current := next;
    }
    OutDegreeInTree(tree, root, d, current);
    path := path + [current];
  }

  /** The vertices of `graph` that `subgraph` lacks. */
  method MissingVertices<V(!new), E>(graph: Graph<V, E>, subgraph: Graph<V, E>) returns (missing: set<V>)
    ensures forall x :: x in missing <==> x in graph.verts && x !in subgraph.verts
    ensures missing !! subgraph.verts
    ensures graph.verts == missing + (graph.verts * subgraph.verts)
  {
    missing := {};
    var todo := graph.verts;
    while todo != {}
      invariant todo <= graph.verts
      invariant forall x :: x in missing <==> x in graph.verts && x !in todo && x !in subgraph.verts
      decreases todo
    {
      var vertex :| vertex in todo;
      if !subgraph.HasVertex(vertex) {
        missing := missing + {vertex};
      }
      todo := todo - {vertex};
    }
  }

  /**
   * Called on `r` with `lvl` one more than the depth of `r` below the vertex the
   * sum started from: adds `lvl` for each child of `r`, then recurses into the
   * children one level further down. The result is the sum, over the strict
   * descendants `v` of `r`, of their depth below that starting vertex, which is
   * `base + d[v]` with the ghost `base` equal to `lvl - 1 - d[r]`.
   */
  method AverageSeparationHelper<V(!new), E>(tree: Graph<V, E>, r: V, lvl: int,
                                             ghost root: V, ghost d: map<V, nat>, ghost base: int)
    returns (sum: int)
    requires RankedTree(tree, root, d) && r in tree.verts && base == lvl - 1 - d[r]
    ensures sum == SeparationWeight(Desc(tree, root, d, r), d, base)
    decreases |tree.verts| - d[r]
  {
    var kids := tree.InNeighbors(r);
    sum := tree.InDegree(r) * lvl;
    SumStart(tree, root, d, r, base, lvl);
    var todo := kids;
    while todo != {}
      invariant todo <= kids
      invariant sum + SeparationWeight(DescOf(tree, root, d, d[r] + 1, todo), d, base)
             == SeparationWeight(Desc(tree, root, d, r), d, base)
      decreases todo
    {
      var next :| next in todo;
      SumStep(tree, root, d, r, base, todo, next);
      var s := AverageSeparationHelper(tree, next, lvl + 1, root, d, base);
      sum := sum + s;
      todo := todo - {next};
    }
  }

  /** Taking one child's subtree out of the part of the sum still to compute. */
  lemma SumStep<V(!new), E>(tree: Graph<V, E>, root: V, d: map<V, nat>, r: V, base: int, rest: set<V>, next: V)
    requires RankedTree(tree, root, d) && r in tree.verts
    requires next in rest && rest <= tree.InNeighbors(r)
    ensures next in tree.verts && d[next] == d[r] + 1
    ensures SeparationWeight(DescOf(tree, root, d, d[r] + 1, rest), d, base)
         == SeparationWeight(DescOf(tree, root, d, d[r] + 1, rest - {next}), d, base)
          + SeparationWeight(Desc(tree, root, d, next), d, base)
  {
    var k := d[r] + 1;
    var a := DescOf(tree, root, d, k, rest - {next});
    var b := DescOf(tree, root, d, k, {next});
    ChildOf(tree, root, d, r, next);
    assert Desc(tree, root, d, next) == b;
    DescOfAdd(tree, root, d, k, rest - {next}, next);
    assert rest - {next} + {next} == rest;
    SeparationWeightUnion(a, b, d, base);
  }

  /** Before any child is visited: the sum below `r` is `w` for each child plus the sums
      below the children, and once every child is visited nothing remains. */
  lemma SumStart<V(!new), E>(tree: Graph<V, E>, root: V, d: map<V, nat>, r: V, base: int, w: int)
    requires RankedTree(tree, root, d) && r in tree.verts && w == base + d[r] + 1
    ensures SeparationWeight(Desc(tree, root, d, r), d, base)
         == tree.InDegree(r) * w + SeparationWeight(DescOf(tree, root, d, d[r] + 1, tree.InNeighbors(r)), d, base)
    ensures SeparationWeight(DescOf(tree, root, d, d[r] + 1, {}), d, base) == 0
  {
    SumSplit(tree, root, d, r, base);
    SumChildren(tree, root, d, r, base, w);
    assert DescOf(tree, root, d, d[r] + 1, {}) == {};
  }

  /** The sum below `r` splits into the children and everything below the children. */
  lemma SumSplit<V(!new), E>(tree: Graph<V, E>, root: V, d: map<V, nat>, r: V, base: int)
    requires RankedTree(tree, root, d) && r in tree.verts
    ensures SeparationWeight(Desc(tree, root, d, r), d, base)
         == SeparationWeight(tree.InNeighbors(r), d, base)
          + SeparationWeight(DescOf(tree, root, d, d[r] + 1, tree.InNeighbors(r)), d, base)
  {
    DescSplit(tree, root, d, r);
    SeparationWeightUnion(tree.InNeighbors(r), DescOf(tree, root, d, d[r] + 1, tree.InNeighbors(r)), d, base);
  }

  /** Each child of `r` contributes `base + d[r] + 1`. */
  lemma SumChildren<V(!new), E>(tree: Graph<V, E>, root: V, d: map<V, nat>, r: V, base: int, w: int)
    requires RankedTree(tree, root, d) && r in tree.verts && w == base + d[r] + 1
    ensures tree.InNeighbors(r) <= d.Keys
    ensures SeparationWeight(tree.InNeighbors(r), d, base) == tree.InDegree(r) * w
  {
    forall c | c in tree.InNeighbors(r) ensures c in d && base + d[c] == w {
      ChildOf(tree, root, d, r, c);
    }
    SeparationWeightLevel(tree.InNeighbors(r), d, base, w);
  }

  /**
   * The average separation of a path tree, as the numerator `total` (the sum of the
   * depths of the non-root vertices) and the denominator `count` (the number of tree
   * edges, one per non-root vertex). Every depth is at least 1, so `count <= total`.
   */
  method AverageSeparation<V(!new), E>(tree: Graph<V, E>, root: V, ghost d: map<V, nat>)
    returns (total: int, count: nat)
    requires RankedTree(tree, root, d)
    ensures total == SeparationWeight(tree.verts - {root}, d, 0)
    ensures count == tree.NumEdges() == |tree.verts| - 1
    ensures count <= total
  {
    total := AverageSeparationHelper(tree, root, 1, root, d, 0);
    count := tree.NumEdges();
    DescOfRoot(tree, root, d);
    forall v | v in tree.verts - {root} ensures d[v] >= 1 {
      DepthZeroIsRoot(tree, root, d, v);
    }
    SeparationWeightAtLeast(tree.verts - {root}, d);
  }
}
