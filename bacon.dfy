/**
 * The "degrees of separation" game. Actors are vertices; two actors who appeared
 * in a common movie are joined by an undirected edge labelled with the set of
 * their common movies. The game keeps a current center of the universe and the
 * shortest-path tree rooted at it, and the tree rooted at Kevin Bacon taken at
 * start-up, and answers ranking queries over them.
 */
module Bacon {
  import opened LabeledGraph
  import opened Reachability
  import opened PathTree
  import opened BaconGraphLib
  import opened Sorting
  import opened CastGraph

  type Actor = string
  type Movie = string
  /** An edge label: the movies two actors appeared in together. */
  type Movies = set<Movie>
  /** Which actors appeared in each movie, as read from the movie-actor file. */
  type Casts = map<Movie, set<Actor>>

  /** A reference that may be null. */
  datatype Option<T> = None | Some(value: T)

  class Game {
    var center: Actor
    var mainGraph: Graph<Actor, Movies>
    /** The path tree of the current center; null until a center is set. */
    var shortestPathTree: Option<Graph<Actor, Movies>>
    /** The path tree taken at start-up, with Kevin Bacon as the center. */
    var baconGraph: Option<Graph<Actor, Movies>>

    ghost predicate Valid()
      reads this
    {
      && mainGraph.Valid() && mainGraph.Symmetric()
      && (shortestPathTree.Some? ==> CenterTreeOf(mainGraph, center, shortestPathTree.value))
      && (baconGraph.Some? ==> baconGraph.value.verts <= mainGraph.verts)
    }

    /** The tree is the breadth-first tree of the current graph from the current center. */
    ghost predicate Current()
      reads this
    {
      shortestPathTree.Some? && exists d :: IsPathTree(mainGraph, center, shortestPathTree.value, d)
    }

    constructor()
      ensures Valid()
      ensures center == "Kevin Bacon" && mainGraph == Empty()
      ensures shortestPathTree == None && baconGraph == None
    {
      center := "Kevin Bacon";
      mainGraph := Empty();
      shortestPathTree := None;
      baconGraph := None;
    }

    /** Each actor read from the actor list becomes a vertex. */
    method AddActor(name: Actor)
      requires Valid()
      modifies this
      ensures Valid()
      ensures mainGraph == old(mainGraph).InsertVertex(name)
      ensures center == old(center) && shortestPathTree == old(shortestPathTree) && baconGraph == old(baconGraph)
    {
      mainGraph := mainGraph.InsertVertex(name);
    }

    /**
     * Joins every two different actors of each movie's cast and records the movie on
     * their edge; the label both directions share only gains movies.
     */
    method BuildGraph(m: Casts)
      requires Valid()
      modifies this
      ensures Valid()
      ensures Collapsed(old(mainGraph), mainGraph, m, m.Keys)
      ensures center == old(center) && shortestPathTree == old(shortestPathTree) && baconGraph == old(baconGraph)
    {
      var g := Collapse(mainGraph, m);
      mainGraph := g;
    }

    /**
     * Makes `s` the center when it is an actor of the graph, replacing the path tree
     * by the breadth-first tree from `s`; otherwise nothing changes.
     */
    method SetCenter(s: Actor)
      requires Valid()
      modifies this
      ensures Valid()
      ensures mainGraph == old(mainGraph) && baconGraph == old(baconGraph)
      ensures !mainGraph.HasVertex(s) ==> center == old(center) && shortestPathTree == old(shortestPathTree)
      ensures mainGraph.HasVertex(s) ==>
        && center == s && Current()
        && shortestPathTree.value.OutDegree(s) == 0
        && shortestPathTree.value.NumEdges() == shortestPathTree.value.NumVertices() - 1
    {
      if !mainGraph.HasVertex(s) {
        return;
      }
      var tree := CenterTree(mainGraph, s);
      center, shortestPathTree := s, Some(tree);
    }

    /**
     * The actors of the current path tree whose in-degree in the graph lies in
     * [low, high], most connected first.
     */
    method DegreeList(low: int, high: int) returns (list: seq<Actor>)
      requires Valid() && shortestPathTree.Some?
      ensures forall v :: v in list <==> v in shortestPathTree.value.verts && low <= mainGraph.InDegree(v) <= high
      ensures NoDuplicates(list)
      ensures forall i, j :: 0 <= i < j < |list| ==> mainGraph.InDegree(list[i]) >= mainGraph.InDegree(list[j])
    {
      var tree, g := shortestPathTree.value, mainGraph;
      var toReturn: seq<Actor> := [];
      var todo := tree.verts;
      while todo != {}
        invariant todo <= tree.verts
        invariant forall v :: v in toReturn <==> v in tree.verts - todo && low <= g.InDegree(v) <= high
        invariant NoDuplicates(toReturn)
        decreases todo
      {
        var vertex :| vertex in todo;
        var degree := g.InDegree(vertex);
        if degree >= low && degree <= high {
          AppendFresh(toReturn, vertex);
          toReturn := toReturn + [vertex];
        }
        todo := todo - {vertex};
      }
      list := SortBy(toReturn, v => -(g.InDegree(v) as int));
      PermutationFacts(toReturn, list);
    }

    /**
     * The actors other than the center whose separation from it lies in [low, high],
     * nearest first. The separation is read off the path to the center.
     */
    method SeparationList(low: int, high: int) returns (list: seq<Actor>)
      requires Valid() && shortestPathTree.Some?
      ensures forall v :: v in list <==>
        v in shortestPathTree.value.verts && v != center && low <= Steps(shortestPathTree.value, center, v) <= high
      ensures NoDuplicates(list)
      ensures forall i, j :: 0 <= i < j < |list| ==>
        Steps(shortestPathTree.value, center, list[i]) <= Steps(shortestPathTree.value, center, list[j])
    {
      var tree, c := shortestPathTree.value, center;
      ghost var d := Depths(tree, c);
      var toReturn: seq<Actor> := [];
      var stepsMap: map<Actor, int> := map[];
      var todo := tree.verts;
      while todo != {}
        invariant todo <= tree.verts
        invariant forall v :: v in toReturn <==> v in tree.verts - todo && v != c && low <= d[v] <= high
        invariant forall v :: v in toReturn ==> v in stepsMap && stepsMap[v] == d[v]
        invariant NoDuplicates(toReturn)
        decreases todo
      {
        var vertex :| vertex in todo;
        if vertex != c {
          var path := GetPath(tree, vertex, c, d);
          var steps: int := |path| - 1;
          if steps >= low && steps <= high {
            AppendFresh(toReturn, vertex);
            toReturn := toReturn + [vertex];
            stepsMap := stepsMap[vertex := steps];
          }
        }
        todo := todo - {vertex};
      }
      list := SortBy(toReturn, v => if v in stepsMap then stepsMap[v] else 0);
      PermutationFacts(toReturn, list);
    }

    /**
     * The top `num` centers of the Kevin Bacon universe when `num` is positive (least
     * total separation first), or the bottom `-num` when it is negative (greatest first);
     * empty when `num` is 0 or asks for more actors than the universe holds.
     */
    method AvgSeparationList(num: int) returns (list: seq<Actor>)
      requires Valid() && IsInt32(num) && (num != 0 ==> baconGraph.Some?)
      ensures num == 0 ==> list == []
      ensures num != 0 && RequestedLength(num, baconGraph.value.NumVertices()).None? ==> list == []
      ensures num != 0 && RequestedLength(num, baconGraph.value.NumVertices()).Some? ==>
        |list| == RequestedLength(num, baconGraph.value.NumVertices()).value
      ensures NoDuplicates(list)
      ensures num != 0 ==> forall v :: v in list ==> v in baconGraph.value.verts
      ensures num > 0 ==> Leading(mainGraph, list, baconGraph.value.verts, true)
      ensures num < 0 ==> Leading(mainGraph, list, baconGraph.value.verts, false)
    {
      if num == 0 {
        return [];
      }
      var g, universe := mainGraph, baconGraph.value;
      var toReturn: seq<Actor> := [];
      var avgSep: map<Actor, int> := map[];
      var todo := g.verts;
      while todo != {}
        invariant todo <= g.verts
        invariant forall v :: v in toReturn <==> v in g.verts - todo && v in universe.verts
        invariant forall v :: v in toReturn ==> v in avgSep && avgSep[v] == TotalSeparation(g, v)
        invariant NoDuplicates(toReturn)
        decreases todo
      {
        var actor :| actor in todo;
        if universe.HasVertex(actor) {
          AppendFresh(toReturn, actor);
          toReturn := toReturn + [actor];
          var total := TotalSeparationOf(g, actor);
          avgSep := avgSep[actor := total];
        }
        todo := todo - {actor};
      }
      DistinctCount(toReturn, universe.verts);
      var len := RequestedLength(num, universe.NumVertices());
      if len.None? {
        return [];
      }
      var sorted;
      if num > 0 {
        sorted := SortBy(toReturn, v => if v in avgSep then avgSep[v] else 0);
      } else {
        sorted := SortBy(toReturn, v => if v in avgSep then -avgSep[v] else 0);
      }
      PermutationFacts(toReturn, sorted);
      PrefixFacts(sorted, len.value);
      list := sorted[..len.value];
      TopOfSorted(g, sorted, len.value, universe.verts, avgSep, num > 0);
    }

    /** Start-up: center the game on Kevin Bacon and keep that tree for the rankings. */
    method Start()
      requires Valid()
      modifies this
      ensures Valid()
      ensures mainGraph == old(mainGraph) && center == old(center)
      ensures mainGraph.HasVertex(center) ==> Current()
      ensures !mainGraph.HasVertex(center) ==> shortestPathTree == old(shortestPathTree)
      ensures baconGraph == shortestPathTree
    {
      SetCenter(center);
      baconGraph := shortestPathTree;
    }
  }

  /** `tree` is a ranked tree rooted at `s` whose vertices are vertices of `g`. */
  ghost predicate CenterTreeOf(g: Graph<Actor, Movies>, s: Actor, tree: Graph<Actor, Movies>)
  {
    Ranked(tree, s) && tree.verts <= g.verts
  }

  /** The number of steps from `v` to the root of a path tree: its separation. */
  ghost function Steps(tree: Graph<Actor, Movies>, root: Actor, v: Actor): nat
    requires Ranked(tree, root) && v in tree.verts
  {
    Depths(tree, root)[v]
  }

  /** In the breadth-first tree of a graph, the steps of a vertex are its distance in the graph. */
  lemma StepsAreDistances(g: Graph<Actor, Movies>, s: Actor, tree: Graph<Actor, Movies>, d: map<Actor, nat>, v: Actor)
    requires IsPathTree(g, s, tree, d) && v in tree.verts
    ensures Ranked(tree, s) && Steps(tree, s, v) == d[v] && IsDist(g, s, v, Steps(tree, s, v))
  {
  }

  /** The breadth-first tree from `s`, with what the game keeps about it. */
  method CenterTree(g: Graph<Actor, Movies>, s: Actor) returns (tree: Graph<Actor, Movies>)
    requires g.Valid() && g.HasVertex(s)
    ensures CenterTreeOf(g, s, tree) && exists d :: IsPathTree(g, s, tree, d)
    ensures tree.OutDegree(s) == 0 && tree.NumEdges() == tree.NumVertices() - 1
  {
    ghost var depth;
    tree, depth := Bfs(g, s);
    PathTreeInGraph(g, s, tree, depth);
  }

  /** A breadth-first tree only holds vertices of the graph. */
  lemma PathTreeInGraph<V(!new), E>(g: Graph<V, E>, src: V, t: Graph<V, E>, d: map<V, nat>)
    requires g.Valid() && src in g.verts && IsPathTree(g, src, t, d)
    ensures t.verts <= g.verts
  {
    forall v | v in t.verts ensures v in g.verts {
      var k: nat :| v in Within(g, src, k);
      WithinInGraph(g, src, k);
    }
  }

  lemma {:induction false} WithinInGraph<V(!new), E>(g: Graph<V, E>, src: V, k: nat)
    requires g.Valid() && src in g.verts
    ensures Within(g, src, k) <= g.verts
  {
    if k > 0 {
      WithinInGraph(g, src, k - 1);
    }
  }

  /**
   * Two breadth-first trees from the same center agree on their vertices and on every
   * depth; they can differ only in which of several equally near parents a vertex got.
   * So setting the same center twice gives the same separations.
   */
  lemma PathTreesAgree<V(!new), E>(g: Graph<V, E>, src: V, t1: Graph<V, E>, d1: map<V, nat>,
                                   t2: Graph<V, E>, d2: map<V, nat>)
    requires IsPathTree(g, src, t1, d1) && IsPathTree(g, src, t2, d2)
    ensures t1.verts == t2.verts && d1 == d2
  {
    assert t1.verts == t2.verts;
    forall v | v in t1.verts ensures d1[v] == d2[v] {
      DistUnique(g, src, v, d1[v], d2[v]);
    }
  }

  /** The sum of the separations of every actor `s` is connected to, in the path tree of
      `g` from `s`; 0 when `g` has no such tree. */
  ghost function TotalSeparation(g: Graph<Actor, Movies>, s: Actor): int
  {
    if exists t, d :: IsPathTree(g, s, t, d) then
      var t, d :| IsPathTree(g, s, t, d);
      SeparationWeight(t.verts - {s}, d, 0)
    else 0
  }

  /** Every path tree of `g` from `s` has the same total separation. */
  lemma TotalSeparationIs(g: Graph<Actor, Movies>, s: Actor, t: Graph<Actor, Movies>, d: map<Actor, nat>)
    requires IsPathTree(g, s, t, d)
    ensures TotalSeparation(g, s) == SeparationWeight(t.verts - {s}, d, 0)
  {
    var t', d' :| IsPathTree(g, s, t', d') && TotalSeparation(g, s) == SeparationWeight(t'.verts - {s}, d', 0);
    PathTreesAgree(g, s, t, d, t', d');
  }

  /** The numerator of `averageSeparation(bfs(g, s), s)`. */
  method TotalSeparationOf(g: Graph<Actor, Movies>, s: Actor) returns (total: int)
    requires g.Valid() && g.HasVertex(s)
    ensures total == TotalSeparation(g, s)
  {
    var tree, depth := Bfs(g, s);
    var count;
    total, count := AverageSeparation(tree, s, depth);
    TotalSeparationIs(g, s, tree, depth);
  }

  /**
   * `list` is sorted by total separation, ascending when `up` and descending otherwise,
   * and no actor of `universe` left out of it comes before any actor in it.
   */
  ghost predicate Leading(g: Graph<Actor, Movies>, list: seq<Actor>, universe: set<Actor>, up: bool)
  {
    && (forall i, j :: 0 <= i < j < |list| ==>
          if up then TotalSeparation(g, list[i]) <= TotalSeparation(g, list[j])
          else TotalSeparation(g, list[i]) >= TotalSeparation(g, list[j]))
    && (forall v, w :: v in list && w in universe && w !in list ==>
          if up then TotalSeparation(g, v) <= TotalSeparation(g, w)
          else TotalSeparation(g, v) >= TotalSeparation(g, w))
  }

  /** The first `n` of a list sorted by the recorded totals lead the rest. */
  lemma TopOfSorted(g: Graph<Actor, Movies>, sorted: seq<Actor>, n: nat, universe: set<Actor>,
                    avgSep: map<Actor, int>, up: bool)
    requires n <= |sorted|
    requires forall v :: v in sorted <==> v in universe
    requires forall v :: v in sorted ==> v in avgSep && avgSep[v] == TotalSeparation(g, v)
    requires SortedBy(sorted, v => if v in avgSep then (if up then avgSep[v] else -avgSep[v]) else 0)
    ensures Leading(g, sorted[..n], universe, up)
  {
    var key := v => if v in avgSep then (if up then avgSep[v] else -avgSep[v]) else 0;
    SortedPrefix(sorted, key, n);
    forall v, w | v in sorted[..n] && w in universe && w !in sorted[..n]
      ensures key(v) <= key(w)
    {
      PrefixOrRest(sorted, n, w);
    }
  }

  /**
   * Averages can be ranked by their totals: every actor connected to `s` has a path
   * tree over the same actors, hence with as many edges as the tree of `s`, and the
   * average separation is the total divided by that edge count.
   */
  lemma SameUniverse(g: Graph<Actor, Movies>, s: Actor, t: Graph<Actor, Movies>, d: map<Actor, nat>,
                     u: Actor, tu: Graph<Actor, Movies>, du: map<Actor, nat>)
    requires g.Symmetric() && IsPathTree(g, s, t, d) && u in t.verts && IsPathTree(g, u, tu, du)
    ensures tu.verts == t.verts && tu.NumEdges() == t.NumEdges()
  {
    forall x ensures x in tu.verts <==> x in t.verts {
      SameComponent(g, s, u, x);
    }
  }

  /** Java's `int`. */
  predicate IsInt32(x: int)
  {
    -0x8000_0000 <= x < 0x8000_0000
  }

  /** Wraps an exact result into Java's `int` range, as `int` arithmetic does. */
  function Wrap32(x: int): (r: int)
    ensures IsInt32(r) && (r - x) % 0x1_0000_0000 == 0
    ensures IsInt32(x) ==> r == x
  {
    (x + 0x8000_0000) % 0x1_0000_0000 - 0x8000_0000
  }

  /**
   * The length `avgSeperationList` asks `subList` for, with its guards as written:
   * `num * -1` and `-1 * num` are `int` products, so they wrap.
   */
  function ListLengthAsWritten(num: int, n: int): (r: Option<int>)
    requires IsInt32(num)
    ensures r.None? <==> num == 0 || (num > 0 && num > n) || (num < 0 && Wrap32(-num) > n)
    ensures r.Some? ==> IsInt32(r.value) && r.value == Wrap32(if num > 0 then num else -num)
  {
    if num > 0 && num <= n then Some(num)
    else if num < 0 && Wrap32(num * -1) <= n then Some(Wrap32(-1 * num))
    else None
  }

  /** For the smallest `int` the guard lets a negative length through to `subList`. */
  lemma LengthAsWrittenNegative(n: int)
    requires n >= 0
    ensures ListLengthAsWritten(-0x8000_0000, n) == Some(-0x8000_0000)
  {
  }

  /**
   * The number of actors `avgSeperationList` returns: `|num|` when that is at least 1 and
   * at most the size `n` of the universe, otherwise none ("Invalid #").
   */
  function RequestedLength(num: int, n: int): (r: Option<nat>)
    ensures r.Some? ==> 0 < r.value <= n && r.value == (if num > 0 then num else -num)
    ensures r.None? <==> num == 0 || (num > 0 && num > n) || (num < 0 && -num > n)
  {
    if num > 0 && num <= n then Some(num)
    else if num < 0 && -num <= n then Some(-num)
    else None
  }

  /** Apart from the smallest `int`, the guards as written compute the same length. */
  lemma LengthAsWrittenAgrees(num: int, n: int)
    requires IsInt32(num) && num != -0x8000_0000
    ensures ListLengthAsWritten(num, n).None? <==> RequestedLength(num, n).None?
    ensures RequestedLength(num, n).Some? ==> ListLengthAsWritten(num, n).value == RequestedLength(num, n).value
  {
  }
}
