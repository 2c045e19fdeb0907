/**
 * Collapsing movie casts into the actor graph. Every two different actors of a
 * cast are joined by an edge in each direction, and the movie is added to the
 * label of that edge. The two directions share one label set, so after each
 * addition the label is written to both of them.
 *
 * The module is generic in the actor type `A` and the movie type `M`; the game
 * instantiates both with strings.
 */
module CastGraph {
  import opened LabeledGraph

  /** The label of a->b, or the empty set when there is no such edge. */
  function LabelOr<A(!new), M>(g: Graph<A, set<M>>, e: (A, A)): set<M>
  {
    if e in g.edges then g.edges[e] else {}
  }

  /** The movies among `done` in which both `a` and `b` appear. */
  ghost function Shared<A, M>(m: map<M, set<A>>, done: set<M>, a: A, b: A): set<M>
  {
    set mv | mv in done && mv in m && a in m[mv] && b in m[mv]
  }

  /** The first components of a set of pairs. */
  ghost function Ends<A>(done: set<(A, A)>): set<A>
  {
    set e | e in done :: e.0
  }

  /** `xs` lists the elements of `s`, each once; `idx` gives the position of each. */
  ghost predicate Listing<A>(s: set<A>, xs: seq<A>, idx: map<A, nat>)
  {
    && |xs| == |s| && idx.Keys == s
    && (forall k :: 0 <= k < |xs| ==> xs[k] in s && idx[xs[k]] == k)
    && (forall a :: a in idx ==> idx[a] < |xs| && xs[idx[a]] == a)
  }

  /** The elements of a set in some order, as `toArray` gives them. */
  method ToSeq<A>(s: set<A>) returns (xs: seq<A>, ghost idx: map<A, nat>)
    ensures |xs| == |s| && forall a :: a in xs <==> a in s
    ensures Listing(s, xs, idx)
  {
    xs := [];
    idx := map[];
    var rest := s;
    while rest != {}
      invariant rest <= s && idx.Keys == s - rest && |xs| + |rest| == |s|
      invariant forall k :: 0 <= k < |xs| ==> xs[k] in s - rest && idx[xs[k]] == k
      invariant forall a :: a in idx ==> idx[a] < |xs| && xs[idx[a]] == a
      invariant forall a :: a in xs <==> a in s - rest
      decreases rest
    {
      var a :| a in rest;
      idx := idx[a := |xs|];
      xs := xs + [a];
      rest := rest - {a};
    }
  }

  /** The ordered pairs of two different actors of `cast`. */
  ghost function Pairs<A>(cast: set<A>): set<(A, A)>
  {
    set a, b | a in cast && b in cast && a != b :: (a, b)
  }

  /** The pairs `x` forms with each of `ys`, in both orientations. */
  ghost function Row<A>(x: A, ys: seq<A>): set<(A, A)>
  {
    if ys == [] then {} else Row(x, ys[..|ys| - 1]) + {(x, ys[|ys| - 1]), (ys[|ys| - 1], x)}
  }

  /** The pairs handled by the first `c` rows of the scan over `xs`: row `k` pairs
      `xs[k]` with every later actor. */
  ghost function Scanned<A>(xs: seq<A>, c: nat): set<(A, A)>
    requires c <= |xs|
  {
    if c == 0 then {} else Scanned(xs, c - 1) + Row(xs[c - 1], xs[c..])
  }

  /** The edges of `g0` together with those of `done`, with `mv` added to the label of each
      edge of `done`; an edge of `done` that `g0` lacks starts from the empty label. */
  ghost function AddedEdges<A(!new), M>(g0: Graph<A, set<M>>, mv: M, done: set<(A, A)>): map<(A, A), set<M>>
  {
    map e | e in g0.edges.Keys + done :: if e in done then LabelOr(g0, e) + {mv} else LabelOr(g0, e)
  }

  /** The graph `g` is `g0` with movie `mv` added on exactly the edges of `done`. */
  ghost predicate AddedOn<A(!new), M>(g0: Graph<A, set<M>>, g: Graph<A, set<M>>, mv: M, done: set<(A, A)>)
  {
    && g0.Valid() && g0.Symmetric() && g.Valid() && g.Symmetric()
    && g.verts == g0.verts + Ends(done)
    && g.edges == AddedEdges(g0, mv, done)
  }

  /**
   * Joins every two actors of `cast` in `g0` and records `mv` on their edge. An edge
   * that does not exist yet is first created with an empty label; the movie is then
   * added to the label both directions share.
   */
  method AddCast<A(!new), M>(g0: Graph<A, set<M>>, mv: M, cast: set<A>) returns (g: Graph<A, set<M>>)
    requires g0.Valid() && g0.Symmetric()
    ensures AddedOn(g0, g, mv, Pairs(cast))
  {
    var actors;
    ghost var idx;
    actors, idx := ToSeq(cast);
    g := g0;
    AddedOnNothing(g0, mv);
    var currIndex := 0;
    while currIndex < |actors|
      invariant currIndex <= |actors|
      invariant AddedOn(g0, g, mv, Scanned(actors, currIndex))
    {
      var next := currIndex + 1;
      g := AddRow(g0, g, mv, cast, actors, idx, currIndex, next);
      currIndex := next;
    }
    ScanAll(cast, actors, idx, currIndex);
  }

  /** One row of the scan: joins `actors[c]` with every later actor of the list. */
  method AddRow<A(!new), M>(g0: Graph<A, set<M>>, g: Graph<A, set<M>>, mv: M, ghost cast: set<A>,
                            actors: seq<A>, ghost idx: map<A, nat>, c: nat, ghost next: nat)
    returns (g': Graph<A, set<M>>)
    requires Listing(cast, actors, idx) && c < |actors| && next == c + 1
    requires AddedOn(g0, g, mv, Scanned(actors, c))
    ensures AddedOn(g0, g', mv, Scanned(actors, next))
  {
    ghost var done := Scanned(actors, c);
    g' := g;
    var i := c + 1;
    RowStart(g0, g', mv, done, actors, c);
    while i < |actors|
      invariant c + 1 <= i <= |actors|
      invariant RowProgress(g0, g', mv, done, actors, c, i)
    {
      var g1 := g';
      if !g1.HasEdge(actors[c], actors[i]) {
        g1 := g1.InsertUndirected(actors[c], actors[i], {});
      }
      var g2 := g1.InsertUndirected(actors[c], actors[i], g1.GetLabel(actors[c], actors[i]) + {mv});
      ScanStep(cast, actors, idx, c, i, done);
      var after := i + 1;
      AddPair(g0, g', g1, g2, mv, done, actors, c, i, after);
      g', i := g2, after;
    }
    ScanNext(actors, c, i, next);
  }

  /** A finished row joins the pairs of the earlier rows. */
  lemma ScanNext<A>(xs: seq<A>, c: nat, i: nat, next: nat)
    requires c < |xs| && i == |xs| && next == c + 1
    ensures Scanned(xs, c) + Row(xs[c], xs[c + 1..i]) == Scanned(xs, next)
  {
    assert xs[c + 1..i] == xs[next..];
  }

  /** Row `c` of the scan is handled up to column `i`, exclusive. */
  ghost predicate RowProgress<A(!new), M>(g0: Graph<A, set<M>>, g: Graph<A, set<M>>, mv: M,
                                         done: set<(A, A)>, xs: seq<A>, c: nat, i: nat)
    requires c < i <= |xs|
  {
    AddedOn(g0, g, mv, done + Row(xs[c], xs[c + 1..i]))
  }

  /** Different positions hold different actors. */
  lemma ListingInjective<A>(s: set<A>, xs: seq<A>, idx: map<A, nat>, p: nat, q: nat)
    requires Listing(s, xs, idx) && p < |xs| && q < |xs| && p != q
    ensures xs[p] != xs[q]
  {
    assert idx[xs[p]] == p && idx[xs[q]] == q;
  }

  /** An actor listed at position `k` does not occur in a part of the list that avoids `k`. */
  lemma ListingAvoids<A>(s: set<A>, xs: seq<A>, idx: map<A, nat>, k: nat, lo: nat, hi: nat)
    requires Listing(s, xs, idx) && k < |xs| && lo <= hi <= |xs| && !(lo <= k < hi)
    ensures xs[k] !in xs[lo..hi]
  {
  }

  lemma AddedOnNothing<A(!new), M>(g0: Graph<A, set<M>>, mv: M)
    requires g0.Valid() && g0.Symmetric()
    ensures AddedOn(g0, g0, mv, {})
  {
    var e0 := AddedEdges(g0, mv, {});
    assert e0.Keys == g0.edges.Keys;
    forall e | e in e0 ensures e0[e] == g0.edges[e] {
    }
    assert e0 == g0.edges;
    assert Ends<A>({}) == {};
  }

  /** Every pair of `Row(x, ys)` joins `x` with a member of `ys`. */
  lemma {:induction false} RowShape<A>(x: A, ys: seq<A>, e: (A, A))
    requires e in Row(x, ys)
    ensures (e.0 == x && e.1 in ys) || (e.1 == x && e.0 in ys)
    decreases |ys|
  {
    var n := |ys|;
    if e !in {(x, ys[n - 1]), (ys[n - 1], x)} {
      RowShape(x, ys[..n - 1], e);
    }
  }

  /** Every pair handled by the first `c` rows has an end among the first `c` actors. */
  lemma {:induction false} ScannedShape<A>(xs: seq<A>, c: nat, e: (A, A))
    requires c <= |xs| && e in Scanned(xs, c)
    ensures e.0 in xs[..c] || e.1 in xs[..c]
  {
    if e in Scanned(xs, c - 1) {
      ScannedShape(xs, c - 1, e);
      assert xs[..c - 1] <= xs[..c];
    } else {
      RowShape(xs[c - 1], xs[c..], e);
      assert xs[..c][c - 1] == xs[c - 1];
    }
  }

  /** The pair at row `c`, column `i` has not been handled yet. */
  lemma ScanStep<A>(cast: set<A>, xs: seq<A>, idx: map<A, nat>, c: nat, i: nat, done: set<(A, A)>)
    requires Listing(cast, xs, idx) && c < i < |xs| && done == Scanned(xs, c)
    ensures xs[c] != xs[i]
    ensures (xs[c], xs[i]) !in done + Row(xs[c], xs[c + 1..i])
    ensures (xs[i], xs[c]) !in done + Row(xs[c], xs[c + 1..i])
  {
    ListingInjective(cast, xs, idx, c, i);
    ListingAvoids(cast, xs, idx, c, 0, c);
    ListingAvoids(cast, xs, idx, i, 0, c);
    ListingAvoids(cast, xs, idx, i, c + 1, i);
    NotScanned(xs, c, xs[c], xs[i]);
    NotInRow(xs[c], xs[c + 1..i], xs[i]);
  }

  /** Scanning one more column adds the pair it names. */
  lemma RowExtend<A>(done: set<(A, A)>, x: A, xs: seq<A>, lo: nat, i: nat, next: nat)
    requires lo <= i < |xs| && next == i + 1
    ensures done + Row(x, xs[lo..i]) + {(x, xs[i]), (xs[i], x)} == done + Row(x, xs[lo..next])
  {
    assert xs[lo..next][..i - lo] == xs[lo..i];
  }

  /** A row starts empty. */
  lemma RowStart<A(!new), M>(g0: Graph<A, set<M>>, g: Graph<A, set<M>>, mv: M,
                             done: set<(A, A)>, xs: seq<A>, c: nat)
    requires c < |xs| && AddedOn(g0, g, mv, done)
    ensures RowProgress(g0, g, mv, done, xs, c, c + 1)
  {
    assert xs[c + 1..c + 1] == [];
    assert done + Row(xs[c], xs[c + 1..c + 1]) == done;
  }

  /** A pair of two actors from outside the first `c` is not among the first `c` rows. */
  lemma NotScanned<A>(xs: seq<A>, c: nat, x: A, y: A)
    requires c <= |xs| && x !in xs[..c] && y !in xs[..c]
    ensures (x, y) !in Scanned(xs, c) && (y, x) !in Scanned(xs, c)
  {
    if (x, y) in Scanned(xs, c) {
      ScannedShape(xs, c, (x, y));
    }
    if (y, x) in Scanned(xs, c) {
      ScannedShape(xs, c, (y, x));
    }
  }

  /** `x` is not yet paired with an actor `y` missing from `ys`. */
  lemma NotInRow<A>(x: A, ys: seq<A>, y: A)
    requires x != y && y !in ys
    ensures (x, y) !in Row(x, ys) && (y, x) !in Row(x, ys)
  {
    if (x, y) in Row(x, ys) {
      RowShape(x, ys, (x, y));
    }
    if (y, x) in Row(x, ys) {
      RowShape(x, ys, (y, x));
    }
  }

  /** `x` is paired with each member of `ys`. */
  lemma {:induction false} RowHas<A>(x: A, ys: seq<A>, y: A)
    requires y in ys
    ensures (x, y) in Row(x, ys) && (y, x) in Row(x, ys)
    decreases |ys|
  {
    var n := |ys|;
    if y != ys[n - 1] {
      assert y in ys[..n - 1] by {
        var j :| 0 <= j < n && ys[j] == y;
        assert ys[..n - 1][j] == y;
      }
      RowHas(x, ys[..n - 1], y);
    }
  }

  /** Row `p` is among the first `c` rows when `p < c`. */
  lemma {:induction false} ScannedHasRow<A>(xs: seq<A>, c: nat, p: nat)
    requires p < c <= |xs|
    ensures Row(xs[p], xs[p + 1..]) <= Scanned(xs, c)
  {
    if p < c - 1 {
      ScannedHasRow(xs, c - 1, p);
    }
  }

  /** A row of different actors of `cast` only holds pairs of `Pairs(cast)`. */
  lemma RowInPairs<A>(cast: set<A>, x: A, ys: seq<A>)
    requires x in cast && x !in ys && forall k :: 0 <= k < |ys| ==> ys[k] in cast
    ensures Row(x, ys) <= Pairs(cast)
  {
    forall e | e in Row(x, ys) ensures e in Pairs(cast) {
      RowShape(x, ys, e);
    }
  }

  /** The pairs of the first `c` rows are pairs of different actors of `cast`. */
  lemma {:induction false} ScannedInPairs<A>(cast: set<A>, xs: seq<A>, idx: map<A, nat>, c: nat)
    requires Listing(cast, xs, idx) && c <= |xs|
    ensures Scanned(xs, c) <= Pairs(cast)
  {
    if c > 0 {
      ScannedInPairs(cast, xs, idx, c - 1);
      ListingAvoids(cast, xs, idx, c - 1, c, |xs|);
      assert xs[c..] == xs[c..|xs|];
      RowInPairs(cast, xs[c - 1], xs[c..]);
    }
  }

  /** After the last row every pair of different actors has been handled. */
  lemma ScanAll<A>(cast: set<A>, xs: seq<A>, idx: map<A, nat>, c: nat)
    requires Listing(cast, xs, idx) && c == |xs|
    ensures Scanned(xs, c) == Pairs(cast)
  {
    ScannedInPairs(cast, xs, idx, c);
    forall e | e in Pairs(cast) ensures e in Scanned(xs, c) {
      var p, q := idx[e.0], idx[e.1];
      var lo, hi := if p < q then p else q, if p < q then q else p;
      assert xs[lo + 1..][hi - lo - 1] == xs[hi];
      RowHas(xs[lo], xs[lo + 1..], xs[hi]);
      ScannedHasRow(xs, c, lo);
    }
  }

  /** Handling the pair at row `c`, column `i`. */
  lemma AddPair<A(!new), M>(g0: Graph<A, set<M>>, g: Graph<A, set<M>>, g1: Graph<A, set<M>>,
                            g2: Graph<A, set<M>>, mv: M, done: set<(A, A)>, xs: seq<A>, c: nat, i: nat, next: nat)
    requires c < i < |xs| && next == i + 1 && xs[c] != xs[i]
    requires RowProgress(g0, g, mv, done, xs, c, i)
    requires (xs[c], xs[i]) !in done + Row(xs[c], xs[c + 1..i])
    requires (xs[i], xs[c]) !in done + Row(xs[c], xs[c + 1..i])
    requires g1 == if g.HasEdge(xs[c], xs[i]) then g else g.InsertUndirected(xs[c], xs[i], {})
    requires g2 == g1.InsertUndirected(xs[c], xs[i], g1.GetLabel(xs[c], xs[i]) + {mv})
    ensures RowProgress(g0, g2, mv, done, xs, c, next)
  {
    var before := done + Row(xs[c], xs[c + 1..i]);
    LinkPair(g0, g, g1, g2, mv, before, xs[c], xs[i]);
    RowExtend(done, xs[c], xs, c + 1, i, next);
  }

  /** Creating the edge x->y if need be and adding `mv` to the label of both directions. */
  lemma LinkPair<A(!new), M>(g0: Graph<A, set<M>>, g: Graph<A, set<M>>, g1: Graph<A, set<M>>,
                             g2: Graph<A, set<M>>, mv: M, done: set<(A, A)>, x: A, y: A)
    requires AddedOn(g0, g, mv, done) && x != y && (x, y) !in done && (y, x) !in done
    requires g1 == if g.HasEdge(x, y) then g else g.InsertUndirected(x, y, {})
    requires g2 == g1.InsertUndirected(x, y, g1.GetLabel(x, y) + {mv})
    ensures AddedOn(g0, g2, mv, done + {(x, y), (y, x)})
  {
    var lbl := LabelOr(g0, (x, y)) + {mv};
    assert g1.edges[(x, y)] == LabelOr(g0, (x, y));
    LinkShape(g, g1, g2, x, y, lbl);
    LinkAdded(g0, g, g2, mv, done, x, y);
  }

  /** Both ways of reaching the second insertion give the same graph. */
  lemma LinkShape<A(!new), M>(g: Graph<A, set<M>>, g1: Graph<A, set<M>>, g2: Graph<A, set<M>>,
                              x: A, y: A, lbl: set<M>)
    requires g1 == if g.HasEdge(x, y) then g else g.InsertUndirected(x, y, {})
    requires g2 == g1.InsertUndirected(x, y, lbl)
    ensures g2 == Graph(g.verts + {x, y}, g.edges[(x, y) := lbl][(y, x) := lbl])
  {
    if !g.HasEdge(x, y) {
      assert g1.edges[(x, y) := lbl][(y, x) := lbl] == g.edges[(x, y) := lbl][(y, x) := lbl];
    }
  }

  lemma LinkAdded<A(!new), M>(g0: Graph<A, set<M>>, g: Graph<A, set<M>>, g2: Graph<A, set<M>>,
                              mv: M, done: set<(A, A)>, x: A, y: A)
    requires AddedOn(g0, g, mv, done) && x != y && (x, y) !in done && (y, x) !in done
    requires g2 == Graph(g.verts + {x, y}, g.edges[(x, y) := LabelOr(g0, (x, y)) + {mv}][(y, x) := LabelOr(g0, (x, y)) + {mv}])
    requires g2.Valid() && g2.Symmetric()
    ensures AddedOn(g0, g2, mv, done + {(x, y), (y, x)})
  {
    assert LabelOr(g0, (y, x)) == LabelOr(g0, (x, y));
    EndsStep(done, x, y);
    AddedEdgesStep(g0, mv, done, x, y);
  }

  lemma EndsStep<A>(done: set<(A, A)>, x: A, y: A)
    ensures Ends(done + {(x, y), (y, x)}) == Ends(done) + {x, y}
  {
    var pairs := {(x, y), (y, x)};
    assert (x, y) in pairs && (y, x) in pairs;
  }

  lemma AddedEdgesStep<A(!new), M>(g0: Graph<A, set<M>>, mv: M, done: set<(A, A)>, x: A, y: A)
    requires (x, y) !in done && (y, x) !in done && LabelOr(g0, (y, x)) == LabelOr(g0, (x, y))
    ensures AddedEdges(g0, mv, done + {(x, y), (y, x)})
         == AddedEdges(g0, mv, done)[(x, y) := LabelOr(g0, (x, y)) + {mv}][(y, x) := LabelOr(g0, (x, y)) + {mv}]
  {
  }

  /** The ordered pairs of two different actors who appear together in a movie of `done`. */
  ghost function SharedPairs<A, M>(m: map<M, set<A>>, done: set<M>): set<(A, A)>
  {
    set mv, a, b | mv in done && mv in m && a in m[mv] && b in m[mv] && a != b :: (a, b)
  }

  /** The label of `e` once the movies of `done` are collapsed into `g0`: the movies of
      `done` the two actors share are added, when they are two different co-stars. */
  ghost function CollapsedLabel<A(!new), M>(g0: Graph<A, set<M>>, m: map<M, set<A>>, done: set<M>, e: (A, A)): set<M>
  {
    if e in SharedPairs(m, done) then LabelOr(g0, e) + Shared(m, done, e.0, e.1) else LabelOr(g0, e)
  }

  ghost function CollapsedEdges<A(!new), M>(g0: Graph<A, set<M>>, m: map<M, set<A>>, done: set<M>): map<(A, A), set<M>>
  {
    map e | e in g0.edges.Keys + SharedPairs(m, done) :: CollapsedLabel(g0, m, done, e)
  }

  /** The graph `g` is `g0` with every movie of `done` collapsed into it. */
  ghost predicate Collapsed<A(!new), M>(g0: Graph<A, set<M>>, g: Graph<A, set<M>>, m: map<M, set<A>>, done: set<M>)
  {
    && g0.Valid() && g0.Symmetric() && g.Valid() && g.Symmetric()
    && g.verts == g0.verts + Ends(SharedPairs(m, done))
    && g.edges == CollapsedEdges(g0, m, done)
  }

  /**
   * Adds every movie of `m` to `g0`, one cast at a time, in whatever order the movies
   * come; the result does not depend on that order.
   */
  method Collapse<A(!new), M>(g0: Graph<A, set<M>>, m: map<M, set<A>>) returns (g: Graph<A, set<M>>)
    requires g0.Valid() && g0.Symmetric()
    ensures Collapsed(g0, g, m, m.Keys)
  {
    g := g0;
    var todo := m.Keys;
    ghost var done: set<M> := {};
    assert Split(m.Keys, todo, done);
    CollapseStart(g0, m);
    while todo != {}
      invariant Split(m.Keys, todo, done)
      invariant Collapsed(g0, g, m, done)
      decreases todo
    {
      var mv :| mv in todo;
      ghost var g' := g;
      g := AddCast(g, mv, m[mv]);
      var todo' := todo - {mv};
      ghost var done' := done + {mv};
      SplitStep(m.Keys, todo, done, mv, todo', done');
      CollapseStep(g0, g', g, m, done, mv, done');
      todo, done := todo', done';
    }
    SplitEnd(m.Keys, todo, done);
  }

  /** The movies still to do and those done partition `keys`. */
  ghost predicate Split<M>(keys: set<M>, todo: set<M>, done: set<M>)
  {
    todo <= keys && done == keys - todo
  }

  lemma SplitStep<M>(keys: set<M>, todo: set<M>, done: set<M>, mv: M, todo': set<M>, done': set<M>)
    requires Split(keys, todo, done) && mv in todo && todo' == todo - {mv} && done' == done + {mv}
    ensures Split(keys, todo', done') && mv in keys && mv !in done
  {
  }

  lemma SplitEnd<M>(keys: set<M>, todo: set<M>, done: set<M>)
    requires Split(keys, todo, done) && todo == {}
    ensures done == keys
  {
  }

  lemma CollapseStart<A(!new), M>(g0: Graph<A, set<M>>, m: map<M, set<A>>)
    requires g0.Valid() && g0.Symmetric()
    ensures Collapsed(g0, g0, m, {})
  {
    var none := SharedPairs(m, {});
    assert none == {};
    assert Ends(none) == {};
    var edges := CollapsedEdges(g0, m, {});
    assert edges.Keys == g0.edges.Keys;
    forall e | e in edges ensures edges[e] == g0.edges[e] {
    }
    assert edges == g0.edges;
  }

  /** Collapsing one more movie. */
  lemma CollapseStep<A(!new), M>(g0: Graph<A, set<M>>, g: Graph<A, set<M>>, g': Graph<A, set<M>>,
                                 m: map<M, set<A>>, done: set<M>, mv: M, done': set<M>)
    requires mv in m && mv !in done && done' == done + {mv}
    requires Collapsed(g0, g, m, done) && AddedOn(g, g', mv, Pairs(m[mv]))
    ensures Collapsed(g0, g', m, done')
  {
    SharedPairsStep(m, done, mv, done');
    EndsUnion(SharedPairs(m, done), Pairs(m[mv]));
    CollapsedEdgesStep(g0, g, m, done, mv, done');
  }

  lemma SharedPairsStep<A, M>(m: map<M, set<A>>, done: set<M>, mv: M, done': set<M>)
    requires mv in m && done' == done + {mv}
    ensures SharedPairs(m, done') == SharedPairs(m, done) + Pairs(m[mv])
  {
  }

  lemma EndsUnion<A>(s: set<(A, A)>, t: set<(A, A)>)
    ensures Ends(s + t) == Ends(s) + Ends(t)
  {
  }

  lemma CollapsedEdgesStep<A(!new), M>(g0: Graph<A, set<M>>, g: Graph<A, set<M>>,
                                       m: map<M, set<A>>, done: set<M>, mv: M, done': set<M>)
    requires mv in m && mv !in done && done' == done + {mv}
    requires g.edges == CollapsedEdges(g0, m, done)
    requires SharedPairs(m, done') == SharedPairs(m, done) + Pairs(m[mv])
    ensures AddedEdges(g, mv, Pairs(m[mv])) == CollapsedEdges(g0, m, done')
  {
    var lhs, rhs := AddedEdges(g, mv, Pairs(m[mv])), CollapsedEdges(g0, m, done');
    assert lhs.Keys == rhs.Keys;
    forall e | e in lhs ensures lhs[e] == rhs[e] {
      CollapsedLabelStep(g0, g, m, done, mv, done', e);
    }
  }

  /** The label of one edge after one more movie. */
  lemma CollapsedLabelStep<A(!new), M>(g0: Graph<A, set<M>>, g: Graph<A, set<M>>,
                                       m: map<M, set<A>>, done: set<M>, mv: M, done': set<M>, e: (A, A))
    requires mv in m && mv !in done && done' == done + {mv}
    requires g.edges == CollapsedEdges(g0, m, done)
    requires SharedPairs(m, done') == SharedPairs(m, done) + Pairs(m[mv])
    ensures LabelOr(g, e) == CollapsedLabel(g0, m, done, e)
    ensures (if e in Pairs(m[mv]) then LabelOr(g, e) + {mv} else LabelOr(g, e)) == CollapsedLabel(g0, m, done', e)
  {
    var shared, shared' := Shared(m, done, e.0, e.1), Shared(m, done', e.0, e.1);
    if e in Pairs(m[mv]) {
      assert shared' == shared + {mv};
      if e !in SharedPairs(m, done) {
        assert shared == {};
      }
    } else if e in SharedPairs(m, done) {
      assert shared' == shared;
    }
  }

  /** Two actors are co-stars of a movie of `done` exactly when they share one. */
  lemma SharedPairsIff<A, M>(m: map<M, set<A>>, done: set<M>, a: A, b: A)
    ensures (a, b) in SharedPairs(m, done) <==> a != b && Shared(m, done, a, b) != {}
  {
    if a != b && Shared(m, done, a, b) != {} {
      var mv :| mv in Shared(m, done, a, b);
      assert mv in done && mv in m && a in m[mv] && b in m[mv];
    }
    if (a, b) in SharedPairs(m, done) {
      var mv, a', b' :| mv in done && mv in m && a' in m[mv] && b' in m[mv] && a' != b' && (a, b) == (a', b');
      assert mv in Shared(m, done, a, b);
    }
  }

  /**
   * After collapsing the movies of `done`, a->b is an edge exactly when it was one
   * before or the two are different actors sharing a movie of `done`; its label is
   * the old label together with the shared movies.
   */
  lemma CollapsedEdge<A(!new), M>(g0: Graph<A, set<M>>, g: Graph<A, set<M>>, m: map<M, set<A>>, done: set<M>, a: A, b: A)
    requires Collapsed(g0, g, m, done)
    ensures g.HasEdge(a, b) <==> g0.HasEdge(a, b) || (a != b && Shared(m, done, a, b) != {})
    ensures g.HasEdge(a, b) ==>
      g.GetLabel(a, b) == LabelOr(g0, (a, b)) + (if a != b then Shared(m, done, a, b) else {})
  {
    SharedPairsIff(m, done, a, b);
    if a == b || Shared(m, done, a, b) == {} {
      assert LabelOr(g0, (a, b)) + {} == LabelOr(g0, (a, b));
    }
  }

  /** Every two different actors of a movie end up joined both ways, with the movie on
      their shared label. */
  lemma CoStarsJoined<A(!new), M>(g0: Graph<A, set<M>>, g: Graph<A, set<M>>, m: map<M, set<A>>,
                                  mv: M, a: A, b: A)
    requires Collapsed(g0, g, m, m.Keys)
    requires mv in m && a in m[mv] && b in m[mv] && a != b
    ensures g.HasEdge(a, b) && g.HasEdge(b, a)
    ensures mv in g.GetLabel(a, b) && g.GetLabel(a, b) == g.GetLabel(b, a)
  {
    assert mv in Shared(m, m.Keys, a, b);
    CollapsedEdge(g0, g, m, m.Keys, a, b);
  }

  /** An edge that existed keeps its label, which can only gain movies. */
  lemma LabelsOnlyGrow<A(!new), M>(g0: Graph<A, set<M>>, g: Graph<A, set<M>>, m: map<M, set<A>>, a: A, b: A)
    requires Collapsed(g0, g, m, m.Keys) && g0.HasEdge(a, b)
    ensures g.HasEdge(a, b) && g0.GetLabel(a, b) <= g.GetLabel(a, b)
  {
    CollapsedEdge(g0, g, m, m.Keys, a, b);
  }

  /** Only co-stars become connected, and a label only gains movies both actors were in. */
  lemma OnlyCoStars<A(!new), M>(g0: Graph<A, set<M>>, g: Graph<A, set<M>>, m: map<M, set<A>>,
                                a: A, b: A, mv: M)
    requires Collapsed(g0, g, m, m.Keys) && g.HasEdge(a, b) && mv in g.GetLabel(a, b) && mv !in LabelOr(g0, (a, b))
    ensures a != b && mv in m && a in m[mv] && b in m[mv]
  {
    CollapsedEdge(g0, g, m, m.Keys, a, b);
  }

  /** A new edge joins two different actors of a common movie. */
  lemma NewEdgesAreCoStars<A(!new), M>(g0: Graph<A, set<M>>, g: Graph<A, set<M>>, m: map<M, set<A>>, a: A, b: A)
    requires Collapsed(g0, g, m, m.Keys) && g.HasEdge(a, b) && !g0.HasEdge(a, b)
    ensures a != b && exists mv :: mv in m && a in m[mv] && b in m[mv]
  {
    CollapsedEdge(g0, g, m, m.Keys, a, b);
    var mv :| mv in Shared(m, m.Keys, a, b);
  }
}
