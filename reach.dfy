/**
 * Reachability and unweighted shortest-path distance in a labelled graph,
 * following out-edges. `Within(g, src, k)` is the set of vertices that some
 * path of at most `k` edges leads to from `src`.
 */
module Reachability {
  import opened LabeledGraph

  /** The vertices one out-edge away from some vertex of `s`. */
  function Post<V(!new), E>(g: Graph<V, E>, s: set<V>): (r: set<V>)
    ensures forall w :: w in r <==> exists u :: u in s && (u, w) in g.edges
  {
    set e | e in g.edges.Keys && e.0 in s :: e.1
  }

  function Within<V(!new), E>(g: Graph<V, E>, src: V, k: nat): set<V>
  {
    if k == 0 then {src} else Within(g, src, k - 1) + Post(g, Within(g, src, k - 1))
  }

  ghost predicate Reachable<V(!new), E>(g: Graph<V, E>, src: V, v: V)
  {
    exists k: nat :: v in Within(g, src, k)
  }

  /** `k` is the length of a shortest path from `src` to `v`. */
  ghost predicate IsDist<V(!new), E>(g: Graph<V, E>, src: V, v: V, k: nat)
  {
    v in Within(g, src, k) && (k == 0 || v !in Within(g, src, k - 1))
  }

  lemma {:induction false} WithinMonotone<V(!new), E>(g: Graph<V, E>, src: V, i: nat, j: nat)
    requires i <= j
    ensures Within(g, src, i) <= Within(g, src, j)
    decreases j
  {
    if i < j {
      WithinMonotone(g, src, i, j - 1);
    }
  }

  /** A shortest distance is no longer than the length of any path. */
  lemma DistIsLeast<V(!new), E>(g: Graph<V, E>, src: V, v: V, k: nat, j: nat)
    requires IsDist(g, src, v, k) && v in Within(g, src, j)
    ensures k <= j
  {
    if j < k {
      WithinMonotone(g, src, j, k - 1);
    }
  }

  lemma DistUnique<V(!new), E>(g: Graph<V, E>, src: V, v: V, k: nat, k': nat)
    requires IsDist(g, src, v, k) && IsDist(g, src, v, k')
    ensures k == k'
  {
    DistIsLeast(g, src, v, k, k');
    DistIsLeast(g, src, v, k', k);
  }

  /** A set holding `src` and closed under out-edges holds every vertex reachable from `src`. */
  lemma {:induction false} ClosedHoldsWithin<V(!new), E>(g: Graph<V, E>, src: V, s: set<V>, k: nat)
    requires src in s
    requires forall u, w :: u in s && (u, w) in g.edges ==> w in s
    ensures Within(g, src, k) <= s
  {
    if k > 0 {
      ClosedHoldsWithin(g, src, s, k - 1);
    }
  }

  /** `layers[k]` is the set of vertices within `k` steps of `src`, built one step at a time. */
  ghost predicate IsLayering<V(!new), E>(g: Graph<V, E>, src: V, layers: seq<set<V>>)
  {
    && |layers| > 0 && layers[0] == {src}
    && forall k :: 0 < k < |layers| ==> LayerStep(g, layers, k)
  }

  /** Layer `k` adds the out-neighbours of layer `k - 1`. */
  ghost predicate LayerStep<V(!new), E>(g: Graph<V, E>, layers: seq<set<V>>, k: nat)
  {
    0 < k < |layers| && layers[k] == layers[k - 1] + Post(g, layers[k - 1])
  }

  lemma {:induction false} LayeringIsWithin<V(!new), E>(g: Graph<V, E>, src: V, layers: seq<set<V>>, k: nat)
    requires IsLayering(g, src, layers) && k < |layers|
    ensures layers[k] == Within(g, src, k)
  {
    if k > 0 {
      assert LayerStep(g, layers, k);
      LayeringIsWithin(g, src, layers, k - 1);
    }
  }

  /** A layering with one more layer. */
  lemma ExtendLayering<V(!new), E>(g: Graph<V, E>, src: V, layers: seq<set<V>>)
    requires IsLayering(g, src, layers)
    ensures IsLayering(g, src, layers + [layers[|layers| - 1] + Post(g, layers[|layers| - 1])])
  {
    var next := layers + [layers[|layers| - 1] + Post(g, layers[|layers| - 1])];
    forall k | 0 < k < |next| ensures LayerStep(g, next, k) {
      if k < |layers| {
        assert LayerStep(g, layers, k);
      }
    }
  }

  /** An out-neighbour of layer `k` lies in layer `k + 1`. */
  lemma StepInto<V(!new), E>(g: Graph<V, E>, src: V, layers: seq<set<V>>, k: nat, u: V, v: V)
    requires IsLayering(g, src, layers) && k + 1 < |layers|
    requires u in layers[k] && (u, v) in g.edges
    ensures v in layers[k + 1]
  {
    assert LayerStep(g, layers, k + 1);
    assert v in Post(g, layers[k]);
  }

  /** `k` is the distance of `v` from the source, read off a layering. */
  ghost predicate DistIn<V>(layers: seq<set<V>>, v: V, k: nat)
  {
    k < |layers| && v in layers[k] && (k == 0 || v !in layers[k - 1])
  }

  lemma DistInIsDist<V(!new), E>(g: Graph<V, E>, src: V, layers: seq<set<V>>, v: V, k: nat)
    requires IsLayering(g, src, layers) && DistIn(layers, v, k)
    ensures IsDist(g, src, v, k)
  {
    LayeringIsWithin(g, src, layers, k);
    if k > 0 {
      LayeringIsWithin(g, src, layers, k - 1);
    }
  }

  /** Breadth-first layering: once every vertex within `lvl` steps is known, and the
      only vertices whose out-edges are unexplored lie at distance `lvl + 1`, every
      vertex within `lvl + 1` steps is known too. */
  lemma LayerComplete<V(!new), E>(g: Graph<V, E>, src: V, layers: seq<set<V>>, known: set<V>,
                                  pending: set<V>, d: map<V, nat>, lvl: nat)
    requires IsLayering(g, src, layers) && lvl + 1 < |layers|
    requires forall x :: x in known ==> x in d && DistIn(layers, x, d[x])
    requires forall x :: x in pending ==> x in d && d[x] == lvl + 1
    requires forall x, w :: x in known && x !in pending && (x, w) in g.edges ==> w in known
    requires layers[lvl] <= known
    ensures layers[lvl + 1] <= known
  {
    assert LayerStep(g, layers, lvl + 1);
    forall w | w in Post(g, layers[lvl]) ensures w in known {
      var x :| x in layers[lvl] && (x, w) in g.edges;
      assert x in pending ==> DistIn(layers, x, lvl + 1);
    }
  }

  /** Paths compose: what `v` reaches in `j` steps, `src` reaches in `i + j` when it reaches `v` in `i`. */
  lemma {:induction false} WithinTrans<V(!new), E>(g: Graph<V, E>, src: V, v: V, w: V, i: nat, j: nat)
    requires v in Within(g, src, i) && w in Within(g, v, j)
    ensures w in Within(g, src, i + j)
    decreases j
  {
    if j > 0 {
      if w in Within(g, v, j - 1) {
        WithinTrans(g, src, v, w, i, j - 1);
        WithinMonotone(g, src, i + j - 1, i + j);
      } else {
        var u :| u in Within(g, v, j - 1) && (u, w) in g.edges;
        WithinTrans(g, src, v, u, i, j - 1);
      }
    }
  }

  /** In a graph whose every edge has its reverse, paths can be walked backwards. */
  lemma {:induction false} WithinSym<V(!new), E>(g: Graph<V, E>, src: V, v: V, k: nat)
    requires g.Symmetric() && v in Within(g, src, k)
    ensures src in Within(g, v, k)
  {
    if k > 0 {
      if v in Within(g, src, k - 1) {
        WithinSym(g, src, v, k - 1);
        WithinMonotone(g, v, k - 1, k);
      } else {
        var u :| u in Within(g, src, k - 1) && (u, v) in g.edges;
        WithinSym(g, src, u, k - 1);
        BackStep(g, v, u, src, k - 1);
      }
    }
  }

  /** In a symmetric graph an edge can be walked backwards before a path. */
  lemma BackStep<V(!new), E>(g: Graph<V, E>, v: V, u: V, w: V, j: nat)
    requires g.Symmetric() && (u, v) in g.edges && w in Within(g, u, j)
    ensures w in Within(g, v, j + 1)
  {
    assert (v, u) in g.edges;
    assert u in Within(g, v, 1);
    WithinTrans(g, v, u, w, 1, j);
  }

  /** In such a graph, two vertices that reach each other reach the same vertices. */
  lemma SameComponent<V(!new), E>(g: Graph<V, E>, s: V, u: V, x: V)
    requires g.Symmetric() && Reachable(g, s, u)
    ensures Reachable(g, u, x) <==> Reachable(g, s, x)
  {
    var i: nat :| u in Within(g, s, i);
    if Reachable(g, u, x) {
      var j: nat :| x in Within(g, u, j);
      WithinTrans(g, s, u, x, i, j);
    }
    if Reachable(g, s, x) {
      var j: nat :| x in Within(g, s, j);
      WithinSym(g, s, u, i);
      WithinTrans(g, u, s, x, i, j);
    }
  }
}
