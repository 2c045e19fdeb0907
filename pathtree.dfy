/**
 * The shape of a shortest-path tree. Tree edges point from a child to its
 * parent, so the root is the one vertex without an out-edge. A ghost map `d`
 * gives each vertex its depth (number of edges to the root).
 */
module PathTree {
  import opened LabeledGraph
  import opened Reachability

  /** `v` has an out-edge in `t`. Statements that every vertex has a parent are triggered
      on this predicate only, so naming a parent does not in turn ask for the parent's parent. */
  ghost predicate HasParent<V(!new), E>(t: Graph<V, E>, v: V)
  {
    exists p :: (v, p) in t.edges
  }

  /** `t` is a tree rooted at `root` whose edges run child -> parent, with depths `d`. */
  ghost predicate RankedTree<V(!new), E>(t: Graph<V, E>, root: V, d: map<V, nat>)
  {
    && t.Valid()
    && d.Keys == t.verts
    && root in t.verts && d[root] == 0
    && (forall v :: v in t.verts ==> d[v] < |t.verts|)
    && (forall e :: e in t.edges ==> e.0 != root && d[e.0] == d[e.1] + 1)
    && (forall v {:trigger HasParent(t, v)} :: v in t.verts && v != root ==> HasParent(t, v))
    && (forall v, p, q :: (v, p) in t.edges && (v, q) in t.edges ==> p == q)
    && |t.edges| + 1 == |t.verts|
  }

  /** `t` is a breadth-first shortest-path tree of `g` from `src`: a ranked tree over
      exactly the vertices reachable from `src`, each tree edge v->u mirroring the graph
      edge u->v and carrying its label, and each depth a shortest distance. */
  ghost predicate IsPathTree<V(!new), E>(g: Graph<V, E>, src: V, t: Graph<V, E>, d: map<V, nat>)
  {
    && RankedTree(t, src, d)
    && (forall e :: e in t.edges ==> (e.1, e.0) in g.edges && t.edges[e] == g.edges[(e.1, e.0)])
    && (forall v :: v in t.verts ==> IsDist(g, src, v, d[v]))
    && (forall v :: v in t.verts <==> Reachable(g, src, v))
  }

  /** The unique out-neighbour of a non-root vertex. */
  ghost function Parent<V(!new), E>(t: Graph<V, E>, root: V, d: map<V, nat>, v: V): (p: V)
    requires RankedTree(t, root, d) && v in t.verts && v != root
    ensures (v, p) in t.edges && p in t.verts && d[p] + 1 == d[v]
    ensures t.OutNeighbors(v) == {p}
  {
    assert HasParent(t, v);
    var p :| (v, p) in t.edges;
    p
  }

  /** The root is exactly the vertex of out-degree 0, and every other vertex has out-degree 1. */
  lemma OutDegreeInTree<V(!new), E>(t: Graph<V, E>, root: V, d: map<V, nat>, v: V)
    requires RankedTree(t, root, d) && v in t.verts
    ensures t.OutDegree(v) == (if v == root then 0 else 1)
  {
    if v == root {
      assert t.OutNeighbors(v) == {};
    } else {
      var p := Parent(t, root, d, v);
    }
  }

  /** Only the root has depth 0. */
  lemma DepthZeroIsRoot<V(!new), E>(t: Graph<V, E>, root: V, d: map<V, nat>, v: V)
    requires RankedTree(t, root, d) && v in t.verts
    ensures d[v] == 0 <==> v == root
  {
    if v != root {
      var p := Parent(t, root, d, v);
    }
  }

  /** The depths of a ranked tree are fixed by its edges: two depth maps agree. */
  lemma {:induction false} RankedDepthUnique<V(!new), E>(t: Graph<V, E>, root: V, d1: map<V, nat>, d2: map<V, nat>, v: V)
    requires RankedTree(t, root, d1) && RankedTree(t, root, d2) && v in t.verts
    ensures d1[v] == d2[v]
    decreases d1[v]
  {
    if v != root {
      var p := Parent(t, root, d1, v);
      RankedDepthUnique(t, root, d1, d2, p);
    }
  }

  /** `t` is a ranked tree rooted at `root` for some depths. */
  ghost predicate Ranked<V(!new), E>(t: Graph<V, E>, root: V)
  {
    exists d :: RankedTree(t, root, d)
  }

  /** The depths of a ranked tree, which are unique. */
  ghost function Depths<V(!new), E>(t: Graph<V, E>, root: V): (d: map<V, nat>)
    requires Ranked(t, root)
    ensures RankedTree(t, root, d)
    ensures forall d' :: RankedTree(t, root, d') ==> d' == d
  {
    var d :| RankedTree(t, root, d);
    forall d' | RankedTree(t, root, d') ensures d' == d {
      forall v | v in t.verts ensures d'[v] == d[v] {
        RankedDepthUnique(t, root, d', d, v);
      }
    }
    d
  }

  /** The ancestor of `v` at depth `k`. */
  ghost function AncestorAt<V(!new), E>(t: Graph<V, E>, root: V, d: map<V, nat>, v: V, k: nat): (a: V)
    requires RankedTree(t, root, d) && v in t.verts && k <= d[v]
    ensures a in t.verts && d[a] == k
    decreases d[v]
  {
    if d[v] == k then v else AncestorAt(t, root, d, Parent(t, root, d, v), k)
  }

  /** The ancestor of `v` at depth `j` is the ancestor at depth `j` of its ancestor at depth `k`. */
  lemma {:induction false} AncestorAtTrans<V(!new), E>(t: Graph<V, E>, root: V, d: map<V, nat>,
                                                       v: V, k: nat, j: nat)
    requires RankedTree(t, root, d) && v in t.verts && j <= k <= d[v]
    ensures AncestorAt(t, root, d, v, j) == AncestorAt(t, root, d, AncestorAt(t, root, d, v, k), j)
    decreases d[v]
  {
    if d[v] != k {
      AncestorAtTrans(t, root, d, Parent(t, root, d, v), k, j);
    }
  }

  /** The vertices strictly below depth `k` whose ancestor at depth `k` lies in `s`. */
  ghost function DescOf<V(!new), E>(t: Graph<V, E>, root: V, d: map<V, nat>, k: nat, s: set<V>): set<V>
    requires RankedTree(t, root, d)
  {
    set v | v in t.verts && d[v] > k && AncestorAt(t, root, d, v, k) in s
  }

  /** The strict descendants of `r`. */
  ghost function Desc<V(!new), E>(t: Graph<V, E>, root: V, d: map<V, nat>, r: V): set<V>
    requires RankedTree(t, root, d) && r in t.verts
  {
    DescOf(t, root, d, d[r], {r})
  }

  /** A child of `r` (an in-neighbour in the tree) sits one level below `r`, with `r` as its parent. */
  lemma ChildOf<V(!new), E>(t: Graph<V, E>, root: V, d: map<V, nat>, r: V, c: V)
    requires RankedTree(t, root, d) && r in t.verts && c in t.InNeighbors(r)
    ensures c in t.verts && c != root && d[c] == d[r] + 1 && Parent(t, root, d, c) == r
  {
    assert (c, r) in t.edges;
  }

  lemma DescToChild<V(!new), E>(t: Graph<V, E>, root: V, d: map<V, nat>, r: V, v: V)
    requires RankedTree(t, root, d) && r in t.verts && v in Desc(t, root, d, r)
    ensures v in t.InNeighbors(r) || v in DescOf(t, root, d, d[r] + 1, t.InNeighbors(r))
  {
    var c := AncestorAt(t, root, d, v, d[r] + 1);
    AncestorAtTrans(t, root, d, v, d[r] + 1, d[r]);
    DepthZeroIsRoot(t, root, d, c);
    assert AncestorAt(t, root, d, c, d[r]) == Parent(t, root, d, c);
    assert (c, r) in t.edges;
  }

  lemma ChildToDesc<V(!new), E>(t: Graph<V, E>, root: V, d: map<V, nat>, r: V, v: V)
    requires RankedTree(t, root, d) && r in t.verts
    requires v in t.InNeighbors(r) || v in DescOf(t, root, d, d[r] + 1, t.InNeighbors(r))
    ensures v in Desc(t, root, d, r)
  {
    if v in t.InNeighbors(r) {
      ChildOf(t, root, d, r, v);
      assert AncestorAt(t, root, d, v, d[r]) == Parent(t, root, d, v);
    } else {
      var c := AncestorAt(t, root, d, v, d[r] + 1);
      ChildOf(t, root, d, r, c);
      AncestorAtTrans(t, root, d, v, d[r] + 1, d[r]);
      assert AncestorAt(t, root, d, c, d[r]) == Parent(t, root, d, c);
    }
  }

  /** The strict descendants of `r` are its children together with everything below
      them; the two parts are disjoint. */
  lemma DescSplit<V(!new), E>(t: Graph<V, E>, root: V, d: map<V, nat>, r: V)
    requires RankedTree(t, root, d) && r in t.verts
    ensures Desc(t, root, d, r) == t.InNeighbors(r) + DescOf(t, root, d, d[r] + 1, t.InNeighbors(r))
    ensures t.InNeighbors(r) !! DescOf(t, root, d, d[r] + 1, t.InNeighbors(r))
  {
    var kids := t.InNeighbors(r);
    var below := DescOf(t, root, d, d[r] + 1, kids);
    forall v | v in Desc(t, root, d, r) ensures v in kids + below {
      DescToChild(t, root, d, r, v);
    }
    forall v | v in kids + below ensures v in Desc(t, root, d, r) {
      ChildToDesc(t, root, d, r, v);
    }
    forall v | v in kids ensures v !in below {
      ChildOf(t, root, d, r, v);
    }
  }

  /** Every vertex other than the root descends from the root. */
  lemma DescOfRoot<V(!new), E>(t: Graph<V, E>, root: V, d: map<V, nat>)
    requires RankedTree(t, root, d)
    ensures Desc(t, root, d, root) == t.verts - {root}
  {
    forall v | v in t.verts - {root} ensures v in Desc(t, root, d, root) {
      DepthZeroIsRoot(t, root, d, v);
      var a := AncestorAt(t, root, d, v, 0);
      DepthZeroIsRoot(t, root, d, a);
    }
  }

  /** The sum, over the vertices `v` of `s`, of `base + d[v]`. */
  ghost function SeparationWeight<V>(s: set<V>, d: map<V, nat>, base: int): int
    requires s <= d.Keys
    decreases s
  {
    if s == {} then 0 else
      var x :| x in s;
      base + d[x] + SeparationWeight(s - {x}, d, base)
  }

  /** Any element may be taken out of the sum first. */
  lemma {:induction false} SeparationWeightRemove<V>(s: set<V>, d: map<V, nat>, base: int, y: V)
    requires s <= d.Keys && y in s
    ensures SeparationWeight(s, d, base) == base + d[y] + SeparationWeight(s - {y}, d, base)
    decreases s
  {
    var x :| x in s && SeparationWeight(s, d, base) == base + d[x] + SeparationWeight(s - {x}, d, base);
    if x != y {
      SeparationWeightRemove(s - {x}, d, base, y);
      SeparationWeightRemove(s - {y}, d, base, x);
      assert s - {x} - {y} == s - {y} - {x};
    }
  }

  lemma {:induction false} SeparationWeightUnion<V>(a: set<V>, b: set<V>, d: map<V, nat>, base: int)
    requires a <= d.Keys && b <= d.Keys && a !! b
    ensures SeparationWeight(a + b, d, base) == SeparationWeight(a, d, base) + SeparationWeight(b, d, base)
    decreases a
  {
    if a != {} {
      var x :| x in a;
      SeparationWeightRemove(a, d, base, x);
      SeparationWeightRemove(a + b, d, base, x);
      assert a + b - {x} == (a - {x}) + b;
      SeparationWeightUnion(a - {x}, b, d, base);
    } else {
      assert a + b == b;
    }
  }

  /** When every term of the sum is `w`, the sum is `w` times the number of terms. */
  lemma {:induction false} SeparationWeightLevel<V>(s: set<V>, d: map<V, nat>, base: int, w: int)
    requires s <= d.Keys && forall v :: v in s ==> base + d[v] == w
    ensures SeparationWeight(s, d, base) == |s| * w
    decreases s
  {
    if s != {} {
      var x :| x in s;
      SeparationWeightRemove(s, d, base, x);
      SeparationWeightLevel(s - {x}, d, base, w);
    }
  }

  /** Splitting the ancestor set splits the descendants. */
  lemma DescOfAdd<V(!new), E>(t: Graph<V, E>, root: V, d: map<V, nat>, k: nat, a: set<V>, x: V)
    requires RankedTree(t, root, d) && x !in a
    ensures DescOf(t, root, d, k, a + {x}) == DescOf(t, root, d, k, a) + DescOf(t, root, d, k, {x})
    ensures DescOf(t, root, d, k, a) !! DescOf(t, root, d, k, {x})
    ensures DescOf(t, root, d, k, a) <= d.Keys && DescOf(t, root, d, k, {x}) <= d.Keys
  {
  }

  /** When every term is at least one, the sum is at least the number of terms. */
  lemma {:induction false} SeparationWeightAtLeast<V>(s: set<V>, d: map<V, nat>)
    requires s <= d.Keys && forall v :: v in s ==> d[v] >= 1
    ensures SeparationWeight(s, d, 0) >= |s|
    decreases s
  {
    if s != {} {
      var x :| x in s;
      SeparationWeightRemove(s, d, 0, x);
      SeparationWeightAtLeast(s - {x}, d);
    }
  }
}
