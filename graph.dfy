/**
 * The labelled directed graph the game is built on: a vertex set and a map
 * from ordered pairs (source, target) to edge labels. Only the operations
 * that the algorithms call are modelled; each is a pure function on the
 * graph value, and an insertion returns the updated graph.
 */
module LabeledGraph {

  datatype Graph<V(!new), E> = Graph(verts: set<V>, edges: map<(V, V), E>)
  {
    /** Every edge joins two vertices of the graph. */
    ghost predicate Valid()
    {
      forall e :: e in edges ==> e.0 in verts && e.1 in verts
    }

    /** An actor that is not a vertex of a well-formed graph has no edges. */
    predicate HasVertex(v: V): (r: bool)
      ensures Valid() && !r ==> OutNeighbors(v) == {} && InNeighbors(v) == {}
    {
      v in verts
    }

    predicate HasEdge(a: V, b: V): (r: bool)
      ensures Valid() && r ==> HasVertex(a) && HasVertex(b)
    {
      (a, b) in edges
    }

    /** In a symmetric graph the two directions of an edge carry the same label. */
    function GetLabel(a: V, b: V): (lbl: E)
      requires HasEdge(a, b)
      ensures Symmetric() ==> HasEdge(b, a) && lbl == edges[(b, a)]
    {
      edges[(a, b)]
    }

    /** Adds `v` when it is absent; inserting a present vertex changes nothing. */
    function InsertVertex(v: V): (g: Graph<V, E>)
      ensures g.verts == verts + {v} && g.edges == edges
      ensures Valid() ==> g.Valid()
    {
      Graph(verts + {v}, edges)
    }

    /** Creates or overwrites the edge a->b; the endpoints become vertices. */
    function InsertDirected(a: V, b: V, lbl: E): (g: Graph<V, E>)
      ensures g.verts == verts + {a, b}
      ensures g.HasEdge(a, b) && g.GetLabel(a, b) == lbl
      ensures forall e :: e != (a, b) ==> (e in g.edges <==> e in edges)
      ensures forall e :: e in edges && e != (a, b) ==> g.edges[e] == edges[e]
      ensures Valid() ==> g.Valid()
    {
      Graph(verts + {a, b}, edges[(a, b) := lbl])
    }

    /** Creates a->b and b->a, both carrying the one given label. */
    function InsertUndirected(a: V, b: V, lbl: E): (g: Graph<V, E>)
      ensures g.verts == verts + {a, b}
      ensures g.HasEdge(a, b) && g.GetLabel(a, b) == lbl
      ensures g.HasEdge(b, a) && g.GetLabel(b, a) == lbl
      ensures forall e :: e != (a, b) && e != (b, a) ==> (e in g.edges <==> e in edges)
      ensures forall e :: e in edges && e != (a, b) && e != (b, a) ==> g.edges[e] == edges[e]
      ensures Valid() ==> g.Valid()
      ensures Symmetric() ==> g.Symmetric()
    {
      InsertDirected(a, b, lbl).InsertDirected(b, a, lbl)
    }

    function OutNeighbors(v: V): (s: set<V>)
      ensures forall w :: w in s <==> (v, w) in edges
    {
      set e | e in edges.Keys && e.0 == v :: e.1
    }

    function InNeighbors(v: V): (s: set<V>)
      ensures forall w :: w in s <==> (w, v) in edges
    {
      set e | e in edges.Keys && e.1 == v :: e.0
    }

    function OutDegree(v: V): (n: nat)
      ensures n == 0 <==> forall w :: !HasEdge(v, w)
      ensures Valid() ==> n <= NumVertices()
    {
      NeighborFacts(v);
      |OutNeighbors(v)|
    }

    function InDegree(v: V): (n: nat)
      ensures n == 0 <==> forall w :: !HasEdge(w, v)
      ensures Valid() ==> n <= NumVertices()
    {
      NeighborFacts(v);
      |InNeighbors(v)|
    }

    function NumVertices(): (n: nat)
      ensures n == 0 <==> forall v :: !HasVertex(v)
    {
      CountFacts();
      |verts|
    }

    /** Counts directed edges, so an undirected pair counts twice. */
    function NumEdges(): (n: nat)
      ensures n == 0 <==> forall a, b :: !HasEdge(a, b)
    {
      CountFacts();
      |edges|
    }

    /** A vertex has no neighbours exactly when it has no edges; in a well-formed graph
        its neighbours are vertices, so there are at most as many of them as vertices. */
    lemma NeighborFacts(v: V)
      ensures |OutNeighbors(v)| == 0 <==> forall w :: !HasEdge(v, w)
      ensures |InNeighbors(v)| == 0 <==> forall w :: !HasEdge(w, v)
      ensures Valid() ==> |OutNeighbors(v)| <= |verts| && |InNeighbors(v)| <= |verts|
    {
      EmptyIff(OutNeighbors(v));
      EmptyIff(InNeighbors(v));
      if |OutNeighbors(v)| != 0 {
        var w :| w in OutNeighbors(v);
        assert HasEdge(v, w);
      }
      if |InNeighbors(v)| != 0 {
        var w :| w in InNeighbors(v);
        assert HasEdge(w, v);
      }
      if Valid() {
        SubsetSize(OutNeighbors(v), verts);
        SubsetSize(InNeighbors(v), verts);
      }
    }

    /** The graph has no vertices, or no edges, exactly when the counts are 0. */
    lemma CountFacts()
      ensures |verts| == 0 <==> forall v :: !HasVertex(v)
      ensures |edges| == 0 <==> forall a, b :: !HasEdge(a, b)
    {
      if |verts| != 0 {
        var v :| v in verts;
        assert HasVertex(v);
      }
      if |edges| != 0 {
        var e :| e in edges;
        assert HasEdge(e.0, e.1);
      }
    }

    /** Every edge has its reverse, and the two carry the same label. */
    ghost predicate Symmetric()
    {
      forall e :: e in edges ==> (e.1, e.0) in edges && edges[(e.1, e.0)] == edges[e]
    }
  }

  lemma SubsetSize<T>(a: set<T>, b: set<T>)
    requires a <= b
    ensures |a| <= |b|
  {
    assert b == a + (b - a);
  }

  lemma EmptyIff<T>(s: set<T>)
    ensures |s| == 0 <==> forall x :: x !in s
  {
    if |s| != 0 {
      var x :| x in s;
    }
  }

  function Empty<V(!new), E>(): (g: Graph<V, E>)
    ensures g.Valid() && g.NumVertices() == 0 && g.NumEdges() == 0
  {
    Graph({}, map[])
  }

  /** In a graph built only from undirected insertions, in-degree and out-degree agree. */
  lemma SymmetricDegrees<V(!new), E>(g: Graph<V, E>, v: V)
    requires g.Symmetric()
    ensures g.InNeighbors(v) == g.OutNeighbors(v)
    ensures g.InDegree(v) == g.OutDegree(v)
  {
    forall w | w in g.OutNeighbors(v) ensures w in g.InNeighbors(v) {
      var e := (v, w);
      assert e in g.edges;
    }
    forall w | w in g.InNeighbors(v) ensures w in g.OutNeighbors(v) {
      var e := (w, v);
      assert e in g.edges;
    }
  }
}
