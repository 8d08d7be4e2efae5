/** The weighted undirected graph: a table from each vertex to its adjacency
    set of `Edge`s, with running vertex and edge counters. */
module WeightedGraph {
  import opened Exceptions
  import opened Edges
  import opened Sums

  /** Vertex -> its adjacency set, in insertion order. */
  type Adjacency = map<int, seq<Edge>>

  /** The shape every reachable graph has: adjacency sets without repeated
      destinations, every destination a vertex, and each undirected link stored
      on both sides with the same weight. */
  ghost predicate WellFormed(g: Adjacency)
  {
    && (forall u :: u in g ==> DistinctDests(g[u]))
    && (forall u, i {:trigger g[u][i]} :: u in g && 0 <= i < |g[u]| ==> g[u][i].dest in g)
    && (forall u, v {:trigger Lookup(g[u], v)} :: u in g && v in g ==> Lookup(g[u], v) == Lookup(g[v], u))
  }

  /** Number of edges at `v` that lead to another vertex (a self-loop is not one). */
  function NonLoop(g: Adjacency, v: int): int
  {
    if v in g then |g[v]| - (if Contains(g[v], v) then 1 else 0) else 0
  }

  function NonLoopOf(g: Adjacency): int -> int
  {
    v => NonLoop(g, v)
  }

  /** Twice the number of links between distinct vertices. */
  ghost function HalfEdges(g: Adjacency): int
  {
    SumOver(g.Keys, NonLoopOf(g))
  }

  function DegreeOf(g: Adjacency): int -> int
  {
    v => if v in g then |g[v]| else 0
  }

  /** The sum of all degrees. */
  ghost function DegreeTotal(g: Adjacency): int
  {
    SumOver(g.Keys, DegreeOf(g))
  }

  /** The graph after `addEdge(src, dest, w)` has written both directions. */
  function Connect(g: Adjacency, src: int, dest: int, w: int): (r: Adjacency)
    requires WellFormed(g) && src in g && dest in g
    ensures r.Keys == g.Keys
    ensures forall u :: u in g && u != src && u != dest ==> r[u] == g[u]
    ensures Contains(g[src], dest) ==> r == g
  {
    var g1 := g[src := Add(g[src], Edge(dest, w)).0];
    g1[dest := Add(g1[dest], Edge(src, w)).0]
  }

  /** A vertex that is not in the graph is nobody's neighbour. */
  lemma AbsentIsNoNeighbour(g: Adjacency, v: int)
    requires WellFormed(g) && v !in g
    ensures forall u :: u in g ==> Lookup(g[u], v) == None
  {
    forall u | u in g
      ensures Lookup(g[u], v) == None
    {
      if Contains(g[u], v) {
        var i := LookupIndex(g[u], v);
      }
    }
  }

  /** The destination of a stored edge is a vertex. */
  lemma NeighbourIsVertex(g: Adjacency, u: int, x: int)
    requires WellFormed(g) && u in g && Contains(g[u], x)
    ensures x in g
  {
    var i := LookupIndex(g[u], x);
    assert g[u][i].dest == x;
  }

  /** `addVertex` keeps the graph well formed and the link count. */
  lemma AddIsolatedVertex(g: Adjacency, v: int)
    requires WellFormed(g) && v !in g
    ensures WellFormed(g[v := []])
    ensures HalfEdges(g[v := []]) == HalfEdges(g)
  {
    var g' := g[v := []];
    AbsentIsNoNeighbour(g, v);
    forall u, x | u in g' && x in g'
      ensures Lookup(g'[u], x) == Lookup(g'[x], u)
    {
      if u != v && x != v {
        assert Lookup(g[u], x) == Lookup(g[x], u);
      }
    }
    AddIsolatedHalfEdges(g, v);
  }

  lemma AddIsolatedHalfEdges(g: Adjacency, v: int)
    requires v !in g
    ensures HalfEdges(g[v := []]) == HalfEdges(g)
  {
    var g' := g[v := []];
    assert g'.Keys == g.Keys + {v};
    SumOverExt(g.Keys, NonLoopOf(g), NonLoopOf(g'));
    SumOverInsert(g.Keys, NonLoopOf(g'), v);
  }

  /** After `Connect`, the two endpoints are linked in both directions with the
      same weight: the new one, or the one already stored. */
  lemma ConnectLinks(g: Adjacency, src: int, dest: int, w: int)
    requires WellFormed(g) && src in g && dest in g
    ensures var r := Connect(g, src, dest, w);
      && Lookup(r[src], dest) == Lookup(r[dest], src)
      && Lookup(r[src], dest) == (if Contains(g[src], dest) then Lookup(g[src], dest) else Some(w))
  {
  }

  /** `Connect` preserves well-formedness. */
  lemma ConnectWellFormed(g: Adjacency, src: int, dest: int, w: int)
    requires WellFormed(g) && src in g && dest in g
    ensures WellFormed(Connect(g, src, dest, w))
  {
    if !Contains(g[src], dest) {
      ConnectSymmetric(g, src, dest, w);
      ConnectClosed(g, src, dest, w);
    }
  }

  lemma ConnectSymmetric(g: Adjacency, src: int, dest: int, w: int)
    requires WellFormed(g) && src in g && dest in g && !Contains(g[src], dest)
    ensures var r := Connect(g, src, dest, w);
      forall a, b :: a in r && b in r ==> Lookup(r[a], b) == Lookup(r[b], a)
  {
    var r := Connect(g, src, dest, w);
    var g1 := g[src := Add(g[src], Edge(dest, w)).0];
    assert r == g1[dest := Add(g1[dest], Edge(src, w)).0];
    forall a, b | a in r && b in r
      ensures Lookup(r[a], b) == Lookup(r[b], a)
    {
      assert Lookup(g[a], b) == Lookup(g[b], a);
    }
  }

  lemma ConnectClosed(g: Adjacency, src: int, dest: int, w: int)
    requires WellFormed(g) && src in g && dest in g
    ensures var r := Connect(g, src, dest, w);
      forall u: int, i: int {:trigger r[u][i]} :: u in r && 0 <= i < |r[u]| ==> r[u][i].dest in r
  {
    var r: Adjacency := Connect(g, src, dest, w);
    var g1 := g[src := Add(g[src], Edge(dest, w)).0];
    assert r == g1[dest := Add(g1[dest], Edge(src, w)).0];
    forall u: int, i: int | u in r && 0 <= i < |r[u]|
      ensures r[u][i].dest in r
    {
      if (u == src || u == dest) && i < |g[u]| {
        assert r[u][i] == g[u][i];
      }
    }
  }

  /** `Connect` adds two half-edges exactly when it links two distinct, previously
      unlinked vertices. */
  lemma ConnectHalfEdges(g: Adjacency, src: int, dest: int, w: int)
    requires WellFormed(g) && src in g && dest in g
    ensures HalfEdges(Connect(g, src, dest, w))
         == HalfEdges(g) + (if src != dest && !Contains(g[src], dest) then 2 else 0)
  {
    var r := Connect(g, src, dest, w);
    if Contains(g[src], dest) {
      return;
    }
    var g1 := g[src := Add(g[src], Edge(dest, w)).0];
    assert r == g1[dest := Add(g1[dest], Edge(src, w)).0];
    if src == dest {
      SumOverExt(g.Keys, NonLoopOf(g), NonLoopOf(r));
    } else {
      assert Lookup(g[dest], src) == None;
      SumOverUpdate(g.Keys, NonLoopOf(g), NonLoopOf(g1), src);
      SumOverUpdate(g.Keys, NonLoopOf(g1), NonLoopOf(r), dest);
    }
  }

  /** Handshake lemma: without self-loops the degrees add up to twice the number of
      links. */
  lemma Handshake(g: Adjacency, edges: int)
    requires WellFormed(g) && 2 * edges == HalfEdges(g)
    requires forall v :: v in g ==> !Contains(g[v], v)
    ensures DegreeTotal(g) == 2 * edges
  {
    SumOverExt(g.Keys, DegreeOf(g), NonLoopOf(g));
  }

  // ---------------------------------------------------------------------------
  // Clustering coefficient: links among the neighbours of a vertex.

  ghost predicate DestsIn(g: Adjacency, nodes: seq<Edge>)
  {
    forall k :: 0 <= k < |nodes| ==> nodes[k].dest in g
  }

  /** How many of the neighbours `nodes[lo..]` are adjacent to the neighbour `nodes[i]`. */
  function RowLinks(g: Adjacency, nodes: seq<Edge>, i: int, lo: int): nat
    requires DestsIn(g, nodes) && 0 <= i < |nodes| && 0 <= lo <= |nodes|
    decreases |nodes| - lo
  {
    if lo == |nodes| then 0
    else (if Contains(g[nodes[i].dest], nodes[lo].dest) then 1 else 0) + RowLinks(g, nodes, i, lo + 1)
  }

  /** Linked pairs (a, b) with a < i and a < b: the rows the outer loop has finished. */
  function PairLinks(g: Adjacency, nodes: seq<Edge>, i: int): nat
    requires DestsIn(g, nodes) && 0 <= i <= |nodes|
  {
    if i == 0 then 0 else PairLinks(g, nodes, i - 1) + RowLinks(g, nodes, i - 1, i)
  }

  /** Nv: the number of unordered pairs of neighbours that are linked to each other;
      each pair is examined once, so Nv <= Kv (Kv - 1) / 2. */
  function LinkedPairs(g: Adjacency, nodes: seq<Edge>): (nv: nat)
    requires DestsIn(g, nodes)
    ensures 2 * nv <= PairSlots(|nodes|)
    ensures |nodes| < 2 ==> nv == 0
  {
    PairLinksBound(g, nodes, |nodes|);
    PairLinks(g, nodes, |nodes|)
  }

  /** Kv (Kv - 1): twice the number of unordered pairs among Kv neighbours. */
  function PairSlots(kv: int): int
  {
    kv * (kv - 1)
  }

  /** CC = 2 Nv / (Kv (Kv - 1)), and 0 when no pair of neighbours is linked. */
  function Clustering(kv: int, nv: int): real
    requires 0 <= nv && 2 * nv <= PairSlots(kv)
  {
    if nv > 0 then (2 * nv) as real / PairSlots(kv) as real else 0.0
  }

  lemma {:induction false} RowLinksBound(g: Adjacency, nodes: seq<Edge>, i: int, lo: int)
    requires DestsIn(g, nodes) && 0 <= i < |nodes| && 0 <= lo <= |nodes|
    ensures RowLinks(g, nodes, i, lo) <= |nodes| - lo
    decreases |nodes| - lo
  {
    if lo < |nodes| {
      RowLinksBound(g, nodes, i, lo + 1);
    }
  }

  /** Row i - 1 has n - i slots after the diagonal. */
  lemma RowStep(n: int, i: int)
    ensures (i - 1) * (2 * n - (i - 1) - 1) + 2 * (n - i) == i * (2 * n - i - 1)
  {
    calc {
      (i - 1) * (2 * n - (i - 1) - 1) + 2 * (n - i);
      (i - 1) * (2 * n - i) + 2 * n - 2 * i;
      { assert (i - 1) * (2 * n - i) == i * (2 * n - i) - (2 * n - i); }
      i * (2 * n - i) - (2 * n - i) + 2 * n - 2 * i;
      i * (2 * n - i) - i;
      { assert i * (2 * n - i - 1) == i * (2 * n - i) - i; }
      i * (2 * n - i - 1);
    }
  }

  /** Each unordered pair is examined once: at most i (2n - i - 1) / 2 pairs in the
      first i rows, hence Nv <= Kv (Kv - 1) / 2. */
  lemma {:induction false} PairLinksBound(g: Adjacency, nodes: seq<Edge>, i: int)
    requires DestsIn(g, nodes) && 0 <= i <= |nodes|
    ensures 2 * PairLinks(g, nodes, i) <= i * (2 * |nodes| - i - 1)
    decreases i
  {
    if i > 0 {
      PairLinksBound(g, nodes, i - 1);
      RowLinksBound(g, nodes, i - 1, i);
      RowStep(|nodes|, i);
    }
  }

  /** The coefficient is a fraction: it lies in [0, 1], and is 0 below degree 2. */
  lemma ClusteringInUnitInterval(kv: int, nv: int)
    requires 0 <= nv && 2 * nv <= PairSlots(kv)
    ensures 0.0 <= Clustering(kv, nv) <= 1.0
    ensures PairSlots(kv) == 0 ==> Clustering(kv, nv) == 0.0
  {
    if nv > 0 {
      var d := PairSlots(kv) as real;
      assert d > 0.0;
      assert (2 * nv) as real <= d;
    }
  }

  lemma {:induction false} RowLinksAll(g: Adjacency, nodes: seq<Edge>, i: int, lo: int)
    requires DestsIn(g, nodes) && 0 <= i < |nodes| && 0 <= lo <= |nodes|
    requires forall b :: lo <= b < |nodes| ==> Contains(g[nodes[i].dest], nodes[b].dest)
    ensures RowLinks(g, nodes, i, lo) == |nodes| - lo
    decreases |nodes| - lo
  {
    if lo < |nodes| {
      RowLinksAll(g, nodes, i, lo + 1);
    }
  }

  lemma {:induction false} PairLinksAll(g: Adjacency, nodes: seq<Edge>, i: int)
    requires DestsIn(g, nodes) && 0 <= i <= |nodes|
    requires forall a, b :: 0 <= a < b < |nodes| ==> Contains(g[nodes[a].dest], nodes[b].dest)
    ensures 2 * PairLinks(g, nodes, i) == i * (2 * |nodes| - i - 1)
    decreases i
  {
    if i > 0 {
      PairLinksAll(g, nodes, i - 1);
      RowLinksAll(g, nodes, i - 1, i);
      RowStep(|nodes|, i);
    }
  }

  lemma FullClustering(n: int, nv: int)
    requires n >= 2 && nv >= 0 && 2 * nv == n * (2 * n - n - 1)
    ensures 2 * nv == PairSlots(n)
    ensures Clustering(n, nv) == 1.0
  {
    assert 2 * n - n - 1 == n - 1;
    assert n * (n - 1) >= n;
    assert nv > 0;
    var d := PairSlots(n) as real;
    assert (2 * nv) as real == d && d > 0.0;
    assert Clustering(n, nv) == d / d;
    assert d / d == 1.0;
  }

  /** When every pair of neighbours is linked, the coefficient is exactly 1. */
  lemma CompleteNeighbourhood(g: Adjacency, nodes: seq<Edge>)
    requires DestsIn(g, nodes) && |nodes| >= 2
    requires forall a, b :: 0 <= a < b < |nodes| ==> Contains(g[nodes[a].dest], nodes[b].dest)
    ensures 2 * LinkedPairs(g, nodes) == PairSlots(|nodes|)
    ensures Clustering(|nodes|, LinkedPairs(g, nodes)) == 1.0
  {
    PairLinksAll(g, nodes, |nodes|);
    FullClustering(|nodes|, LinkedPairs(g, nodes));
  }

  // ---------------------------------------------------------------------------

  class UndirectedGraph {
    var numberOfVertices: int
    var edges: int
    var graph: Adjacency

    ghost predicate Valid()
      reads this
    {
      WellFormed(graph) && 2 * edges == HalfEdges(graph)
    }

    /** The empty graph. */
    constructor ()
      ensures Valid()
      ensures graph == map[] && numberOfVertices == 0 && edges == 0
    {
      numberOfVertices := 0;
      edges := 0;
      graph := map[];
    }

    /** A graph with the listed vertices and no edges; the vertex counter is the
        length of the list, repetitions included. */
    constructor FromList(vertices: seq<int>)
      ensures Valid()
      ensures graph == (map v | v in vertices :: [])
      ensures numberOfVertices == |vertices| && edges == 0
    {
      numberOfVertices := |vertices|;
      edges := 0;
      var g: Adjacency := map[];
      for i := 0 to |vertices|
        invariant g == (map v | v in vertices[..i] :: [])
      {
        assert vertices[..i + 1] == vertices[..i] + [vertices[i]];
        g := g[vertices[i] := []];
      }
      assert vertices[..|vertices|] == vertices;
      graph := g;
      SumOverZero(g.Keys, NonLoopOf(g));
    }

    method AddVertex(v: int) returns (outcome: Outcome)
      requires Valid()
      modifies this
      ensures Valid() && edges == old(edges)
      ensures old(v in graph) ==>
                outcome == Thrown(IllegalArgument) && graph == old(graph) && numberOfVertices == old(numberOfVertices)
      ensures old(v !in graph) ==>
                outcome == Normal && graph == old(graph)[v := []] && numberOfVertices == old(numberOfVertices) + 1
    {
      if v in graph {
        return Thrown(IllegalArgument);
      }
      AddIsolatedVertex(graph, v);
      graph := graph[v := []];
      numberOfVertices := numberOfVertices + 1;
      outcome := Normal;
    }

    method AddEdge(src: int, dest: int, w: int) returns (outcome: Outcome)
      requires Valid()
      modifies this
      ensures Valid() && numberOfVertices == old(numberOfVertices)
      ensures src !in old(graph) || dest !in old(graph) ==>
                outcome == Thrown(IndexOutOfBounds) && graph == old(graph) && edges == old(edges)
      ensures src in old(graph) && dest in old(graph) ==>
                && outcome == Normal
                && graph == Connect(old(graph), src, dest, w)
                && edges == old(edges) + (if src != dest && !Contains(old(graph)[dest], src) then 1 else 0)
    {
      if src !in graph {
        return Thrown(IndexOutOfBounds);
      } else if dest !in graph {
        return Thrown(IndexOutOfBounds);
      }
      ConnectWellFormed(graph, src, dest, w);
      ConnectHalfEdges(graph, src, dest, w);
      var edgeAdded: bool;
      var s1;
      s1, edgeAdded := Add(graph[src], Edge(dest, w)).0, Add(graph[src], Edge(dest, w)).1;
      graph := graph[src := s1];
      var s2;
      s2, edgeAdded := Add(graph[dest], Edge(src, w)).0, Add(graph[dest], Edge(src, w)).1;
      graph := graph[dest := s2];
      if edgeAdded {
        edges := edges + 1;
      }
      outcome := Normal;
    }

    method EdgesCount() returns (r: int)
      requires Valid()
      ensures 2 * r == HalfEdges(graph)
    {
      r := edges;
    }

    method VerticesCount() returns (r: int)
      ensures r == numberOfVertices
    {
      r := numberOfVertices;
    }

    /** The vertices, each once, in some order. */
    method Vertices() returns (vs: seq<int>)
      ensures Distinct(vs)
      ensures forall x :: x in vs <==> x in graph
    {
      vs := ListOf(graph.Keys);
    }

    method Degree(v: int) returns (r: Result<int>)
      ensures v !in graph ==> r == Raise(IllegalArgument)
      ensures v in graph ==> r == Return(|graph[v]|)
    {
      if v !in graph {
        return Raise(IllegalArgument);
      }
      r := Return(|graph[v]|);
    }

    method Strength(v: int) returns (r: Result<int>)
      ensures v !in graph ==> r == Raise(IllegalArgument)
      ensures v in graph ==> r == Return(SumWeights(graph[v]))
    {
      if v !in graph {
        return Raise(IllegalArgument);
      }
      var es := graph[v];
      var st := 0;
      var i := 0;
      while i < |es|
        invariant 0 <= i <= |es|
        invariant st == SumWeights(es[..i])
      {
        assert es[..i + 1][..i] == es[..i];
        st := st + es[i].w;
        i := i + 1;
      }
      assert es[..|es|] == es;
      r := Return(st);
    }

    method CCoefficient(v: int) returns (r: Result<real>)
      requires Valid()
      ensures v !in graph ==> r == Raise(IllegalArgument)
      ensures v in graph ==> DestsIn(graph, graph[v])
                             && r == Return(Clustering(|graph[v]|, LinkedPairs(graph, graph[v])))
      ensures r.Return? ==> 0.0 <= r.value <= 1.0
      ensures v in graph && |graph[v]| < 2 ==> r == Return(0.0)
    {
      if v !in graph {
        return Raise(IllegalArgument);
      }
      var g := graph;
      var kv := |g[v]|;
      var nv := 0;
      var cc := 0.0;
      var nodes := g[v];
      assert DestsIn(g, nodes);
      if |nodes| > 1 {
        for i := 0 to |nodes|
          invariant nv == PairLinks(g, nodes, i)
        {
          var neighboursOfI := g[nodes[i].dest];
          var j := |nodes| - 1;
          while i < j
            invariant i <= j <= |nodes| - 1
            invariant nv == PairLinks(g, nodes, i) + RowLinks(g, nodes, i, j + 1)
          {
            if Contains(neighboursOfI, nodes[j].dest) {
              nv := nv + 1;
            }
            j := j - 1;
          }
        }
      } else {
        nv := 0;
      }
      assert nv == LinkedPairs(g, nodes);
      if nv > 0 {
        var denominator := kv * (kv - 1);
        assert denominator == PairSlots(kv);
        cc := (2 * nv) as real / denominator as real;
      }
      ClusteringInUnitInterval(kv, nv);
      r := Return(cc);
    }

    method GetNeighbours(v: int) returns (r: Result<seq<Edge>>)
      requires Valid()
      ensures v !in graph ==> r == Raise(IllegalArgument)
      ensures v in graph ==> r.Return? && r.value == graph[v]
      ensures r.Return? ==> DistinctDests(r.value) && forall u :: u in graph ==> Lookup(r.value, u) == Lookup(graph[u], v)
    {
      if v !in graph {
        return Raise(IllegalArgument);
      }
      r := Return(graph[v]);
    }
  }
}
