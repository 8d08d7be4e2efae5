/** `graph.unweighted.DirectedGraph`: a directed graph without weights, a map
    from each vertex to the set of the vertices its arcs lead to, with a counter
    of the arcs added. */
module UnweightedDirected {
  import opened Exceptions
  import opened Sums
  import opened SetAdjacency

  /** The vertices with an arc into `v`. */
  ghost function InSet(g: Adjacency, v: int): set<int>
  {
    set u | u in g && v in g[u]
  }

  /** The in-degree of each vertex. */
  ghost function InCount(g: Adjacency): int -> int
  {
    v => |InSet(g, v)|
  }

  /** The sets that are not empty: what is left to account for in a sum over arcs. */
  ghost function Busy(g: Adjacency): set<int>
  {
    set u | u in g && g[u] != {}
  }

  /** Every arc enters one vertex and leaves one: the in-degrees add up to the
      number of arcs, like the out-degrees do. */
  lemma {:induction false} InDegreesTotal(g: Adjacency)
    requires Closed(g)
    ensures SumOver(g.Keys, InCount(g)) == Entries(g)
    decreases Busy(g)
  {
    if Busy(g) == {} {
      NoArcs(g);
    } else {
      var u := Pick(Busy(g));
      var h := g[u := {}];
      assert Busy(h) == Busy(g) - {u};
      assert h.Keys == g.Keys;
      DropArcs(g, u);
      InDegreesTotal(h);
    }
  }

  /** Without arcs every in- and out-degree is 0. */
  lemma NoArcs(g: Adjacency)
    requires Busy(g) == {}
    ensures SumOver(g.Keys, InCount(g)) == 0 && Entries(g) == 0
  {
    forall v | v in g.Keys
      ensures InCount(g)(v) == 0 && OutCount(g)(v) == 0
    {
      assert v !in Busy(g);
      assert InSet(g, v) == {};
    }
    SumOverZero(g.Keys, InCount(g));
    SumOverZero(g.Keys, OutCount(g));
  }

  /** Emptying one set lowers both sums by its size. */
  lemma DropArcs(g: Adjacency, u: int)
    requires Closed(g) && u in g
    ensures Closed(g[u := {}])
    ensures SumOver(g.Keys, InCount(g)) == SumOver(g.Keys, InCount(g[u := {}])) + |g[u]|
    ensures Entries(g) == Entries(g[u := {}]) + |g[u]|
  {
    forall w | w in g[u]
      ensures w in g.Keys
    {
    }
    DropInCounts(g, u);
    DropEntries(g, u);
  }

  lemma DropEntries(g: Adjacency, u: int)
    requires u in g
    ensures Entries(g) == Entries(g[u := {}]) + |g[u]|
  {
    var h := g[u := {}];
    assert h.Keys == g.Keys;
    SumOverUpdate(g.Keys, OutCount(h), OutCount(g), u);
  }

  lemma DropInCounts(g: Adjacency, u: int)
    requires u in g && g[u] <= g.Keys
    ensures SumOver(g.Keys, InCount(g)) == SumOver(g.Keys, InCount(g[u := {}])) + |g[u]|
  {
    var h := g[u := {}];
    forall v | v in g.Keys
      ensures InCount(g)(v) == InCount(h)(v) + Indicator(g[u])(v)
    {
      InSetDrop(g, u, v);
    }
    SumOverAdd(g.Keys, InCount(g), InCount(h), Indicator(g[u]));
    SumOverIndicator(g.Keys, g[u]);
  }

  /** Emptying `u`'s set takes `u` out of the in-sets of its targets only. */
  lemma InSetDrop(g: Adjacency, u: int, v: int)
    requires u in g
    ensures |InSet(g, v)| == |InSet(g[u := {}], v)| + (if v in g[u] then 1 else 0)
  {
    var h := g[u := {}];
    assert u !in InSet(h, v);
    if v in g[u] {
      assert InSet(g, v) == InSet(h, v) + {u};
    } else {
      assert InSet(g, v) == InSet(h, v);
    }
  }

  /** The degree the source reports: arcs in plus arcs out. */
  ghost function DegreeOf(g: Adjacency): int -> int
  {
    v => |InSet(g, v)| + OutCount(g)(v)
  }

  /** Summed over the vertices, the degrees count every arc twice; a loop, being
      both an in- and an out-arc of its vertex, counts twice at that vertex. */
  lemma DegreesTotal(g: Adjacency)
    requires Closed(g)
    ensures SumOver(g.Keys, DegreeOf(g)) == 2 * Entries(g)
  {
    InDegreesTotal(g);
    SumOverAdd(g.Keys, DegreeOf(g), InCount(g), OutCount(g));
  }

  /** A new vertex without arcs keeps the graph closed and its arcs. */
  lemma AddIsolatedVertex(g: Adjacency, v: int)
    requires Closed(g) && v !in g
    ensures Closed(g[v := {}]) && Entries(g[v := {}]) == Entries(g)
  {
    var r := g[v := {}];
    forall u, w | u in r && w in r[u]
      ensures w in r
    {
      assert u in g && r[u] == g[u];
    }
    RemoveKeyEntries(r, v);
    AddThenRemove(g, v, {});
  }

  /** A vertex nothing points to may go, and the rest stays closed. */
  lemma RemoveUnreached(g: Adjacency, v: int)
    requires Closed(g) && v in g && |InSet(g, v)| == 0
    ensures Closed(g - {v}) && Entries(g - {v}) == Entries(g) - |g[v]|
  {
    assert InSet(g, v) == {};
    forall u, w | u in g - {v} && w in (g - {v})[u]
      ensures w in g - {v}
    {
      assert u !in InSet(g, v);
    }
    RemoveKeyEntries(g, v);
  }

  /** The in-set of a vertex once the sets of `seen` have been looked at. */
  lemma InSetStep(g: Adjacency, node: int, seen: set<int>, key: int)
    requires key in g && key !in seen
    ensures |InSet(g, node) * (seen + {key})|
            == |InSet(g, node) * seen| + (if node in g[key] then 1 else 0)
  {
    if node in g[key] {
      assert InSet(g, node) * (seen + {key}) == InSet(g, node) * seen + {key};
    } else {
      assert InSet(g, node) * (seen + {key}) == InSet(g, node) * seen;
    }
  }

  class DirectedGraph {
    var numberOfVertices: int
    var edges: int
    var graph: Adjacency
    /** The arcs taken out by `removeEdge` or with a removed vertex; the source
        keeps counting them. */
    ghost var removed: int

    /** Arcs lead to vertices of the graph, and `edges` counts every arc ever
        added: those still there and those removed since. */
    ghost predicate Valid()
      reads this
    {
      Closed(graph) && removed >= 0 && Entries(graph) + removed == edges
    }

    /** The empty graph. */
    constructor ()
      ensures Valid()
      ensures graph == map[] && numberOfVertices == 0 && edges == 0
    {
      numberOfVertices := 0;
      edges := 0;
      graph := map[];
      removed := 0;
    }

    /** A graph with the listed vertices and no arcs; the vertex counter is the
        length of the list, repetitions included. */
    constructor FromList(vertices: seq<int>)
      ensures Valid()
      ensures graph == (map v | v in vertices :: {})
      ensures numberOfVertices == |vertices| && edges == 0
    {
      numberOfVertices := |vertices|;
      edges := 0;
      removed := 0;
      var g: Adjacency := map[];
      for i := 0 to |vertices|
        invariant g == (map v | v in vertices[..i] :: {})
      {
        assert vertices[..i + 1] == vertices[..i] + [vertices[i]];
        g := g[vertices[i] := {}];
      }
      assert vertices[..|vertices|] == vertices;
      graph := g;
      SumOverZero(g.Keys, OutCount(g));
    }

    /** `addEdge`: both endpoints must be vertices; the counter grows when the
        arc is new. */
    method AddEdge(src: int, dest: int) returns (outcome: Outcome)
      requires Valid()
      modifies this
      ensures Valid() && numberOfVertices == old(numberOfVertices)
      ensures src !in old(graph) || dest !in old(graph) ==>
                outcome == Thrown(IndexOutOfBounds) && graph == old(graph) && edges == old(edges)
      ensures src in old(graph) && dest in old(graph) ==>
                && outcome == Normal
                && graph == Insert(old(graph), src, dest)
                && edges == old(edges) + (if dest in old(graph)[src] then 0 else 1)
    {
      if src !in graph {
        return Thrown(IndexOutOfBounds);
      } else if dest !in graph {
        return Thrown(IndexOutOfBounds);
      }
      InsertEntries(graph, src, dest);
      var edgeAdded := dest !in graph[src];
      graph := Insert(graph, src, dest);
      if edgeAdded {
        edges := edges + 1;
      }
      outcome := Normal;
    }

    /** `addVertex`: a new vertex starts without arcs. */
    method AddVertex(v: int) returns (outcome: Outcome)
      requires Valid()
      modifies this
      ensures Valid() && edges == old(edges)
      ensures old(v in graph) ==>
                outcome == Thrown(IllegalArgument) && graph == old(graph) && numberOfVertices == old(numberOfVertices)
      ensures old(v !in graph) ==>
                outcome == Normal && graph == old(graph)[v := {}] && numberOfVertices == old(numberOfVertices) + 1
    {
      if v in graph {
        return Thrown(IllegalArgument);
      }
      AddIsolatedVertex(graph, v);
      graph := graph[v := {}];
      numberOfVertices := numberOfVertices + 1;
      outcome := Normal;
    }

    /** `getNeighbours`: a new list holding each target of `v`'s arcs once. */
    method GetNeighbours(v: int) returns (r: Result<seq<int>>)
      ensures v !in graph ==> r == Raise(IllegalArgument)
      ensures v in graph ==> r.Return? && Distinct(r.value) && |r.value| == |graph[v]|
                             && forall x :: x in r.value <==> x in graph[v]
    {
      if v !in graph {
        return Raise(IllegalArgument);
      }
      var neighbours := ListOf(graph[v]);
      r := Return(neighbours);
    }

    /** `inDegree`: one look at every vertex's set. */
    method InDegree(node: int) returns (r: Result<int>)
      ensures node !in graph ==> r == Raise(IllegalArgument)
      ensures node in graph ==> r == Return(|InSet(graph, node)|)
    {
      if node !in graph {
        return Raise(IllegalArgument);
      }
      var g := graph;
      var inDegree := 0;
      var keys := g.Keys;
      ghost var seen: set<int> := {};
      while keys != {}
        invariant keys <= g.Keys && seen == g.Keys - keys
        invariant inDegree == |InSet(g, node) * seen|
        decreases keys
      {
        var key := Choose(keys);
        InSetStep(g, node, seen, key);
        if node in g[key] {
          inDegree := inDegree + 1;
        }
        keys := keys - {key};
        seen := seen + {key};
      }
      assert InSet(g, node) * seen == InSet(g, node);
      r := Return(inDegree);
    }

    /** `outDegree`: the size of the vertex's own set. */
    method OutDegree(node: int) returns (r: Result<int>)
      ensures node !in graph ==> r == Raise(IllegalArgument)
      ensures node in graph ==> r == Return(|graph[node]|)
    {
      if node !in graph {
        return Raise(IllegalArgument);
      }
      r := Return(|graph[node]|);
    }

    /** `degree`: in-degree plus out-degree. */
    method Degree(v: int) returns (r: Result<int>)
      ensures v !in graph ==> r == Raise(IllegalArgument)
      ensures v in graph ==> r == Return(DegreeOf(graph)(v))
    {
      if v !in graph {
        return Raise(IllegalArgument);
      }
      var i := InDegree(v);
      var o := OutDegree(v);
      assert OutCount(graph)(v) == |graph[v]|;
      r := Return(i.value + o.value);
    }

    /** `removeVertex`: only a vertex no arc enters can go; its own arcs go with
        it, and neither counter changes. */
    method RemoveVertex(v: int) returns (outcome: Outcome)
      requires Valid()
      modifies this
      ensures Valid() && numberOfVertices == old(numberOfVertices) && edges == old(edges)
      ensures v !in old(graph) ==> outcome == Thrown(IllegalArgument) && graph == old(graph)
      ensures v in old(graph) && |InSet(old(graph), v)| > 0 ==>
                outcome == Thrown(UnsupportedOperation) && graph == old(graph)
      ensures v in old(graph) && |InSet(old(graph), v)| == 0 ==>
                outcome == Normal && graph == old(graph) - {v}
    {
      if v !in graph {
        return Thrown(IllegalArgument);
      }
      var inDegree := InDegree(v);
      if inDegree.value > 0 {
        return Thrown(UnsupportedOperation);
      }
      RemoveUnreached(graph, v);
      removed := removed + |graph[v]|;
      graph := graph - {v};
      outcome := Normal;
    }

    /** `removeEdge`: both vertices must exist and the arc must be there; the
        counter is not decremented. */
    method RemoveEdge(src: int, dest: int) returns (outcome: Outcome)
      requires Valid()
      modifies this
      ensures Valid() && numberOfVertices == old(numberOfVertices) && edges == old(edges)
      ensures !(src in old(graph) && dest in old(graph)) ==> outcome == Thrown(IllegalArgument) && graph == old(graph)
      ensures src in old(graph) && dest in old(graph) ==>
                if dest in old(graph)[src]
                then outcome == Normal && graph == Delete(old(graph), src, dest)
                else outcome == Thrown(UnsupportedOperation) && graph == old(graph)
    {
      if !(src in graph && dest in graph) {
        return Thrown(IllegalArgument);
      } else if dest in graph[src] {
        DeleteEntries(graph, src, dest);
        graph := Delete(graph, src, dest);
        removed := removed + 1;
        outcome := Normal;
      } else {
        outcome := Thrown(UnsupportedOperation);
      }
    }

    /** `edges`: the counter of arcs added. */
    method Edges() returns (r: int)
      ensures r == edges
    {
      r := edges;
    }

    /** `vertices`: every vertex once. */
    method Vertices() returns (vs: seq<int>)
      ensures Distinct(vs) && |vs| == |graph|
      ensures forall x :: x in vs <==> x in graph
    {
      vs := ListOf(graph.Keys);
    }

    /** `size`: the number of vertices present and the arc counter. */
    method Size() returns (r: seq<int>)
      ensures r == [|graph|, edges]
    {
      r := [|graph|, edges];
    }
  }
}
