/** `graph.unweighted.UndirectedGraph`: an undirected graph without weights, a map
    from each vertex to the set of its neighbours, with a counter of the edges
    added. */
module UnweightedUndirected {
  import opened Exceptions
  import opened Sums
  import opened SetAdjacency

  /** Every link is stored in both directions, between vertices of the graph. */
  ghost predicate Symmetric(g: Adjacency)
  {
    forall u, v :: u in g && v in g[u] ==> v in g && u in g[v]
  }

  /** `addEdge(u, v)` once its endpoints are checked: v into u's set, then u into
      v's set. */
  function Link(g: Adjacency, u: int, v: int): Adjacency
    requires u in g && v in g
  {
    Insert(Insert(g, u, v), v, u)
  }

  /** `removeEdge(u, v)` once the link is found: both directions removed. */
  function Unlink(g: Adjacency, u: int, v: int): Adjacency
    requires u in g && v in g
  {
    Delete(Delete(g, u, v), v, u)
  }

  /** The neighbours of `v` other than itself. */
  function NonLoopCount(g: Adjacency): int -> int
  {
    v => if v in g then |g[v] - {v}| else 0
  }

  /** Twice the number of links between distinct vertices. */
  ghost function Links(g: Adjacency): int
  {
    SumOver(g.Keys, NonLoopCount(g))
  }

  /** Linking keeps the graph symmetric, and afterwards each end lists the other. */
  lemma LinkSymmetric(g: Adjacency, u: int, v: int)
    requires Symmetric(g) && u in g && v in g
    ensures Symmetric(Link(g, u, v)) && Link(g, u, v).Keys == g.Keys
    ensures v in Link(g, u, v)[u] && u in Link(g, u, v)[v]
  {
  }

  /** Re-adding an edge that is already there changes nothing. */
  lemma LinkPresentIsNoop(g: Adjacency, u: int, v: int)
    requires Symmetric(g) && u in g && v in g && v in g[u]
    ensures Link(g, u, v) == g
  {
    assert g[u] + {v} == g[u];
    assert g[v] + {u} == g[v];
  }

  /** A new link between distinct vertices adds one neighbour at each end; a
      self-loop or a link already there adds nothing. */
  lemma LinkLinks(g: Adjacency, u: int, v: int)
    requires Symmetric(g) && u in g && v in g
    ensures Links(Link(g, u, v)) == Links(g) + (if u != v && v !in g[u] then 2 else 0)
  {
    if v in g[u] {
      LinkPresentIsNoop(g, u, v);
    } else if u == v {
      SelfLinkLinks(g, u);
    } else {
      assert u !in g[v];
      NewLinkLinks(g, u, v);
    }
  }

  lemma SelfLinkLinks(g: Adjacency, u: int)
    requires u in g
    ensures Links(Link(g, u, u)) == Links(g)
  {
    var g2 := Link(g, u, u);
    forall x | x in g
      ensures NonLoopCount(g)(x) == NonLoopCount(g2)(x)
    {
      if x == u {
        assert g2[u] - {u} == g[u] - {u};
      }
    }
    SumOverExt(g.Keys, NonLoopCount(g), NonLoopCount(g2));
  }

  lemma NewLinkLinks(g: Adjacency, u: int, v: int)
    requires u in g && v in g && u != v && v !in g[u] && u !in g[v]
    ensures Links(Link(g, u, v)) == Links(g) + 2
  {
    InsertLinks(g, u, v);
    InsertLinks(Insert(g, u, v), v, u);
  }

  /** One new neighbour other than the vertex itself is one more link end. */
  lemma InsertLinks(g: Adjacency, u: int, v: int)
    requires u in g && u != v && v !in g[u]
    ensures Links(Insert(g, u, v)) == Links(g) + 1
  {
    var r := Insert(g, u, v);
    assert r[u] - {u} == (g[u] - {u}) + {v};
    SumOverUpdate(g.Keys, NonLoopCount(g), NonLoopCount(r), u);
  }

  /** Unlinking keeps the graph symmetric and drops the link in both directions. */
  lemma UnlinkSymmetric(g: Adjacency, u: int, v: int)
    requires Symmetric(g) && u in g && v in g
    ensures Symmetric(Unlink(g, u, v)) && Unlink(g, u, v).Keys == g.Keys
    ensures v !in Unlink(g, u, v)[u] && u !in Unlink(g, u, v)[v]
  {
  }

  /** What `removeEdge` needs: the graph stays symmetric, and the link count
      drops by two exactly when the link joined distinct vertices. */
  lemma UnlinkValid(g: Adjacency, u: int, v: int)
    requires Symmetric(g) && u in g && v in g && v in g[u]
    ensures Symmetric(Unlink(g, u, v))
    ensures Links(Unlink(g, u, v)) == Links(g) - (if u != v then 2 else 0)
  {
    UnlinkSymmetric(g, u, v);
    UnlinkLinks(g, u, v);
  }

  /** Removing a link between distinct vertices removes one neighbour at each end. */
  lemma UnlinkLinks(g: Adjacency, u: int, v: int)
    requires Symmetric(g) && u in g && v in g && v in g[u]
    ensures Links(Unlink(g, u, v)) == Links(g) - (if u != v then 2 else 0)
  {
    if u == v {
      SelfUnlinkLinks(g, u);
    } else {
      assert u in g[v];
      OldUnlinkLinks(g, u, v);
    }
  }

  lemma SelfUnlinkLinks(g: Adjacency, u: int)
    requires u in g
    ensures Links(Unlink(g, u, u)) == Links(g)
  {
    var g2 := Unlink(g, u, u);
    forall x | x in g
      ensures NonLoopCount(g)(x) == NonLoopCount(g2)(x)
    {
      if x == u {
        assert g2[u] - {u} == g[u] - {u};
      }
    }
    SumOverExt(g.Keys, NonLoopCount(g), NonLoopCount(g2));
  }

  lemma OldUnlinkLinks(g: Adjacency, u: int, v: int)
    requires u in g && v in g && u != v && v in g[u] && u in g[v]
    ensures Links(Unlink(g, u, v)) == Links(g) - 2
  {
    DeleteLinks(g, u, v);
    DeleteLinks(Delete(g, u, v), v, u);
  }

  /** Losing a neighbour other than the vertex itself is one link end fewer. */
  lemma DeleteLinks(g: Adjacency, u: int, v: int)
    requires u in g && u != v && v in g[u]
    ensures Links(Delete(g, u, v)) == Links(g) - 1
  {
    var r := Delete(g, u, v);
    assert g[u] - {u} == (r[u] - {u}) + {v};
    SumOverUpdate(g.Keys, NonLoopCount(g), NonLoopCount(r), u);
  }

  /** `removeEdge` undoes an `addEdge` that created the link. */
  lemma UnlinkLink(g: Adjacency, u: int, v: int)
    requires u in g && v in g && v !in g[u] && u !in g[v]
    ensures Unlink(Link(g, u, v), u, v) == g
  {
    var r := Unlink(Link(g, u, v), u, v);
    assert r[u] == g[u] && r[v] == g[v];
  }

  /** A new vertex without neighbours keeps the graph symmetric and its links. */
  lemma AddIsolated(g: Adjacency, v: int)
    requires Symmetric(g) && v !in g
    ensures Symmetric(g[v := {}]) && Links(g[v := {}]) == Links(g)
  {
    AddIsolatedLinks(g, v);
  }

  lemma AddIsolatedLinks(g: Adjacency, v: int)
    requires v !in g
    ensures Links(g[v := {}]) == Links(g)
  {
    RemoveIsolatedLinks(g[v := {}], v);
    AddThenRemove(g, v, {});
  }

  /** Dropping a vertex without neighbours keeps the graph symmetric and its links. */
  lemma RemoveIsolated(g: Adjacency, v: int)
    requires Symmetric(g) && v in g && g[v] == {}
    ensures Symmetric(g - {v}) && Links(g - {v}) == Links(g)
  {
    var r := g - {v};
    forall a, b | a in r && b in r[a]
      ensures b in r && a in r[b]
    {
      assert a in g[b];
      assert b != v;
    }
    RemoveIsolatedLinks(g, v);
  }

  lemma RemoveIsolatedLinks(g: Adjacency, v: int)
    requires v in g && g[v] == {}
    ensures Links(g - {v}) == Links(g)
  {
    var r := g - {v};
    assert r.Keys == g.Keys - {v};
    SumOverRemove(g.Keys, NonLoopCount(g), v);
    SumOverExt(r.Keys, NonLoopCount(g), NonLoopCount(r));
  }

  class UndirectedGraph {
    var numberOfVertices: int
    var edges: int
    var graph: Adjacency
    /** The links `removeEdge` has taken out; the source keeps counting them. */
    ghost var removed: int

    /** The sets are symmetric, and `edges` counts every link between distinct
        vertices ever added: those still there and those removed since. */
    ghost predicate Valid()
      reads this
    {
      Symmetric(graph) && removed >= 0 && Links(graph) + 2 * removed == 2 * edges
    }

    /** The empty graph. */
    constructor ()
      ensures Valid()
      ensures graph == map[] && numberOfVertices == 0 && edges == 0
    {
      numberOfVertices := 0;
      edges := 0;
      graph := map[];
      removed := 0;
    }

    /** A graph with the listed vertices and no edges; the vertex counter is the
        length of the list, repetitions included. */
    constructor FromList(vertices: seq<int>)
      ensures Valid()
      ensures graph == (map v | v in vertices :: {})
      ensures numberOfVertices == |vertices| && edges == 0
    {
      numberOfVertices := |vertices|;
      edges := 0;
      removed := 0;
      var g: Adjacency := map[];
      for i := 0 to |vertices|
        invariant g == (map v | v in vertices[..i] :: {})
      {
        assert vertices[..i + 1] == vertices[..i] + [vertices[i]];
        g := g[vertices[i] := {}];
      }
      assert vertices[..|vertices|] == vertices;
      graph := g;
      SumOverZero(g.Keys, NonLoopCount(g));
    }

    /** `addEdge`: both endpoints must be vertices; the counter grows when the
        second insertion, of `src` into `dest`'s set, is new, which is exactly
        when a link between two distinct vertices appears. */
    method AddEdge(src: int, dest: int) returns (outcome: Outcome)
      requires Valid()
      modifies this
      ensures Valid() && numberOfVertices == old(numberOfVertices)
      ensures src !in old(graph) || dest !in old(graph) ==>
                outcome == Thrown(IndexOutOfBounds) && graph == old(graph) && edges == old(edges)
      ensures src in old(graph) && dest in old(graph) ==>
                && outcome == Normal
                && graph == Link(old(graph), src, dest)
                && edges == old(edges) + (if src != dest && dest !in old(graph)[src] then 1 else 0)
    {
      if src !in graph {
        return Thrown(IndexOutOfBounds);
      } else if dest !in graph {
        return Thrown(IndexOutOfBounds);
      }
      LinkSymmetric(graph, src, dest);
      LinkLinks(graph, src, dest);
      var edgeAdded := dest !in graph[src];
      graph := Insert(graph, src, dest);
      edgeAdded := src !in graph[dest];
      graph := Insert(graph, dest, src);
      if edgeAdded {
        edges := edges + 1;
      }
      outcome := Normal;
    }

    /** `addVertex`: a new vertex starts without neighbours. */
    method AddVertex(v: int) returns (outcome: Outcome)
      requires Valid()
      modifies this
      ensures Valid() && edges == old(edges)
      ensures old(v in graph) ==>
                outcome == Thrown(IllegalArgument) && graph == old(graph) && numberOfVertices == old(numberOfVertices)
      ensures old(v !in graph) ==>
                outcome == Normal && graph == old(graph)[v := {}] && numberOfVertices == old(numberOfVertices) + 1
    {
      if v in graph {
        return Thrown(IllegalArgument);
      }
      AddIsolated(graph, v);
      graph := graph[v := {}];
      numberOfVertices := numberOfVertices + 1;
      outcome := Normal;
    }

    /** `getNeighbours`: a new list holding each neighbour once. */
    method GetNeighbours(v: int) returns (r: Result<seq<int>>)
      ensures v !in graph ==> r == Raise(IllegalArgument)
      ensures v in graph ==> r.Return? && Distinct(r.value) && |r.value| == |graph[v]|
                             && forall x :: x in r.value <==> x in graph[v]
    {
      if v !in graph {
        return Raise(IllegalArgument);
      }
      var neighbours := ListOf(graph[v]);
      r := Return(neighbours);
    }

    /** `removeVertex`: only a vertex without neighbours can go; the vertex counter
        is left as it was. */
    method RemoveVertex(v: int) returns (outcome: Outcome)
      requires Valid()
      modifies this
      ensures Valid() && numberOfVertices == old(numberOfVertices) && edges == old(edges)
      ensures v !in old(graph) ==> outcome == Thrown(IllegalArgument) && graph == old(graph)
      ensures v in old(graph) && |old(graph)[v]| > 0 ==> outcome == Thrown(UnsupportedOperation) && graph == old(graph)
      ensures v in old(graph) && |old(graph)[v]| == 0 ==> outcome == Normal && graph == old(graph) - {v}
    {
      if v !in graph {
        return Thrown(IllegalArgument);
      } else if |graph[v]| > 0 {
        return Thrown(UnsupportedOperation);
      }
      RemoveIsolated(graph, v);
      graph := graph - {v};
      outcome := Normal;
    }

    /** `removeEdge`: both vertices must exist and be linked both ways; the edge
        counter is not decremented. */
    method RemoveEdge(src: int, dest: int) returns (outcome: Outcome)
      requires Valid()
      modifies this
      ensures Valid() && numberOfVertices == old(numberOfVertices) && edges == old(edges)
      ensures !(src in old(graph) && dest in old(graph)) ==> outcome == Thrown(IllegalArgument) && graph == old(graph)
      ensures src in old(graph) && dest in old(graph) ==>
                if dest in old(graph)[src] && src in old(graph)[dest]
                then outcome == Normal && graph == Unlink(old(graph), src, dest)
                else outcome == Thrown(UnsupportedOperation) && graph == old(graph)
    {
      if !(src in graph && dest in graph) {
        return Thrown(IllegalArgument);
      } else if dest in graph[src] && src in graph[dest] {
        UnlinkValid(graph, src, dest);
        graph := Delete(graph, src, dest);
        graph := Delete(graph, dest, src);
        if src != dest {
          removed := removed + 1;
        }
        outcome := Normal;
      } else {
        outcome := Thrown(UnsupportedOperation);
      }
    }

    /** `edges`: the counter of edges added. */
    method Edges() returns (r: int)
      ensures r == edges
    {
      r := edges;
    }

    /** `degree`: the number of neighbours, a self-loop counting once. */
    method Degree(v: int) returns (r: Result<int>)
      ensures v !in graph ==> r == Raise(IllegalArgument)
      ensures v in graph ==> r == Return(|graph[v]|)
    {
      if v !in graph {
        return Raise(IllegalArgument);
      }
      r := Return(|graph[v]|);
    }

    /** `vertices`: every vertex once. */
    method Vertices() returns (vs: seq<int>)
      ensures Distinct(vs) && |vs| == |graph|
      ensures forall x :: x in vs <==> x in graph
    {
      vs := ListOf(graph.Keys);
    }

    /** `size`: the number of vertices present and the edge counter. */
    method Size() returns (r: seq<int>)
      ensures r == [|graph|, edges]
    {
      r := [|graph|, edges];
    }
  }
}
