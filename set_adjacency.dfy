/** The representation the two unweighted graphs share: a map from each vertex id
    to the set of its neighbours (a `LinkedHashSet` in the source; its iteration
    order only shows in the lists handed out, which are modelled as any order). */
module SetAdjacency {
  import opened Sums

  type Adjacency = map<int, set<int>>

  /** Every neighbour is itself a vertex of the graph. */
  ghost predicate Closed(g: Adjacency)
  {
    forall u, v :: u in g && v in g[u] ==> v in g
  }

  /** `graph.get(u).add(v)`. */
  function Insert(g: Adjacency, u: int, v: int): (r: Adjacency)
    requires u in g
    ensures r.Keys == g.Keys && r[u] == g[u] + {v}
    ensures forall x :: x in g && x != u ==> r[x] == g[x]
  {
    g[u := g[u] + {v}]
  }

  /** `graph.get(u).remove(v)`. */
  function Delete(g: Adjacency, u: int, v: int): (r: Adjacency)
    requires u in g
    ensures r.Keys == g.Keys && r[u] == g[u] - {v}
    ensures forall x :: x in g && x != u ==> r[x] == g[x]
  {
    g[u := g[u] - {v}]
  }

  /** The size of each vertex's set: its degree, or its out-degree. */
  function OutCount(g: Adjacency): int -> int
  {
    v => if v in g then |g[v]| else 0
  }

  /** The number of (vertex, neighbour) entries in all the sets together. */
  ghost function Entries(g: Adjacency): int
  {
    SumOver(g.Keys, OutCount(g))
  }

  /** Adding a new element to one set adds one entry; re-adding adds none. */
  lemma InsertEntries(g: Adjacency, u: int, v: int)
    requires u in g
    ensures Entries(Insert(g, u, v)) == Entries(g) + (if v in g[u] then 0 else 1)
  {
    var r := Insert(g, u, v);
    forall x | x in g.Keys && x != u
      ensures OutCount(g)(x) == OutCount(r)(x)
    {
    }
    SumOverUpdate(g.Keys, OutCount(g), OutCount(r), u);
    assert r.Keys == g.Keys;
    if v in g[u] {
      assert r[u] == g[u];
    } else {
      assert |g[u] + {v}| == |g[u]| + 1;
    }
  }

  /** Removing an element of one set removes one entry. */
  lemma DeleteEntries(g: Adjacency, u: int, v: int)
    requires u in g
    ensures Entries(Delete(g, u, v)) == Entries(g) - (if v in g[u] then 1 else 0)
  {
    var r := Delete(g, u, v);
    forall x | x in g.Keys && x != u
      ensures OutCount(g)(x) == OutCount(r)(x)
    {
    }
    SumOverUpdate(g.Keys, OutCount(g), OutCount(r), u);
    assert r.Keys == g.Keys;
    if v in g[u] {
      assert g[u] == r[u] + {v};
    } else {
      assert r[u] == g[u];
    }
  }

  /** Dropping a vertex drops the entries of its own set. */
  lemma RemoveKeyEntries(g: Adjacency, v: int)
    requires v in g
    ensures Entries(g - {v}) == Entries(g) - |g[v]|
  {
    var r := g - {v};
    assert r.Keys == g.Keys - {v};
    SumOverRemove(g.Keys, OutCount(g), v);
    SumOverExt(r.Keys, OutCount(g), OutCount(r));
  }

  /** Adding a key and taking it out again gives back the map. */
  lemma AddThenRemove<V>(g: map<int, V>, v: int, x: V)
    requires v !in g
    ensures g[v := x] - {v} == g
  {
    var r := g[v := x] - {v};
    assert r.Keys == g.Keys;
    forall u | u in g
      ensures r[u] == g[u]
    {
    }
  }
}
