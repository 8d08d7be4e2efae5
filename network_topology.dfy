/** The network measures of `NetworkTopology`: degree and strength histograms and
    distributions, the average clustering coefficient, and the characteristic path
    length. Console output and the two-decimal rounding of reported values are not
    modelled; what is modelled is the values they print. */
module NetworkTopology {
  import opened Exceptions
  import opened Edges
  import opened Sums
  import opened WeightedGraph
  import opened ShortestPaths

  // ---------------------------------------------------------------------------
  // Histograms: `degreeNodeCount` and `strengthNodeCount`.

  /** The values held in `m`, each once. */
  function ValuesOf<V>(m: map<int, V>): set<V>
  {
    set x | x in m :: m[x]
  }

  /** The number of vertices whose value is `k`. */
  function CountOf<V(==)>(m: map<int, V>): V -> int
  {
    k => |set x | x in m && m[x] == k|
  }

  /** `degreeNodeCount` / `strengthNodeCount`: for every value that occurs in `m`,
      the number of entries holding it. The distinct values are visited one by
      one (the source visits them in ascending order; the map it builds does not
      depend on that order), and for each one all entries are scanned. */
  method NodeCount<V(==)>(m: map<int, V>) returns (counts: map<V, int>)
    ensures counts.Keys == ValuesOf(m)
    ensures forall k :: k in counts ==> counts[k] == CountOf(m)(k)
  {
    var valueSet := ValuesOf(m);
    counts := map[];
    var rest := valueSet;
    while rest != {}
      invariant rest <= valueSet
      invariant counts.Keys == valueSet - rest
      invariant forall k :: k in counts ==> counts[k] == CountOf(m)(k)
      decreases rest
    {
      var value := Choose(rest);
      var nodeCount := 0;
      var entries := m.Keys;
      while entries != {}
        invariant entries <= m.Keys
        invariant nodeCount == |set x | x in m.Keys - entries && m[x] == value|
        decreases entries
      {
        var x := Choose(entries);
        ghost var seen := set y | y in m.Keys - entries && m[y] == value;
        if m[x] == value {
          assert (set y | y in m.Keys - (entries - {x}) && m[y] == value) == seen + {x};
          nodeCount := nodeCount + 1;
        } else {
          assert (set y | y in m.Keys - (entries - {x}) && m[y] == value) == seen;
        }
        entries := entries - {x};
      }
      assert (set y | y in m.Keys - {} && m[y] == value) == (set y | y in m && m[y] == value);
      counts := counts[value := nodeCount];
      rest := rest - {value};
    }
  }

  /** Every value that occurs is counted at least once. */
  lemma CountsPositive<V>(m: map<int, V>, k: V)
    requires k in ValuesOf(m)
    ensures CountOf(m)(k) >= 1
  {
    var x :| x in m && m[x] == k;
    var s := set y | y in m && m[y] == k;
    assert x in s;
    assert |s - {x}| == |s| - 1;
  }

  /** Taking the entry `k` out of `m` lowers the count of its value by one and
      leaves the other counts alone. */
  lemma CountRemove<V>(m: map<int, V>, k: int, w: V)
    requires k in m
    ensures CountOf(m)(w) == CountOf(m - {k})(w) + (if w == m[k] then 1 else 0)
  {
    var m' := m - {k};
    var big := set y | y in m && m[y] == w;
    var small := set y | y in m' && m'[y] == w;
    if w == m[k] {
      assert big == small + {k};
    } else {
      assert big == small;
    }
  }

  /** The counts add up to the number of vertices. */
  lemma {:induction false} CountsTotal<V>(m: map<int, V>)
    ensures SumOver(ValuesOf(m), CountOf(m)) == |m|
    decreases |m|
  {
    if m != map[] {
      var k := Pick(m.Keys);
      var v := m[k];
      var m' := m - {k};
      assert |m'| == |m| - 1;
      CountsTotal(m');
      forall w | w in ValuesOf(m)
        ensures CountOf(m)(w) == CountOf(m')(w) + (if w == v then 1 else 0)
      {
        CountRemove(m, k, w);
      }
      if v in ValuesOf(m') {
        ValuesRemoveShared(m, k);
        SumOverUpdate(ValuesOf(m), CountOf(m'), CountOf(m), v);
      } else {
        ValuesRemoveLast(m, k);
        CountRemove(m, k, v);
        SumOverExt(ValuesOf(m'), CountOf(m'), CountOf(m));
        SumOverInsert(ValuesOf(m'), CountOf(m), v);
      }
    }
  }

  lemma ValuesRemoveShared<V>(m: map<int, V>, k: int)
    requires k in m && m[k] in ValuesOf(m - {k})
    ensures ValuesOf(m) == ValuesOf(m - {k})
  {
    var m' := m - {k};
    forall w | w in ValuesOf(m)
      ensures w in ValuesOf(m')
    {
      var x :| x in m && m[x] == w;
      if x != k {
        assert x in m' && m'[x] == w;
      }
    }
  }

  lemma ValuesRemoveLast<V>(m: map<int, V>, k: int)
    requires k in m && m[k] !in ValuesOf(m - {k})
    ensures ValuesOf(m) == ValuesOf(m - {k}) + {m[k]}
    ensures CountOf(m - {k})(m[k]) == 0
  {
    var m' := m - {k};
    forall w | w in ValuesOf(m)
      ensures w in ValuesOf(m') + {m[k]}
    {
      var x :| x in m && m[x] == w;
      if x != k {
        assert x in m' && m'[x] == w;
      }
    }
    forall y | y in m'
      ensures m'[y] != m[k]
    {
      assert m'[y] in ValuesOf(m');
    }
    assert (set y | y in m' && m'[y] == m[k]) == {};
  }

  /** The fraction of the vertices that hold each value. */
  function Fractions<V(==)>(m: map<int, V>): V -> real
  {
    k => if |m| == 0 then 0.0 else CountOf(m)(k) as real / |m| as real
  }

  /** The distribution is a probability distribution: the fractions sum to 1. */
  lemma FractionsSumToOne<V>(m: map<int, V>)
    requires |m| > 0
    ensures SumOverReal(ValuesOf(m), Fractions(m)) == 1.0
  {
    CountsTotal(m);
    FractionsScaled(m);
    var c := |m| as real;
    assert c / c == 1.0;
  }

  lemma FractionsScaled<V>(m: map<int, V>)
    requires |m| > 0
    ensures SumOverReal(ValuesOf(m), Fractions(m)) == SumOver(ValuesOf(m), CountOf(m)) as real / |m| as real
  {
    var c := |m| as real;
    forall k | k in ValuesOf(m)
      ensures Fractions(m)(k) == CountOf(m)(k) as real / c
    {
    }
    SumOverScaled(ValuesOf(m), CountOf(m), Fractions(m), c);
  }

  // ---------------------------------------------------------------------------
  // Properties 1 and 2: degree and strength, their distributions and averages.

  /** The strength of each vertex: the sum of the weights of its links. */
  function StrengthOf(g: Adjacency): int -> int
  {
    v => if v in g then SumWeights(g[v]) else 0
  }

  /** The per-vertex values a tabulation loop collects, as one map. */
  ghost predicate Tabulates(g: Adjacency, list: map<int, int>, f: int -> int)
  {
    list.Keys == g.Keys && forall v :: v in list ==> list[v] == f(v)
  }

  /** The fraction map `put(k, count / numOfNodes)` builds from a histogram. */
  method Distribution(counts: map<int, int>, ghost m: map<int, int>, numOfNodes: int) returns (dist: map<int, real>)
    requires counts.Keys == ValuesOf(m) && forall k :: k in counts ==> counts[k] == CountOf(m)(k)
    requires numOfNodes == |m|
    ensures dist.Keys == ValuesOf(m)
    ensures forall k :: k in dist ==> dist[k] == Fractions(m)(k)
  {
    if numOfNodes == 0 {
      assert m == map[];
      assert ValuesOf(m) == {};
      dist := map[];
    } else {
      dist := map k | k in counts :: counts[k] as real / numOfNodes as real;
    }
  }

  /** `degreeDistribution`: the degree of every vertex, the fraction of vertices of
      each degree, and the average degree (undefined, NaN in the source, for an
      empty graph). */
  method DegreeDistribution(graph: UndirectedGraph)
    returns (degreeList: map<int, int>, degreeDist: map<int, real>, avgDegree: Option<real>)
    ensures Tabulates(graph.graph, degreeList, DegreeOf(graph.graph))
    ensures degreeDist.Keys == ValuesOf(degreeList)
    ensures forall k :: k in degreeDist ==> degreeDist[k] == Fractions(degreeList)(k)
    ensures avgDegree == if |graph.graph| == 0 then None
                         else Some(DegreeTotal(graph.graph) as real / |graph.graph| as real)
  {
    var verticesList := graph.Vertices();
    var sum := 0;
    degreeList := map[];
    ghost var g := graph.graph;
    for i := 0 to |verticesList|
      invariant sum == SumSeq(verticesList[..i], DegreeOf(g))
      invariant degreeList.Keys == (set x | x in verticesList[..i])
      invariant forall v :: v in degreeList ==> degreeList[v] == DegreeOf(g)(v)
    {
      var v := verticesList[i];
      var d := graph.Degree(v);
      ListStep(verticesList, i);
      KeysStep(degreeList, verticesList[..i], v, d.value);
      SumSeqStep(verticesList[..i], v, DegreeOf(g));
      sum := sum + d.value;
      degreeList := degreeList[v := d.value];
    }
    TabulationTotals(g, verticesList, DegreeOf(g));
    var numOfNodes := |verticesList|;
    var counts := NodeCount(degreeList);
    degreeDist := Distribution(counts, degreeList, numOfNodes);
    avgDegree := if numOfNodes == 0 then None else Some(sum as real / numOfNodes as real);
  }

  /** After a loop over the whole vertex list, the collected keys are the vertices,
      there are as many as list entries, and the running sum is the sum over all
      vertices. */
  lemma TabulationTotals(g: Adjacency, vs: seq<int>, f: int -> int)
    requires Distinct(vs) && forall x :: x in vs <==> x in g
    ensures vs[..|vs|] == vs
    ensures (set x | x in vs) == g.Keys && |vs| == |g|
    ensures SumSeq(vs, f) == SumOver(g.Keys, f)
  {
    assert vs[..|vs|] == vs;
    DistinctCard(vs);
    assert (set x | x in vs) == g.Keys;
    SumSeqIsSumOver(vs, f);
  }

  /** `strengthDistribution`: the strength of every vertex, the fraction of vertices
      of each strength, and the average strength. */
  method StrengthDistribution(graph: UndirectedGraph)
    returns (strengthList: map<int, int>, strengthDist: map<int, real>, averageStrength: Option<real>)
    ensures Tabulates(graph.graph, strengthList, StrengthOf(graph.graph))
    ensures strengthDist.Keys == ValuesOf(strengthList)
    ensures forall k :: k in strengthDist ==> strengthDist[k] == Fractions(strengthList)(k)
    ensures averageStrength == if |graph.graph| == 0 then None
                               else Some(SumOver(graph.graph.Keys, StrengthOf(graph.graph)) as real / |graph.graph| as real)
  {
    var verticesList := graph.Vertices();
    var totalSt := 0;
    strengthList := map[];
    ghost var g := graph.graph;
    for i := 0 to |verticesList|
      invariant totalSt == SumSeq(verticesList[..i], StrengthOf(g))
      invariant strengthList.Keys == (set x | x in verticesList[..i])
      invariant forall v :: v in strengthList ==> strengthList[v] == StrengthOf(g)(v)
    {
      var v := verticesList[i];
      var st := graph.Strength(v);
      ListStep(verticesList, i);
      KeysStep(strengthList, verticesList[..i], v, st.value);
      SumSeqStep(verticesList[..i], v, StrengthOf(g));
      totalSt := totalSt + st.value;
      strengthList := strengthList[v := st.value];
    }
    TabulationTotals(g, verticesList, StrengthOf(g));
    var numOfNodes := |verticesList|;
    var counts := NodeCount(strengthList);
    strengthDist := Distribution(counts, strengthList, numOfNodes);
    averageStrength := if numOfNodes == 0 then None else Some(totalSt as real / numOfNodes as real);
  }

  // ---------------------------------------------------------------------------
  // Property 3: the clustering coefficient of the network.

  /** The clustering coefficient of each vertex, as `cCoefficient` defines it. */
  ghost function LocalClustering(g: Adjacency): int -> real
  {
    v => if v in g && DestsIn(g, g[v]) then Clustering(|g[v]|, LinkedPairs(g, g[v])) else 0.0
  }

  /** `clusteringCoefficient`: each vertex's coefficient and their mean, which is a
      fraction in [0, 1] like each of them. */
  method ClusteringCoefficient(graph: UndirectedGraph) returns (ccList: map<int, real>, averageCc: Option<real>)
    requires graph.Valid()
    ensures ccList.Keys == graph.graph.Keys
    ensures forall v :: v in ccList ==> ccList[v] == LocalClustering(graph.graph)(v)
    ensures averageCc == if |graph.graph| == 0 then None
                         else Some(SumOverReal(graph.graph.Keys, LocalClustering(graph.graph)) / |graph.graph| as real)
    ensures averageCc.Some? ==> 0.0 <= averageCc.value <= 1.0
  {
    ghost var g := graph.graph;
    var verticesList := graph.Vertices();
    var totalCc := 0.0;
    ccList := map[];
    for i := 0 to |verticesList|
      invariant totalCc == SumSeqReal(verticesList[..i], LocalClustering(g))
      invariant ccList.Keys == (set x | x in verticesList[..i])
      invariant forall v :: v in ccList ==> ccList[v] == LocalClustering(g)(v)
    {
      var v := verticesList[i];
      var cc := graph.CCoefficient(v);
      ListStep(verticesList, i);
      KeysStep(ccList, verticesList[..i], v, cc.value);
      SumSeqRealStep(verticesList[..i], v, LocalClustering(g));
      totalCc := totalCc + cc.value;
      ccList := ccList[v := cc.value];
    }
    assert verticesList[..|verticesList|] == verticesList;
    ClusteringTotal(g, verticesList);
    var numOfNodes := |verticesList|;
    if numOfNodes == 0 {
      averageCc := None;
    } else {
      MeanInUnitInterval(totalCc, numOfNodes);
      averageCc := Some(totalCc / numOfNodes as real);
    }
  }

  /** Summing the vertices' coefficients in list order gives the sum over the
      vertex set, and at most one per vertex. */
  lemma ClusteringTotal(g: Adjacency, vs: seq<int>)
    requires WellFormed(g) && Distinct(vs) && forall x :: x in vs <==> x in g
    ensures |vs| == |g|
    ensures SumSeqReal(vs, LocalClustering(g)) == SumOverReal(g.Keys, LocalClustering(g))
    ensures 0.0 <= SumSeqReal(vs, LocalClustering(g)) <= |vs| as real
  {
    DistinctCard(vs);
    assert (set x | x in vs) == g.Keys;
    SumSeqRealIsSumOverReal(vs, LocalClustering(g));
    ClusteringSumBounds(g, vs);
  }

  /** A sum of coefficients is at most one per term. */
  lemma ClusteringSumBounds(g: Adjacency, vs: seq<int>)
    requires WellFormed(g)
    ensures 0.0 <= SumSeqReal(vs, LocalClustering(g)) <= |vs| as real
  {
    var f := LocalClustering(g);
    forall x | x in vs
      ensures 0.0 <= f(x) <= 1.0
    {
      LocalClusteringBounds(g, x);
    }
    SumSeqRealBounds(vs, f, 0.0, 1.0);
  }

  /** Every vertex's coefficient is a fraction. */
  lemma LocalClusteringBounds(g: Adjacency, x: int)
    requires WellFormed(g)
    ensures 0.0 <= LocalClustering(g)(x) <= 1.0
  {
    if x in g {
      assert DestsIn(g, g[x]);
      ClusteringInUnitInterval(|g[x]|, LinkedPairs(g, g[x]));
    }
  }

  /** A total of n fractions in [0, 1], divided by n, is again in [0, 1]. */
  lemma MeanInUnitInterval(total: real, n: int)
    requires n > 0 && 0.0 <= total <= n as real
    ensures 0.0 <= total / n as real <= 1.0
  {
  }

  // ---------------------------------------------------------------------------
  // Property 5: the characteristic path length, as written and as intended.

  function Identity(x: int): int
  {
    x
  }

  /** What the inner loop adds for source `v`: `distance[v] + ... + distance[n]`,
      read from the table `rows[v]` of the distances from `v`. */
  function Contribution(rows: map<int, seq<int>>): int -> int
  {
    v => if v in rows && 0 <= v <= |rows[v]| then SumSeq(rows[v][v..], Identity) else 0
  }

  /** `characteristicPathLength` as written: the entries on and after the diagonal
      of every table, -1 marks included, divided by N * (N - 1) for N vertices; the
      quotient is not a number (NaN or infinite in the source) when N < 2. */
  ghost function CplAsWritten(rows: map<int, seq<int>>): Option<real>
  {
    var n := |rows|;
    if n * (n - 1) == 0 then None
    else Some(SumOver(rows.Keys, Contribution(rows)) as real / (n * (n - 1)) as real)
  }

  /** `characteristicPathLength`: one `shortestPath` table per vertex, summed from
      the diagonal on. The ghost `rows` are those tables; each is the one the
      specification of the search fixes, so the result depends on the graph only. */
  method CharacteristicPathLength(graph: UndirectedGraph) returns (cpl: Option<real>, ghost rows: map<int, seq<int>>)
    requires graph.Valid() && KeysIn(graph.graph, graph.numberOfVertices) && NonNegative(graph.graph)
    ensures rows.Keys == graph.graph.Keys
    ensures AllShortest(graph.graph, graph.numberOfVertices, rows)
    ensures cpl == CplAsWritten(rows)
    ensures forall other: map<int, seq<int>> :: other.Keys == graph.graph.Keys && AllShortest(graph.graph, graph.numberOfVertices, other)
                            ==> cpl == CplAsWritten(other)
  {
    var vertexList := graph.Vertices();
    var totalPathLen;
    totalPathLen, rows := SumContributions(graph, vertexList);
    var count := |vertexList|;
    cpl := if count * (count - 1) == 0 then None else Some(totalPathLen as real / (count * (count - 1)) as real);
    CplQuotient(rows, count, totalPathLen, cpl);
    forall other: map<int, seq<int>> | other.Keys == graph.graph.Keys && AllShortest(graph.graph, graph.numberOfVertices, other)
      ensures cpl == CplAsWritten(other)
    {
      AllShortestUnique(graph.graph, graph.numberOfVertices, rows, other);
    }
  }

  /** The tables are fixed by the graph: two complete sets of them are equal. */
  lemma AllShortestUnique(g: Adjacency, n: int, rows: map<int, seq<int>>, other: map<int, seq<int>>)
    requires rows.Keys == other.Keys && AllShortest(g, n, rows) && AllShortest(g, n, other)
    ensures rows == other
  {
    forall v | v in rows
      ensures rows[v] == other[v]
    {
      ShortestUnique(g, v, n, rows[v], other[v]);
    }
  }

  /** The outer loop of `characteristicPathLength`: one table per vertex of the
      list, each summed from the diagonal on. */
  method SumContributions(graph: UndirectedGraph, vertexList: seq<int>)
    returns (totalPathLen: int, rows: map<int, seq<int>>)
    requires graph.Valid() && KeysIn(graph.graph, graph.numberOfVertices) && NonNegative(graph.graph)
    requires Distinct(vertexList) && forall x :: x in vertexList <==> x in graph.graph
    ensures rows.Keys == graph.graph.Keys && |rows| == |vertexList|
    ensures AllShortest(graph.graph, graph.numberOfVertices, rows)
    ensures totalPathLen == SumOver(rows.Keys, Contribution(rows))
  {
    ghost var g, n := graph.graph, graph.numberOfVertices;
    totalPathLen := 0;
    rows := map[];
    for k := 0 to |vertexList|
      invariant rows.Keys == (set x | x in vertexList[..k])
      invariant AllShortest(g, n, rows)
      invariant totalPathLen == SumSeq(vertexList[..k], Contribution(rows))
    {
      ListStep(vertexList, k);
      totalPathLen, rows := AddSource(graph, vertexList[k], totalPathLen, rows, vertexList[..k]);
    }
    TabulationRows(rows, vertexList, g, Contribution(rows));
  }

  lemma CplQuotient(rows: map<int, seq<int>>, count: int, total: int, cpl: Option<real>)
    requires count == |rows| && total == SumOver(rows.Keys, Contribution(rows))
    requires cpl == if count * (count - 1) == 0 then None else Some(total as real / (count * (count - 1)) as real)
    ensures cpl == CplAsWritten(rows)
  {
  }

  /** One iteration of the outer loop: the table of source `i` and its sum from
      the diagonal on. */
  method AddSource(graph: UndirectedGraph, i: int, total: int, rows: map<int, seq<int>>, ghost xs: seq<int>)
    returns (total': int, rows': map<int, seq<int>>)
    requires graph.Valid() && KeysIn(graph.graph, graph.numberOfVertices) && NonNegative(graph.graph)
    requires i in graph.graph && i !in rows && rows.Keys == (set x | x in xs)
    requires AllShortest(graph.graph, graph.numberOfVertices, rows)
    requires total == SumSeq(xs, Contribution(rows))
    ensures rows'.Keys == (set x | x in xs + [i])
    ensures AllShortest(graph.graph, graph.numberOfVertices, rows')
    ensures total' == SumSeq(xs + [i], Contribution(rows'))
  {
    var distance := ShortestPath(graph, i);
    var rowTotal := SumFrom(distance, i);
    total' := total + rowTotal;
    AddRow(rows, xs, i, distance[..]);
    AllShortestAdd(graph.graph, graph.numberOfVertices, rows, i, distance[..]);
    KeysStep(rows, xs, i, distance[..]);
    rows' := rows[i := distance[..]];
  }

  /** The list prefix grows by one element per iteration, and with it the keys. */
  lemma ListStep(vs: seq<int>, k: int)
    requires 0 <= k < |vs|
    ensures vs[..k + 1] == vs[..k] + [vs[k]]
    ensures Distinct(vs) ==> vs[k] !in vs[..k]
  {
  }

  lemma KeysStep<V>(rows: map<int, V>, xs: seq<int>, i: int, d: V)
    requires rows.Keys == (set x | x in xs)
    ensures rows[i := d].Keys == (set x | x in xs + [i])
  {
  }

  lemma AllShortestAdd(g: Adjacency, n: int, rows: map<int, seq<int>>, i: int, d: seq<int>)
    requires AllShortest(g, n, rows) && i in g && ShortestFrom(g, i, n, d)
    ensures AllShortest(g, n, rows[i := d])
  {
  }

  /** Every table in `rows` is the distance table of its source. */
  ghost predicate AllShortest(g: Adjacency, n: int, rows: map<int, seq<int>>)
  {
    forall v :: v in rows ==> v in g && ShortestFrom(g, v, n, rows[v])
  }

  /** The inner loop: `distance[i] + ... + distance[distance.length - 1]`. */
  method SumFrom(distance: array<int>, i: int) returns (rowTotal: int)
    requires 0 <= i <= distance.Length
    ensures rowTotal == SumSeq(distance[..][i..], Identity)
  {
    rowTotal := 0;
    for j := i to distance.Length
      invariant rowTotal == SumSeq(distance[i..j], Identity)
    {
      assert distance[i..j + 1][..j - i] == distance[i..j];
      rowTotal := rowTotal + distance[j];
    }
    assert distance[i..distance.Length] == distance[..][i..];
  }

  /** Adding the table of a new source leaves the earlier sources' terms alone. */
  lemma AddRow(rows: map<int, seq<int>>, xs: seq<int>, i: int, d: seq<int>)
    requires rows.Keys == (set x | x in xs) && i !in rows && 0 <= i <= |d|
    ensures SumSeq(xs + [i], Contribution(rows[i := d])) == SumSeq(xs, Contribution(rows)) + SumSeq(d[i..], Identity)
  {
    var rows' := rows[i := d];
    SumSeqExt(xs, Contribution(rows'), Contribution(rows));
    assert (xs + [i])[..|xs|] == xs;
  }

  /** After the loop the tables cover the vertex list, in number and in sum. */
  lemma TabulationRows(rows: map<int, seq<int>>, vs: seq<int>, g: Adjacency, f: int -> int)
    requires Distinct(vs) && rows.Keys == (set x | x in vs[..|vs|])
    requires forall x :: x in vs <==> x in g
    ensures rows.Keys == g.Keys && |rows| == |vs|
    ensures SumSeq(vs[..|vs|], f) == SumOver(rows.Keys, f)
  {
    assert vs[..|vs|] == vs;
    DistinctCard(vs);
    forall x
      ensures x in rows <==> x in g
    {
      assert x in rows <==> x in vs;
    }
    assert rows.Keys == g.Keys;
    assert |rows| == |rows.Keys|;
    SumSeqIsSumOver(vs, f);
  }

  /** Intended measure, summed over one table: the reached vertices other than the
      source among `1..j-1`, their total distance and their number. */
  function PairTotal(d: seq<int>, s: int, j: int): int
    requires 0 <= j <= |d|
  {
    if j <= 1 then 0 else PairTotal(d, s, j - 1) + (if j - 1 != s && d[j - 1] != -1 then d[j - 1] else 0)
  }

  function PairCount(d: seq<int>, s: int, j: int): int
    requires 0 <= j <= |d|
  {
    if j <= 1 then 0 else PairCount(d, s, j - 1) + (if j - 1 != s && d[j - 1] != -1 then 1 else 0)
  }

  function RowTotals(rows: map<int, seq<int>>): int -> int
  {
    v => if v in rows then PairTotal(rows[v], v, |rows[v]|) else 0
  }

  function RowCounts(rows: map<int, seq<int>>): int -> int
  {
    v => if v in rows then PairCount(rows[v], v, |rows[v]|) else 0
  }

  /** The characteristic path length as the measure is defined: the mean distance
      over ordered pairs of distinct vertices with a path between them, undefined
      when there is no such pair. */
  ghost function MeanPathLength(rows: map<int, seq<int>>): Option<real>
  {
    var pairs := SumOver(rows.Keys, RowCounts(rows));
    if pairs == 0 then None
    else Some(SumOver(rows.Keys, RowTotals(rows)) as real / pairs as real)
  }

  /** The characteristic path length computed as the measure defines it: for each
      source, the reached vertices other than itself are summed and counted, and
      the total distance is divided by the number of such ordered pairs. */
  method MeanShortestPathLength(graph: UndirectedGraph) returns (mean: Option<real>, ghost rows: map<int, seq<int>>)
    requires graph.Valid() && KeysIn(graph.graph, graph.numberOfVertices) && NonNegative(graph.graph)
    ensures rows.Keys == graph.graph.Keys
    ensures AllShortest(graph.graph, graph.numberOfVertices, rows)
    ensures mean == MeanPathLength(rows)
    ensures forall other: map<int, seq<int>> :: other.Keys == graph.graph.Keys && AllShortest(graph.graph, graph.numberOfVertices, other)
                            ==> mean == MeanPathLength(other)
  {
    var vertexList := graph.Vertices();
    var total, pairs;
    total, pairs, rows := SumPairs(graph, vertexList);
    mean := if pairs == 0 then None else Some(total as real / pairs as real);
    MeanQuotient(rows, total, pairs, mean);
    forall other: map<int, seq<int>> | other.Keys == graph.graph.Keys && AllShortest(graph.graph, graph.numberOfVertices, other)
      ensures mean == MeanPathLength(other)
    {
      AllShortestUnique(graph.graph, graph.numberOfVertices, rows, other);
    }
  }

  /** The corrected outer loop: one table per vertex of the list, its reached
      pairs summed and counted. */
  method SumPairs(graph: UndirectedGraph, vertexList: seq<int>)
    returns (total: int, pairs: int, rows: map<int, seq<int>>)
    requires graph.Valid() && KeysIn(graph.graph, graph.numberOfVertices) && NonNegative(graph.graph)
    requires Distinct(vertexList) && forall x :: x in vertexList <==> x in graph.graph
    ensures rows.Keys == graph.graph.Keys
    ensures AllShortest(graph.graph, graph.numberOfVertices, rows)
    ensures total == SumOver(rows.Keys, RowTotals(rows))
    ensures pairs == SumOver(rows.Keys, RowCounts(rows))
  {
    ghost var g, n := graph.graph, graph.numberOfVertices;
    total, pairs := 0, 0;
    rows := map[];
    for k := 0 to |vertexList|
      invariant rows.Keys == (set x | x in vertexList[..k])
      invariant AllShortest(g, n, rows)
      invariant total == SumSeq(vertexList[..k], RowTotals(rows))
      invariant pairs == SumSeq(vertexList[..k], RowCounts(rows))
    {
      ListStep(vertexList, k);
      total, pairs, rows := AddSourcePairs(graph, vertexList[k], total, pairs, rows, vertexList[..k]);
    }
    PairsTabulated(rows, vertexList, g);
  }

  lemma PairsTabulated(rows: map<int, seq<int>>, vs: seq<int>, g: Adjacency)
    requires Distinct(vs) && rows.Keys == (set x | x in vs[..|vs|])
    requires forall x :: x in vs <==> x in g
    ensures rows.Keys == g.Keys
    ensures SumSeq(vs[..|vs|], RowTotals(rows)) == SumOver(rows.Keys, RowTotals(rows))
    ensures SumSeq(vs[..|vs|], RowCounts(rows)) == SumOver(rows.Keys, RowCounts(rows))
  {
    TabulationRows(rows, vs, g, RowTotals(rows));
    TabulationRows(rows, vs, g, RowCounts(rows));
  }

  /** One source of the intended measure: its table, the distances to the other
      vertices it reaches and their number. */
  method AddSourcePairs(graph: UndirectedGraph, i: int, total: int, pairs: int, rows: map<int, seq<int>>, ghost xs: seq<int>)
    returns (total': int, pairs': int, rows': map<int, seq<int>>)
    requires graph.Valid() && KeysIn(graph.graph, graph.numberOfVertices) && NonNegative(graph.graph)
    requires i in graph.graph && i !in rows && rows.Keys == (set x | x in xs)
    requires AllShortest(graph.graph, graph.numberOfVertices, rows)
    requires total == SumSeq(xs, RowTotals(rows)) && pairs == SumSeq(xs, RowCounts(rows))
    ensures rows'.Keys == (set x | x in xs + [i])
    ensures AllShortest(graph.graph, graph.numberOfVertices, rows')
    ensures total' == SumSeq(xs + [i], RowTotals(rows'))
    ensures pairs' == SumSeq(xs + [i], RowCounts(rows'))
  {
    var distance := ShortestPath(graph, i);
    var rowTotal, rowCount := ReachedPairs(distance, i);
    total', pairs' := total + rowTotal, pairs + rowCount;
    var d := distance[..];
    AddRowPairs(rows, xs, i, d, total, pairs, rowTotal, rowCount);
    AllShortestAdd(graph.graph, graph.numberOfVertices, rows, i, d);
    KeysStep(rows, xs, i, d);
    rows' := rows[i := d];
  }

  /** The reached entries of one table other than the source's own, summed and
      counted. */
  method ReachedPairs(distance: array<int>, i: int) returns (rowTotal: int, rowCount: int)
    requires distance.Length >= 1
    ensures rowTotal == PairTotal(distance[..], i, distance.Length)
    ensures rowCount == PairCount(distance[..], i, distance.Length)
  {
    rowTotal, rowCount := 0, 0;
    for j := 1 to distance.Length
      invariant rowTotal == PairTotal(distance[..], i, j)
      invariant rowCount == PairCount(distance[..], i, j)
    {
      if j != i && distance[j] != -1 {
        rowTotal, rowCount := rowTotal + distance[j], rowCount + 1;
      }
    }
  }

  lemma AddRowPairs(rows: map<int, seq<int>>, xs: seq<int>, i: int, d: seq<int>, total: int, pairs: int, rowTotal: int, rowCount: int)
    requires rows.Keys == (set x | x in xs) && i !in rows
    requires total == SumSeq(xs, RowTotals(rows)) && pairs == SumSeq(xs, RowCounts(rows))
    requires rowTotal == PairTotal(d, i, |d|) && rowCount == PairCount(d, i, |d|)
    ensures total + rowTotal == SumSeq(xs + [i], RowTotals(rows[i := d]))
    ensures pairs + rowCount == SumSeq(xs + [i], RowCounts(rows[i := d]))
  {
    var rows' := rows[i := d];
    SumSeqExt(xs, RowTotals(rows'), RowTotals(rows));
    SumSeqExt(xs, RowCounts(rows'), RowCounts(rows));
    assert (xs + [i])[..|xs|] == xs;
  }

  /** Every pair counted by the intended measure is at a non-negative distance. */
  lemma {:induction false} PairTotalNonNegative(g: Adjacency, s: int, n: int, d: seq<int>, j: int)
    requires NonNegative(g) && s in g && ShortestFrom(g, s, n, d) && 0 <= j <= |d|
    ensures PairTotal(d, s, j) >= 0 && PairCount(d, s, j) >= 0
    decreases j
  {
    if j > 1 {
      PairTotalNonNegative(g, s, n, d, j - 1);
      var v := j - 1;
      if v != s && d[v] != -1 {
        var p :| WalkFrom(g, s, p, v) && |p| >= 2 && WalkLength(g, p) == d[v];
        WalkLengthNonNegative(g, p);
      }
    }
  }

  /** With no negative weight the intended mean is never negative. */
  lemma MeanPathLengthNonNegative(g: Adjacency, n: int, rows: map<int, seq<int>>)
    requires NonNegative(g) && AllShortest(g, n, rows)
    ensures MeanPathLength(rows).Some? ==> MeanPathLength(rows).value >= 0.0
  {
    forall v | v in rows
      ensures RowTotals(rows)(v) >= 0 && RowCounts(rows)(v) >= 0
    {
      assert v in g && ShortestFrom(g, v, n, rows[v]);
      PairTotalNonNegative(g, v, n, rows[v], |rows[v]|);
    }
    SumOverNonNegative(rows.Keys, RowTotals(rows));
    SumOverNonNegative(rows.Keys, RowCounts(rows));
    var total, pairs := SumOver(rows.Keys, RowTotals(rows)), SumOver(rows.Keys, RowCounts(rows));
    if pairs != 0 {
      QuotientNonNegative(total, pairs);
    }
  }

  lemma QuotientNonNegative(a: int, b: int)
    requires a >= 0 && b > 0
    ensures a as real / b as real >= 0.0
  {
  }

  // ---------------------------------------------------------------------------
  // Two graphs on which the written formula and the measure differ.

  /** Three vertices, every two linked with weight 1. */
  const Triangle: Adjacency := map[1 := [Edge(2, 1), Edge(3, 1)], 2 := [Edge(1, 1), Edge(3, 1)], 3 := [Edge(1, 1), Edge(2, 1)]]

  /** Its distance tables: 0 to itself, 1 to each other vertex. */
  const TriangleRows: map<int, seq<int>> := map[1 := [0, 0, 1, 1], 2 := [0, 1, 0, 1], 3 := [0, 1, 1, 0]]

  /** Two vertices and no edge. */
  const TwoIsolated: Adjacency := map[1 := [], 2 := []]

  /** Its distance tables: each vertex reaches only itself. */
  const TwoIsolatedRows: map<int, seq<int>> := map[1 := [0, 0, -1], 2 := [0, -1, 0]]

  lemma TriangleLinks(u: int, x: int)
    requires u in Triangle
    ensures Lookup(Triangle[u], x) == if x != u && 1 <= x <= 3 then Some(1) else None
  {
    if u == 1 {
      LookupTwo(Edge(2, 1), Edge(3, 1), x);
    } else if u == 2 {
      LookupTwo(Edge(1, 1), Edge(3, 1), x);
    } else {
      LookupTwo(Edge(1, 1), Edge(2, 1), x);
    }
  }

  lemma LookupTwo(a: Edge, b: Edge, x: int)
    ensures Lookup([a, b], x) == if b.dest == x then Some(b.w) else if a.dest == x then Some(a.w) else None
  {
    assert [a, b][..1] == [a] && [a][..0] == [];
    assert Lookup([a], x) == if a.dest == x then Some(a.w) else None;
  }

  lemma TriangleShortest(s: int)
    requires s in Triangle
    ensures ShortestFrom(Triangle, s, 3, TriangleRows[s])
  {
    var d := TriangleRows[s];
    forall u, x | u in Triangle && Contains(Triangle[u], x)
      ensures Lookup(Triangle[u], x).value >= 1
    {
      TriangleLinks(u, x);
    }
    TriangleLinks(s, s);
    forall v | 1 <= v < |d| && d[v] != -1
      ensures (v == s && !HasLoop(Triangle, s))
              || exists p :: WalkFrom(Triangle, s, p, v) && |p| >= 2 && WalkLength(Triangle, p) == d[v]
    {
      if v != s {
        TriangleLinks(s, v);
        WalkOne(Triangle, s, v);
      }
    }
    forall p | IsWalk(Triangle, p) && p[0] == s && |p| >= 2 && 0 <= p[|p| - 1] < |d|
      ensures d[p[|p| - 1]] != -1 && d[p[|p| - 1]] <= WalkLength(Triangle, p)
    {
      WalkLengthAtLeastLinks(Triangle, p);
    }
  }

  /** The table any run of the search produces on the triangle. */
  lemma TriangleTable(v: int, d: seq<int>)
    requires v in Triangle && ShortestFrom(Triangle, v, 3, d)
    ensures d == TriangleRows[v]
  {
    TriangleShortest(v);
    ShortestUnique(Triangle, v, 3, d, TriangleRows[v]);
  }

  /** The written formula on three tables contributing 3 in all: 3 / 6. */
  lemma CplOfThree(rows: map<int, seq<int>>)
    requires |rows| == 3 && SumOver(rows.Keys, Contribution(rows)) == 3
    ensures CplAsWritten(rows) == Some(0.5)
  {
  }

  /** The written formula on two tables contributing -1 in all: -1 / 2. */
  lemma CplOfTwo(rows: map<int, seq<int>>)
    requires |rows| == 2 && SumOver(rows.Keys, Contribution(rows)) == -1
    ensures CplAsWritten(rows) == Some(-0.5)
  {
  }

  /** The measure when six reached pairs lie at total distance 6: 6 / 6. */
  lemma MeanOfSix(rows: map<int, seq<int>>)
    requires SumOver(rows.Keys, RowTotals(rows)) == 6 && SumOver(rows.Keys, RowCounts(rows)) == 6
    ensures MeanPathLength(rows) == Some(1.0)
  {
  }

  /** The sums both formulas divide, on the triangle's tables. */
  lemma TriangleSums(rows: map<int, seq<int>>)
    requires rows.Keys == Triangle.Keys && AllShortest(Triangle, 3, rows)
    ensures |rows| == 3 && SumOver(rows.Keys, Contribution(rows)) == 3
    ensures SumOver(rows.Keys, RowTotals(rows)) == 6 && SumOver(rows.Keys, RowCounts(rows)) == 6
  {
    TriangleTables(rows);
    RowsCount();
    TriangleContributions();
    TrianglePairs();
  }

  /** The sums both formulas divide, on the tables of two isolated vertices. */
  lemma TwoIsolatedSums(rows: map<int, seq<int>>)
    requires rows.Keys == TwoIsolated.Keys && AllShortest(TwoIsolated, 2, rows)
    ensures |rows| == 2 && SumOver(rows.Keys, Contribution(rows)) == -1
    ensures SumOver(rows.Keys, RowCounts(rows)) == 0
  {
    TwoIsolatedTables(rows);
    RowsCount();
    TwoIsolatedContributions();
    SumOverSmallKeys(TwoIsolatedRows.Keys, RowCounts(TwoIsolatedRows), 2);
  }

  lemma TriangleTables(rows: map<int, seq<int>>)
    requires rows.Keys == Triangle.Keys && AllShortest(Triangle, 3, rows)
    ensures rows == TriangleRows
  {
    forall v | v in rows
      ensures rows[v] == TriangleRows[v]
    {
      TriangleTable(v, rows[v]);
    }
  }

  /** Without edges every walk is a single vertex. */
  lemma TwoIsolatedWalks()
    ensures forall p :: IsWalk(TwoIsolated, p) ==> |p| == 1
  {
    forall p | IsWalk(TwoIsolated, p)
      ensures |p| == 1
    {
      TwoIsolatedWalk(p);
    }
  }

  lemma TwoIsolatedWalk(p: seq<int>)
    requires IsWalk(TwoIsolated, p)
    ensures |p| == 1
  {
  }

  lemma TwoIsolatedTable(v: int, d: seq<int>)
    requires v in TwoIsolated && ShortestFrom(TwoIsolated, v, 2, d)
    ensures d == TwoIsolatedRows[v]
  {
    TwoIsolatedWalks();
    assert ShortestFrom(TwoIsolated, v, 2, TwoIsolatedRows[v]);
    ShortestUnique(TwoIsolated, v, 2, d, TwoIsolatedRows[v]);
  }

  lemma TwoIsolatedTables(rows: map<int, seq<int>>)
    requires rows.Keys == TwoIsolated.Keys && AllShortest(TwoIsolated, 2, rows)
    ensures rows == TwoIsolatedRows
  {
    forall v | v in rows
      ensures rows[v] == TwoIsolatedRows[v]
    {
      TwoIsolatedTable(v, rows[v]);
    }
  }

  /** A sum over {1, 2} or {1, 2, 3}, term by term. */
  lemma SumOverSmallKeys(s: set<int>, f: int -> int, k: int)
    requires (k == 2 && s == {1, 2}) || (k == 3 && s == {1, 2, 3})
    ensures SumOver(s, f) == if k == 2 then f(1) + f(2) else f(1) + f(2) + f(3)
  {
    var xs := if k == 2 then [1, 2] else [1, 2, 3];
    assert s == set x | x in xs;
    SumSeqIsSumOver(xs, f);
    assert [1, 2, 3][..2] == [1, 2] && [1, 2][..1] == [1];
  }


  lemma RowsCount()
    ensures |TriangleRows| == 3 && |TwoIsolatedRows| == 2
  {
    assert TriangleRows.Keys == {1, 2, 3} && TwoIsolatedRows.Keys == {1, 2};
  }

  /** As written, the triangle's tables contribute 3 in all: the three
      unordered pairs once each. */
  lemma TriangleContributions()
    ensures SumOver(TriangleRows.Keys, Contribution(TriangleRows)) == 3
  {
    var f := Contribution(TriangleRows);
    SumOverSmallKeys(TriangleRows.Keys, f, 3);
    assert [0, 1, 1][..2] == [0, 1] && [0, 1][..1] == [0] && [0][..0] == [];
    assert f(1) == 2 && f(2) == 1 && f(3) == 0;
  }

  /** As written, the triangle's characteristic path length comes out as 0.5:
      each unordered pair is counted once but divided by the ordered count. */
  lemma CplAsWrittenOnTriangle(rows: map<int, seq<int>>)
    requires rows.Keys == Triangle.Keys && AllShortest(Triangle, 3, rows)
    ensures CplAsWritten(rows) == Some(0.5)
  {
    TriangleSums(rows);
    CplOfThree(rows);
  }

  /** As written, the two isolated vertices contribute -1: the sentinel of the
      second vertex in the first table. */
  lemma TwoIsolatedContributions()
    ensures SumOver(TwoIsolatedRows.Keys, Contribution(TwoIsolatedRows)) == -1
  {
    var f := Contribution(TwoIsolatedRows);
    SumOverSmallKeys(TwoIsolatedRows.Keys, f, 2);
    assert [0, -1][..1] == [0] && [0][..0] == [];
    assert f(1) == -1 && f(2) == 0;
  }

  /** As written, two isolated vertices give a negative length: the -1 marking the
      unreached vertex is added as a distance. */
  lemma CplAsWrittenOnTwoIsolated(rows: map<int, seq<int>>)
    requires rows.Keys == TwoIsolated.Keys && AllShortest(TwoIsolated, 2, rows)
    ensures CplAsWritten(rows) == Some(-0.5)
  {
    TwoIsolatedSums(rows);
    CplOfTwo(rows);
  }

  /** The measure on the triangle's tables: six ordered pairs, each at distance 1. */
  lemma TrianglePairs()
    ensures SumOver(TriangleRows.Keys, RowTotals(TriangleRows)) == 6
    ensures SumOver(TriangleRows.Keys, RowCounts(TriangleRows)) == 6
  {
    var rows := TriangleRows;
    SumOverSmallKeys(rows.Keys, RowTotals(rows), 3);
    SumOverSmallKeys(rows.Keys, RowCounts(rows), 3);
    forall v | v in rows
      ensures PairTotal(rows[v], v, 4) == 2 && PairCount(rows[v], v, 4) == 2
    {
      assert PairTotal(rows[v], v, 2) + PairTotal(rows[v], v, 1) == PairCount(rows[v], v, 2);
      assert PairTotal(rows[v], v, 3) == PairCount(rows[v], v, 3);
    }
  }

  lemma MeanQuotient(rows: map<int, seq<int>>, total: int, pairs: int, mean: Option<real>)
    requires total == SumOver(rows.Keys, RowTotals(rows)) && pairs == SumOver(rows.Keys, RowCounts(rows))
    requires mean == if pairs == 0 then None else Some(total as real / pairs as real)
    ensures mean == MeanPathLength(rows)
  {
  }

  /** The measure gives the triangle's mean distance, 1. */
  lemma MeanPathLengthOnTriangle(rows: map<int, seq<int>>)
    requires rows.Keys == Triangle.Keys && AllShortest(Triangle, 3, rows)
    ensures MeanPathLength(rows) == Some(1.0)
  {
    TriangleSums(rows);
    MeanOfSix(rows);
  }

  /** The measure is undefined when no vertex reaches another. */
  lemma MeanPathLengthOnTwoIsolated(rows: map<int, seq<int>>)
    requires rows.Keys == TwoIsolated.Keys && AllShortest(TwoIsolated, 2, rows)
    ensures MeanPathLength(rows) == None
  {
    TwoIsolatedSums(rows);
  }
}
