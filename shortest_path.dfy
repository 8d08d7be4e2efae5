/** Single-source distances as `NetworkTopology.shortestPath` computes them: a
    label-correcting search over the weighted undirected graph. The priority queue
    is abstracted to a list of vertices served in any order; the result is proved
    to be the table of shortest walk lengths whatever that order is. */
module ShortestPaths {
  import opened Exceptions
  import opened Edges
  import opened WeightedGraph

  // ---------------------------------------------------------------------------
  // Inputs the search relies on.

  /** The distance table has one slot per vertex id 1..n (slot 0 is unused), so
      every vertex must lie in that range. */
  ghost predicate KeysIn(g: Adjacency, n: int)
  {
    forall v :: v in g ==> 1 <= v <= n
  }

  /** No negative weight: a negative undirected link reachable from the source is a
      negative cycle, and the search never ends. */
  ghost predicate NonNegative(g: Adjacency)
  {
    forall u, x :: u in g && Contains(g[u], x) ==> Lookup(g[u], x).value >= 0
  }

  ghost predicate Input(g: Adjacency, n: int, s: int)
  {
    WellFormed(g) && KeysIn(g, n) && NonNegative(g) && s in g
  }

  predicate HasLoop(g: Adjacency, v: int)
    requires v in g
  {
    Contains(g[v], v)
  }

  // ---------------------------------------------------------------------------
  // Walks and what a correct distance table is.

  /** A sequence of vertices, each linked to the next. */
  ghost predicate IsWalk(g: Adjacency, p: seq<int>)
  {
    && |p| >= 1
    && p[|p| - 1] in g
    && (|p| == 1 || (IsWalk(g, p[..|p| - 1]) && Contains(g[p[|p| - 2]], p[|p| - 1])))
  }

  /** The total weight of the links a walk uses. */
  ghost function WalkLength(g: Adjacency, p: seq<int>): int
    requires IsWalk(g, p)
  {
    if |p| == 1 then 0
    else WalkLength(g, p[..|p| - 1]) + Lookup(g[p[|p| - 2]], p[|p| - 1]).value
  }

  ghost predicate WalkFrom(g: Adjacency, s: int, p: seq<int>, v: int)
  {
    IsWalk(g, p) && p[0] == s && p[|p| - 1] == v
  }

  /** `d` is the table `shortestPath(s)` should return for a graph on ids 1..n:
      - a reached vertex (not -1) is the end of a walk from `s` of that length,
        except `s` itself, which keeps 0 when it has no self-loop;
      - every walk from `s` of at least one link reaches its end vertex, at a
        distance no larger than the walk's length;
      - without a self-loop, the source is at distance 0.
      So -1 marks exactly the vertices no walk reaches, and each other entry is the
      least length of a walk of at least one link (for `s` with a self-loop: its
      shortest closed walk). */
  ghost predicate ShortestFrom(g: Adjacency, s: int, n: int, d: seq<int>)
    requires s in g
  {
    && n >= 0 && |d| == n + 1 && d[0] == 0
    && (!HasLoop(g, s) ==> 0 <= s < |d| && d[s] == 0)
    && (forall v :: 1 <= v < |d| && d[v] != -1 ==>
          (v == s && !HasLoop(g, s)) || exists p {:trigger WalkFrom(g, s, p, v)} :: WalkFrom(g, s, p, v) && |p| >= 2 && WalkLength(g, p) == d[v])
    && (forall p {:trigger IsWalk(g, p)} :: IsWalk(g, p) && p[0] == s && |p| >= 2 && 0 <= p[|p| - 1] < |d| ==>
          d[p[|p| - 1]] != -1 && d[p[|p| - 1]] <= WalkLength(g, p))
  }

  /** One link more: the walk grows by the link's weight. */
  lemma WalkExtend(g: Adjacency, p: seq<int>, x: int)
    requires IsWalk(g, p) && x in g && Contains(g[p[|p| - 1]], x)
    ensures IsWalk(g, p + [x]) && (p + [x])[0] == p[0]
    ensures WalkLength(g, p + [x]) == WalkLength(g, p) + Lookup(g[p[|p| - 1]], x).value
  {
    var q := p + [x];
    assert q[..|q| - 1] == p;
    assert q[|q| - 2] == p[|p| - 1] && q[|q| - 1] == x;
  }

  /** The one-link walk from `s` to a neighbour. */
  lemma WalkOne(g: Adjacency, s: int, x: int)
    requires s in g && x in g && Contains(g[s], x)
    ensures WalkFrom(g, s, [s, x], x) && WalkLength(g, [s, x]) == Lookup(g[s], x).value
  {
    assert [s, x][..1] == [s];
  }

  /** With no negative weight, no walk has a negative length. */
  lemma {:induction false} WalkLengthNonNegative(g: Adjacency, p: seq<int>)
    requires NonNegative(g) && IsWalk(g, p)
    ensures WalkLength(g, p) >= 0
    decreases |p|
  {
    if |p| > 1 {
      WalkLengthNonNegative(g, p[..|p| - 1]);
    }
  }

  /** With every weight at least 1, a walk is at least as long as its number of
      links. */
  lemma {:induction false} WalkLengthAtLeastLinks(g: Adjacency, p: seq<int>)
    requires forall u, x :: u in g && Contains(g[u], x) ==> Lookup(g[u], x).value >= 1
    requires IsWalk(g, p)
    ensures WalkLength(g, p) >= |p| - 1
    decreases |p|
  {
    if |p| > 1 {
      WalkLengthAtLeastLinks(g, p[..|p| - 1]);
    }
  }

  /** The table is determined by the graph and the source: the order in which the
      queue hands out vertices cannot change the result. */
  lemma ShortestUnique(g: Adjacency, s: int, n: int, d1: seq<int>, d2: seq<int>)
    requires s in g && ShortestFrom(g, s, n, d1) && ShortestFrom(g, s, n, d2)
    ensures d1 == d2
  {
    forall v | 0 <= v < |d1|
      ensures d1[v] == d2[v]
    {
      if v != 0 && !(v == s && !HasLoop(g, s)) {
        if d1[v] != -1 {
          var p :| WalkFrom(g, s, p, v) && |p| >= 2 && WalkLength(g, p) == d1[v];
          assert d2[v] != -1 && d2[v] <= d1[v];
          var p2 :| WalkFrom(g, s, p2, v) && |p2| >= 2 && WalkLength(g, p2) == d2[v];
          assert d1[v] <= d2[v];
        }
      }
    }
  }

  /** Apart from the source, a vertex is marked unreached exactly when no walk leads
      to it. */
  lemma UnreachedIffNoWalk(g: Adjacency, s: int, n: int, d: seq<int>, v: int)
    requires s in g && ShortestFrom(g, s, n, d) && 1 <= v <= n && v != s
    ensures d[v] == -1 <==> !exists p :: WalkFrom(g, s, p, v) && |p| >= 2
  {
    if d[v] != -1 {
      var p :| WalkFrom(g, s, p, v) && |p| >= 2 && WalkLength(g, p) == d[v];
    }
  }

  // ---------------------------------------------------------------------------
  // The search state: a distance table, the queued vertices, and (ghost) a
  // witness walk for every reached vertex.

  /** Number of -1 entries. */
  function Unreached(d: seq<int>): nat
  {
    if d == [] then 0 else Unreached(d[..|d| - 1]) + (if d[|d| - 1] == -1 then 1 else 0)
  }

  function Pos(x: int): nat
  {
    if x >= 0 then x else 0
  }

  /** Sum of the reached distances. */
  function ReachedSum(d: seq<int>): nat
  {
    if d == [] then 0 else ReachedSum(d[..|d| - 1]) + Pos(d[|d| - 1])
  }

  /** Writing one slot changes the two counters by that slot's contribution. */
  lemma {:induction false} CountersUpdate(d: seq<int>, i: int, v: int)
    requires 0 <= i < |d|
    ensures Unreached(d[i := v]) == Unreached(d) - (if d[i] == -1 then 1 else 0) + (if v == -1 then 1 else 0)
    ensures ReachedSum(d[i := v]) == ReachedSum(d) - Pos(d[i]) + Pos(v)
    decreases |d|
  {
    var d' := d[i := v];
    if i == |d| - 1 {
      assert d'[..|d| - 1] == d[..|d| - 1];
    } else {
      assert d'[..|d| - 1] == d[..|d| - 1][i := v];
      CountersUpdate(d[..|d| - 1], i, v);
    }
  }

  /** The search made progress: a vertex was reached, or a reached distance fell. */
  predicate Progress(d0: seq<int>, d: seq<int>)
  {
    Unreached(d) < Unreached(d0) || (Unreached(d) == Unreached(d0) && ReachedSum(d) < ReachedSum(d0))
  }

  /** No reached slot rises or falls back to -1: distances are only set or lowered. */
  predicate NoRise(d0: seq<int>, d: seq<int>)
  {
    |d| == |d0| && forall v :: 0 <= v < |d0| && d0[v] != -1 ==> d[v] != -1 && d[v] <= d0[v]
  }

  /** Every slot that changed belongs to a vertex in the queue `q`. */
  predicate ChangesQueued(d0: seq<int>, d: seq<int>, q: seq<int>)
  {
    |d| == |d0| && forall v :: 0 <= v < |d0| && d[v] != d0[v] ==> v in q
  }

  /** Progress composes: two steps, each of which changed nothing or made progress,
      together changed nothing or made progress. */
  lemma ProgressChain(d0: seq<int>, d1: seq<int>, d2: seq<int>, q0: seq<int>, q1: seq<int>, q2: seq<int>)
    requires (d1 == d0 && q1 == q0) || Progress(d0, d1)
    requires (d2 == d1 && q2 == q1) || Progress(d1, d2)
    ensures (d2 == d0 && q2 == q0) || Progress(d0, d2)
  {
  }

  /** Two steps that only set or lower distances, and queue what they change, make
      one such step when the first queue is kept by the second. */
  lemma NoRiseChain(d0: seq<int>, d1: seq<int>, d2: seq<int>, q1: seq<int>, q2: seq<int>)
    requires NoRise(d0, d1) && NoRise(d1, d2)
    requires ChangesQueued(d0, d1, q1) && ChangesQueued(d1, d2, q2)
    requires forall y :: y in q1 ==> y in q2
    ensures NoRise(d0, d2) && ChangesQueued(d0, d2, q2)
  {
    forall v | 0 <= v < |d0| && d2[v] != d0[v]
      ensures v in q2
    {
      if d1[v] != d0[v] {
        assert v in q1;
      }
    }
  }

  /** The table has a slot per id and holds -1 or a non-negative distance. */
  ghost predicate Table(n: int, d: seq<int>)
  {
    n >= 0 && |d| == n + 1 && d[0] == 0 && forall v :: 0 <= v < |d| ==> d[v] == -1 || d[v] >= 0
  }

  /** Every reached entry is backed by its witness walk in `W`. */
  ghost predicate Sound(g: Adjacency, s: int, d: seq<int>, W: map<int, seq<int>>)
    requires s in g
  {
    && (!HasLoop(g, s) ==> 0 <= s < |d| && d[s] == 0)
    && (forall v :: 1 <= v < |d| && d[v] != -1 && !(v == s && !HasLoop(g, s)) ==>
          v in W && WalkFrom(g, s, W[v], v) && |W[v]| >= 2 && WalkLength(g, W[v]) == d[v])
  }

  /** The source's neighbours are no farther than their link weight. */
  ghost predicate FirstHop(g: Adjacency, s: int, d: seq<int>)
    requires s in g
  {
    forall x :: Contains(g[s], x) ==> 0 <= x < |d| && d[x] != -1 && d[x] <= Lookup(g[s], x).value
  }

  /** Queued vertices are reached vertices. */
  ghost predicate Queued(g: Adjacency, d: seq<int>, q: seq<int>)
  {
    forall x :: x in q ==> x in g && 0 <= x < |d| && d[x] != -1
  }

  /** The state invariant of the search. */
  ghost predicate Reach(g: Adjacency, n: int, s: int, d: seq<int>, q: seq<int>, W: map<int, seq<int>>)
    requires s in g
  {
    Table(n, d) && Sound(g, s, d, W) && FirstHop(g, s, d) && Queued(g, d, q)
  }

  /** The link from `u` to `x` is relaxed: `x` is no farther than `u` plus the link. */
  ghost predicate Relaxed(g: Adjacency, d: seq<int>, u: int, x: int)
    requires u in g
  {
    0 <= u < |d| && d[u] != -1 && Contains(g[u], x) ==>
      0 <= x < |d| && d[x] != -1 && d[x] <= d[u] + Lookup(g[u], x).value
  }

  /** Every vertex that is not queued has all its links relaxed. */
  ghost predicate Fixpoint(g: Adjacency, d: seq<int>, q: seq<int>)
  {
    forall u, x :: u in g && u !in q ==> Relaxed(g, d, u, x)
  }

  /** As `Fixpoint`, except for the vertex being expanded. */
  ghost predicate FixpointBut(g: Adjacency, d: seq<int>, q: seq<int>, w: int)
  {
    forall u, x :: u in g && u !in q && u != w ==> Relaxed(g, d, u, x)
  }

  /** The first `i` links of `u` (its edge list `es`) are relaxed. */
  ghost predicate RowDone(g: Adjacency, d: seq<int>, u: int, es: seq<Edge>, i: int)
    requires u in g && 0 <= i <= |es|
  {
    forall k :: 0 <= k < i ==> Relaxed(g, d, u, es[k].dest)
  }

  /** The table right after the source's neighbours were written: each neighbour at
      its link weight, the source at 0 unless it is its own neighbour, the rest -1. */
  function Start(es: seq<Edge>, s: int, v: int): int
  {
    if Contains(es, v) then Lookup(es, v).value else if v == s then 0 else -1
  }

  /** The initial table, queue and witnesses satisfy the invariant. */
  lemma InitEstablishes(g: Adjacency, n: int, s: int, d: seq<int>, q: seq<int>, W: map<int, seq<int>>)
    requires Input(g, n, s)
    requires |d| == n + 1 && d[0] == 0
    requires forall v :: 1 <= v <= n ==> d[v] == Start(g[s], s, v)
    requires forall x :: x in q <==> Contains(g[s], x)
    requires forall x :: Contains(g[s], x) ==> x in W && W[x] == [s, x]
    ensures Reach(g, n, s, d, q, W) && Fixpoint(g, d, q)
  {
    forall x | Contains(g[s], x)
      ensures x in g && 1 <= x <= n && d[x] == Lookup(g[s], x).value
      ensures WalkFrom(g, s, W[x], x) && WalkLength(g, W[x]) == d[x]
    {
      NeighbourIsVertex(g, s, x);
      WalkOne(g, s, x);
    }
    forall u, x | u in g && u !in q
      ensures Relaxed(g, d, u, x)
    {
      if u == s && Contains(g[s], x) {
        assert d[s] == 0;
      }
    }
  }

  /** Expanding the link `es[i]` of `u` when it does not improve anything. */
  lemma RelaxKeep(g: Adjacency, n: int, s: int, d: seq<int>, u: int, es: seq<Edge>, i: int)
    requires Input(g, n, s) && u in g && es == g[u] && 0 <= i < |es|
    requires 0 <= u < |d| && d[u] != -1 && RowDone(g, d, u, es, i)
    requires 0 <= es[i].dest < |d| && d[es[i].dest] != -1 && d[es[i].dest] <= d[u] + es[i].w
    ensures RowDone(g, d, u, es, i + 1)
  {
    LookupAt(es, i);
  }

  /** Expanding the link `es[i]` of `u` when it reaches or improves its end `x`:
      `x` gets `d[u]` plus the weight and is queued, and the invariant holds. */
  lemma RelaxUpdate(g: Adjacency, n: int, s: int, d: seq<int>, q: seq<int>, W: map<int, seq<int>>,
                    u: int, es: seq<Edge>, i: int)
    requires Input(g, n, s) && u in g && es == g[u] && 0 <= i < |es|
    requires Reach(g, n, s, d, q, W) && 0 <= u < |d| && d[u] != -1
    requires FixpointBut(g, d, q, u) && RowDone(g, d, u, es, i)
    requires 0 <= es[i].dest < |d| && (d[es[i].dest] == -1 || d[es[i].dest] > d[u] + es[i].w)
    ensures u in W
    ensures var x := es[i].dest;
      var d' := d[x := d[u] + es[i].w];
      var q' := q + [x];
      var W' := W[x := W[u] + [x]];
      && Reach(g, n, s, d', q', W')
      && FixpointBut(g, d', q', u) && RowDone(g, d', u, es, i + 1)
      && d'[u] == d[u] && Progress(d, d')
      && NoRise(d, d') && ChangesQueued(d, d', q')
  {
    var x := es[i].dest;
    var nd := d[u] + es[i].w;
    LookupAt(es, i);
    NeighbourIsVertex(g, u, x);
    assert 1 <= u && 1 <= x && es[i].w >= 0 && d[u] >= 0;
    assert x != u;
    RelaxProgress(d, x, nd);
    RelaxSound(g, n, s, d, W, u, x, nd);
    RelaxFixpoint(g, d, q, u, es, i, nd);
    QueuedPush(g, d, q, x, nd);
  }

  /** The effect of relaxing a link to `x` with candidate distance `nd`: when `x` is
      unreached or farther than `nd`, its slot becomes `nd` and `x` is queued;
      otherwise the table and the queue stay as they were. */
  predicate RelaxOutcome(d: seq<int>, d': seq<int>, q: seq<int>, q': seq<int>, x: int, nd: int)
    requires 0 <= x < |d|
  {
    if d[x] == -1 || d[x] > nd then d' == d[x := nd] && q' == q + [x]
    else d' == d && q' == q
  }

  /** The end of a stored link is a vertex, so it has a slot in the table. */
  lemma LinkEnd(g: Adjacency, n: int, u: int, es: seq<Edge>, i: int)
    requires WellFormed(g) && KeysIn(g, n) && u in g && es == g[u] && 0 <= i < |es|
    ensures 1 <= es[i].dest <= n
  {
    LookupAt(es, i);
    NeighbourIsVertex(g, u, es[i].dest);
  }

  /** Relaxing the link `es[i]` of `u`, whichever way it goes, keeps the invariant,
      relaxes one more link of `u`, only sets or lowers distances, queues what it
      changes, and makes progress unless nothing changed. */
  lemma RelaxStep(g: Adjacency, n: int, s: int, d: seq<int>, q: seq<int>, W: map<int, seq<int>>,
                  u: int, es: seq<Edge>, i: int, d': seq<int>, q': seq<int>)
    returns (W': map<int, seq<int>>)
    requires Input(g, n, s) && u in g && es == g[u] && 0 <= i < |es|
    requires Reach(g, n, s, d, q, W) && 0 <= u < |d| && d[u] != -1
    requires FixpointBut(g, d, q, u) && RowDone(g, d, u, es, i)
    requires 0 <= es[i].dest < |d| && RelaxOutcome(d, d', q, q', es[i].dest, d[u] + es[i].w)
    ensures Reach(g, n, s, d', q', W')
    ensures FixpointBut(g, d', q', u) && RowDone(g, d', u, es, i + 1)
    ensures |d'| == |d| && d'[u] == d[u]
    ensures (d' == d && q' == q) || Progress(d, d')
    ensures NoRise(d, d') && ChangesQueued(d, d', q')
  {
    var x := es[i].dest;
    if d[x] == -1 || d[x] > d[u] + es[i].w {
      RelaxUpdate(g, n, s, d, q, W, u, es, i);
      W' := W[x := W[u] + [x]];
    } else {
      RelaxKeep(g, n, s, d, u, es, i);
      W' := W;
    }
  }

  /** Reaching an unreached slot, or lowering a reached one, is progress, and no
      reached slot rises. */
  lemma RelaxProgress(d: seq<int>, x: int, nd: int)
    requires 0 <= x < |d| && nd >= 0 && (d[x] == -1 || d[x] > nd)
    ensures Progress(d, d[x := nd]) && NoRise(d, d[x := nd])
  {
    CountersUpdate(d, x, nd);
  }

  /** Queuing a vertex as it gets a distance keeps every queued vertex reached, and
      the one changed slot is queued. */
  lemma QueuedPush(g: Adjacency, d: seq<int>, q: seq<int>, x: int, nd: int)
    requires Queued(g, d, q) && x in g && 0 <= x < |d| && nd != -1
    ensures Queued(g, d[x := nd], q + [x]) && ChangesQueued(d, d[x := nd], q + [x])
  {
    forall y | y in q + [x]
      ensures y in g && 0 <= y < |d[x := nd]| && d[x := nd][y] != -1
    {
      if y != x {
        assert y in q;
      }
    }
  }

  /** The new entry is backed by the witness of `u` extended by one link. */
  lemma RelaxSound(g: Adjacency, n: int, s: int, d: seq<int>, W: map<int, seq<int>>, u: int, x: int, nd: int)
    requires s in g && u in g && x in g && Contains(g[u], x) && Lookup(g[u], x).value >= 0
    requires Table(n, d) && Sound(g, s, d, W) && FirstHop(g, s, d)
    requires 1 <= u < |d| && d[u] != -1 && nd == d[u] + Lookup(g[u], x).value
    requires 1 <= x < |d| && (d[x] == -1 || d[x] > nd)
    ensures u in W
    ensures var d' := d[x := nd];
      Table(n, d') && Sound(g, s, d', W[x := W[u] + [x]]) && FirstHop(g, s, d')
  {
    // The source's links never improve anything: its neighbours start at their
    // link weight, and the source itself is at distance 0 or more. So `u` has a
    // witness walk.
    assert u in W && WalkFrom(g, s, W[u], u) && WalkLength(g, W[u]) == d[u];
    WalkExtend(g, W[u], x);
    var d' := d[x := nd];
    var W' := W[x := W[u] + [x]];
    assert x == s ==> HasLoop(g, s);
    forall v | 1 <= v < |d'| && d'[v] != -1 && !(v == s && !HasLoop(g, s))
      ensures v in W' && WalkFrom(g, s, W'[v], v) && |W'[v]| >= 2 && WalkLength(g, W'[v]) == d'[v]
    {
      if v != x {
        assert d'[v] == d[v] && W'[v] == W[v];
      }
    }
    forall y | Contains(g[s], y)
      ensures 0 <= y < |d'| && d'[y] != -1 && d'[y] <= Lookup(g[s], y).value
    {
      assert d[y] != -1 && d[y] <= Lookup(g[s], y).value;
    }
  }

  /** Only `x` moved, and it moved down and into the queue: every other link stays
      relaxed, and the link to `x` now is. */
  lemma RelaxFixpoint(g: Adjacency, d: seq<int>, q: seq<int>, u: int, es: seq<Edge>, i: int, nd: int)
    requires u in g && es == g[u] && 0 <= i < |es| && 0 <= u < |d| && d[u] >= 0 && es[i].w >= 0
    requires Lookup(es, es[i].dest) == Some(es[i].w) && nd == d[u] + es[i].w && es[i].dest != u
    requires 0 <= es[i].dest < |d| && (d[es[i].dest] == -1 || d[es[i].dest] > nd)
    requires FixpointBut(g, d, q, u) && RowDone(g, d, u, es, i)
    ensures var x := es[i].dest;
      FixpointBut(g, d[x := nd], q + [x], u) && RowDone(g, d[x := nd], u, es, i + 1)
  {
    var x := es[i].dest;
    var d' := d[x := nd];
    var q' := q + [x];
    assert x in q';
    forall u', x' | u' in g && u' !in q' && u' != u
      ensures Relaxed(g, d', u', x')
    {
      assert Relaxed(g, d, u', x');
    }
    forall k | 0 <= k < i + 1
      ensures Relaxed(g, d', u, es[k].dest)
    {
      if k < i {
        assert Relaxed(g, d, u, es[k].dest);
      }
    }
  }

  /** With the row of `u` finished, the whole graph is at a fixpoint again. */
  lemma CloseRow(g: Adjacency, d: seq<int>, q: seq<int>, u: int, es: seq<Edge>)
    requires WellFormed(g) && u in g && es == g[u]
    requires FixpointBut(g, d, q, u) && RowDone(g, d, u, es, |es|)
    ensures Fixpoint(g, d, q)
  {
    forall u', x | u' in g && u' !in q
      ensures Relaxed(g, d, u', x)
    {
      if u' == u && Contains(g[u], x) {
        var k := LookupIndex(g[u], x);
        assert Relaxed(g, d, u, es[k].dest);
      }
    }
  }

  /** Every walk from the source of at least one link reaches its end, no farther
      than the walk's length, once no vertex is queued. */
  lemma {:induction false} WalkBound(g: Adjacency, n: int, s: int, d: seq<int>, W: map<int, seq<int>>, p: seq<int>)
    requires Input(g, n, s) && Reach(g, n, s, d, [], W) && Fixpoint(g, d, [])
    requires IsWalk(g, p) && p[0] == s && |p| >= 2
    ensures 0 <= p[|p| - 1] < |d| && d[p[|p| - 1]] != -1 && d[p[|p| - 1]] <= WalkLength(g, p)
    decreases |p|
  {
    var p' := p[..|p| - 1];
    var x := p[|p| - 1];
    if |p| == 2 {
      assert p'[..0] == [] && p' == [s];
    } else {
      WalkBound(g, n, s, d, W, p');
      var u := p'[|p'| - 1];
      assert Relaxed(g, d, u, x);
    }
  }

  /** When the queue is empty, the table is the shortest-distance table. */
  lemma FinalIsShortest(g: Adjacency, n: int, s: int, d: seq<int>, W: map<int, seq<int>>)
    requires Input(g, n, s) && Reach(g, n, s, d, [], W) && Fixpoint(g, d, [])
    ensures ShortestFrom(g, s, n, d)
  {
    forall v | 1 <= v < |d| && d[v] != -1 && !(v == s && !HasLoop(g, s))
      ensures exists p :: WalkFrom(g, s, p, v) && |p| >= 2 && WalkLength(g, p) == d[v]
    {
      assert WalkFrom(g, s, W[v], v);
    }
    forall p | IsWalk(g, p) && p[0] == s && |p| >= 2 && 0 <= p[|p| - 1] < |d|
      ensures d[p[|p| - 1]] != -1 && d[p[|p| - 1]] <= WalkLength(g, p)
    {
      WalkBound(g, n, s, d, W, p);
    }
  }

  /** The set-up of `shortestPath`: slot 0 stays 0, every vertex id is -1, the
      source is 0, then each neighbour of the source gets its link weight and is
      queued. */
  method InitialTable(graph: UndirectedGraph, source: int)
    returns (distance: array<int>, q: seq<int>, ghost W: map<int, seq<int>>)
    requires graph.Valid() && source in graph.graph
    requires KeysIn(graph.graph, graph.numberOfVertices) && NonNegative(graph.graph)
    ensures fresh(distance)
    ensures distance.Length == graph.numberOfVertices + 1 && distance[0] == 0
    ensures forall v :: 1 <= v <= graph.numberOfVertices ==> distance[v] == Start(graph.graph[source], source, v)
    ensures forall x :: x in q <==> Contains(graph.graph[source], x)
    ensures Reach(graph.graph, graph.numberOfVertices, source, distance[..], q, W)
    ensures Fixpoint(graph.graph, distance[..], q)
  {
    ghost var g := graph.graph;
    var n := graph.VerticesCount();
    distance := new int[n + 1](_ => 0);
    for i := 1 to n + 1
      invariant distance[0] == 0 && forall v :: 1 <= v < i ==> distance[v] == -1
    {
      distance[i] := -1;
    }
    distance[source] := 0;

    var r := graph.GetNeighbours(source);
    forall k | 0 <= k < |r.value|
      ensures 1 <= r.value[k].dest <= n
    {
      assert r.value[k] == g[source][k];
    }
    q, W := SeedNeighbours(distance, r.value, source, n);
    InitEstablishes(g, n, source, distance[..], q, W);
  }

  /** The second half of the set-up: each link of the source, in list order, sets
      its end's distance to the link's weight and queues that end. */
  method SeedNeighbours(distance: array<int>, edges: seq<Edge>, source: int, n: int)
    returns (q: seq<int>, ghost W: map<int, seq<int>>)
    requires n >= 0 && distance.Length == n + 1 && distance[0] == 0
    requires forall v :: 1 <= v <= n ==> distance[v] == if v == source then 0 else -1
    requires forall k :: 0 <= k < |edges| ==> 1 <= edges[k].dest <= n
    modifies distance
    ensures distance[0] == 0
    ensures forall v :: 1 <= v <= n ==> distance[v] == Start(edges, source, v)
    ensures forall x :: x in q <==> Contains(edges, x)
    ensures forall x :: Contains(edges, x) ==> x in W && W[x] == [source, x]
  {
    q := [];
    W := map[];
    for k := 0 to |edges|
      invariant distance.Length == n + 1 && distance[0] == 0
      invariant forall v :: 1 <= v <= n ==> distance[v] == Start(edges[..k], source, v)
      invariant forall x :: x in q <==> Contains(edges[..k], x)
      invariant forall x :: Contains(edges[..k], x) ==> x in W && W[x] == [source, x]
    {
      var e := edges[k];
      assert edges[..k + 1][..k] == edges[..k];
      distance[e.dest] := e.w;
      q := q + [e.dest];
      W := W[e.dest := [source, e.dest]];
    }
    assert edges[..|edges|] == edges;
  }

  /** One pass of the inner loop of `shortestPath`: the link `adj[i]` of the
      dequeued vertex `u`. When its end is unreached, or farther than through `u`,
      it gets the shorter distance and is queued; otherwise nothing changes. */
  method RelaxLink(graph: UndirectedGraph, distance: array<int>, q: seq<int>, u: int, adj: seq<Edge>, i: int)
    returns (q': seq<int>)
    requires graph.Valid() && KeysIn(graph.graph, graph.numberOfVertices)
    requires u in graph.graph && adj == graph.graph[u] && 0 <= i < |adj|
    requires distance.Length == graph.numberOfVertices + 1
    modifies distance
    ensures 0 <= adj[i].dest < distance.Length && 0 <= u < distance.Length
    ensures RelaxOutcome(old(distance[..]), distance[..], q, q', adj[i].dest, old(distance[u]) + adj[i].w)
  {
    q' := q;
    var cW := adj[i].w;
    var pW := distance[u];
    var newDistance := pW + cW;
    var x := adj[i].dest;
    LinkEnd(graph.graph, graph.numberOfVertices, u, adj, i);
    if distance[x] == -1 {
      distance[x] := newDistance;
      q' := q + [x];
    } else if distance[x] > newDistance {
      distance[x] := newDistance;
      q' := q + [x];
    }
  }

  /** One turn of the main loop of `shortestPath` for the dequeued vertex `u`: every
      link of `u` is relaxed in turn. Afterwards the whole graph is at a fixpoint
      except for queued vertices; unless nothing changed, the search made progress. */
  method ExpandVertex(graph: UndirectedGraph, source: int, distance: array<int>, q: seq<int>,
                      ghost W: map<int, seq<int>>, u: int)
    returns (q': seq<int>, ghost W': map<int, seq<int>>)
    requires graph.Valid() && source in graph.graph
    requires KeysIn(graph.graph, graph.numberOfVertices) && NonNegative(graph.graph)
    requires Reach(graph.graph, graph.numberOfVertices, source, distance[..], q, W)
    requires FixpointBut(graph.graph, distance[..], q, u)
    requires u in graph.graph && 0 <= u < distance.Length && distance[u] != -1
    modifies distance
    ensures Reach(graph.graph, graph.numberOfVertices, source, distance[..], q', W')
    ensures Fixpoint(graph.graph, distance[..], q')
    ensures (distance[..] == old(distance[..]) && q' == q) || Progress(old(distance[..]), distance[..])
    ensures NoRise(old(distance[..]), distance[..]) && ChangesQueued(old(distance[..]), distance[..], q')
  {
    ghost var d0 := distance[..];
    q', W' := q, W;
    var rs := graph.GetNeighbours(u);
    var adj := rs.value;
    for i := 0 to |adj|
      invariant Reach(graph.graph, graph.numberOfVertices, source, distance[..], q', W')
      invariant FixpointBut(graph.graph, distance[..], q', u) && RowDone(graph.graph, distance[..], u, adj, i)
      invariant distance[u] == d0[u]
      invariant (distance[..] == d0 && q' == q) || Progress(d0, distance[..])
      invariant NoRise(d0, distance[..]) && ChangesQueued(d0, distance[..], q')
    {
      ghost var d1, q1 := distance[..], q';
      q' := RelaxLink(graph, distance, q', u, adj, i);
      W' := RelaxStep(graph.graph, graph.numberOfVertices, source, d1, q1, W', u, adj, i, distance[..], q');
      NoRiseChain(d0, d1, distance[..], q1, q');
      ProgressChain(d0, d1, distance[..], q, q1, q');
    }
    CloseRow(graph.graph, distance[..], q', u, adj);
  }

  /** `poll`: some queued vertex leaves the queue. Which one is left open, so the
      results hold for every serving order, the edge-weight order included. */
  method Poll(q: seq<int>) returns (u: int, rest: seq<int>)
    requires q != []
    ensures u in q && |rest| == |q| - 1
    ensures forall x :: x in rest ==> x in q
    ensures forall x :: x in q && x != u ==> x in rest
    ensures multiset(rest) == multiset(q) - multiset{u}
  {
    var k :| 0 <= k < |q|;
    u := q[k];
    rest := q[..k] + q[k + 1..];
    assert q == q[..k] + [q[k]] + q[k + 1..];
    forall x | x in q && x != u
      ensures x in rest
    {
      var j :| 0 <= j < |q| && q[j] == x;
      if j < k {
        assert rest[j] == x;
      } else {
        assert rest[j - 1] == x;
      }
    }
  }

  /** `shortestPath(graph, source)`: the distance table, -1 for unreached vertices. */
  method ShortestPath(graph: UndirectedGraph, source: int) returns (distance: array<int>)
    requires graph.Valid() && source in graph.graph
    requires KeysIn(graph.graph, graph.numberOfVertices) && NonNegative(graph.graph)
    ensures ShortestFrom(graph.graph, source, graph.numberOfVertices, distance[..])
  {
    var q;
    ghost var W;
    distance, q, W := InitialTable(graph, source);
    while q != []
      invariant Reach(graph.graph, graph.numberOfVertices, source, distance[..], q, W)
      invariant Fixpoint(graph.graph, distance[..], q)
      decreases Unreached(distance[..]), ReachedSum(distance[..]), |q|
    {
      var u;
      u, q := Poll(q);
      q, W := ExpandVertex(graph, source, distance, q, W, u);
    }
    FinalIsShortest(graph.graph, graph.numberOfVertices, source, distance[..], W);
  }
}
