/** The weighted edge record of the weighted graph, and the edge "set" each
    vertex keeps: an insertion-ordered set whose element identity is the
    destination alone. */
module Edges {
  import opened Exceptions

  /** An edge as stored in the adjacency set of its other endpoint. */
  datatype Edge = Edge(dest: int, w: int)

  /** `setDest`: a copy of `e` with a new destination. */
  function SetDest(e: Edge, dest: int): (r: Edge)
    ensures r.dest == dest && r.w == e.w
  {
    e.(dest := dest)
  }

  /** `setW`: a copy of `e` with a new weight. */
  function SetW(e: Edge, w: int): (r: Edge)
    ensures r.w == w && r.dest == e.dest
  {
    e.(w := w)
  }

  /** `equals`: two edges are equal when their destinations are. */
  predicate Equals(a: Edge, b: Edge)
  {
    a.dest == b.dest
  }

  /** Java's `int` arithmetic: wrap an integer into the 32-bit two's-complement range. */
  function Wrap32(x: int): (r: int)
    ensures -0x8000_0000 <= r < 0x8000_0000
    ensures (r - x) % 0x1_0000_0000 == 0
  {
    (x + 0x8000_0000) % 0x1_0000_0000 - 0x8000_0000
  }

  /** `hashCode`: `Objects.hash(dest)`, that is `31 * 1 + dest` in 32-bit arithmetic,
      for an `Integer` destination (whose own hash code is its value). */
  function HashCode(e: Edge): int
  {
    Wrap32(31 + e.dest)
  }

  /** The getters return what the constructor stored. */
  lemma ConstructorGetters(dest: int, w: int)
    ensures Edge(dest, w).dest == dest && Edge(dest, w).w == w
  {
  }

  /** Equality ignores the weight, and is an equivalence. */
  lemma EqualsIgnoresWeight(a: Edge, b: Edge, w: int)
    ensures Equals(a, b) <==> Equals(SetW(a, w), b)
    ensures Equals(a, a)
    ensures Equals(a, b) ==> Equals(b, a)
  {
  }

  /** The hash code is consistent with equality. */
  lemma HashConsistent(a: Edge, b: Edge)
    requires Equals(a, b)
    ensures HashCode(a) == HashCode(b)
  {
  }

  // ---------------------------------------------------------------------------
  // An adjacency set: a `LinkedHashSet<Edge>`, i.e. edges in insertion order,
  // no two with the same destination.

  /** No two edges share a destination. */
  predicate DistinctDests(s: seq<Edge>)
  {
    forall i, j :: 0 <= i < j < |s| ==> s[i].dest != s[j].dest
  }

  /** The weight stored with destination `v`, if any. */
  function Lookup(s: seq<Edge>, v: int): Option<int>
  {
    if s == [] then None
    else if s[|s| - 1].dest == v then Some(s[|s| - 1].w)
    else Lookup(s[..|s| - 1], v)
  }

  /** `contains`: some edge of `s` equals an edge to `v`. */
  predicate Contains(s: seq<Edge>, v: int)
  {
    Lookup(s, v).Some?
  }

  /** An edge stored at index `i` is what `Lookup` finds for its destination. */
  lemma {:induction false} LookupAt(s: seq<Edge>, i: int)
    requires DistinctDests(s) && 0 <= i < |s|
    ensures Lookup(s, s[i].dest) == Some(s[i].w)
    decreases |s|
  {
    if i < |s| - 1 {
      LookupAt(s[..|s| - 1], i);
    }
  }

  /** What `Lookup` finds is stored at some index. */
  lemma {:induction false} LookupIndex(s: seq<Edge>, v: int) returns (i: int)
    requires Contains(s, v)
    ensures 0 <= i < |s| && s[i] == Edge(v, Lookup(s, v).value)
    decreases |s|
  {
    if s[|s| - 1].dest == v {
      i := |s| - 1;
    } else {
      i := LookupIndex(s[..|s| - 1], v);
    }
  }

  /** A destination found by `Lookup` is one of the stored destinations, and conversely. */
  lemma ContainsIff(s: seq<Edge>, v: int)
    requires DistinctDests(s)
    ensures Contains(s, v) <==> exists i :: 0 <= i < |s| && s[i].dest == v
  {
    if Contains(s, v) {
      var i := LookupIndex(s, v);
    }
    if exists i :: 0 <= i < |s| && s[i].dest == v {
      var i :| 0 <= i < |s| && s[i].dest == v;
      LookupAt(s, i);
    }
  }

  /** `add`: insert `e` unless an equal edge (same destination) is already present;
      the flag says whether the set changed. */
  function Add(s: seq<Edge>, e: Edge): (r: (seq<Edge>, bool))
    requires DistinctDests(s)
    ensures DistinctDests(r.0)
    ensures r.1 <==> !Contains(s, e.dest)
    ensures Lookup(r.0, e.dest) == if r.1 then Some(e.w) else Lookup(s, e.dest)
    ensures forall v :: v != e.dest ==> Lookup(r.0, v) == Lookup(s, v)
    ensures |r.0| == |s| + (if r.1 then 1 else 0)
    ensures r.0 == if r.1 then s + [e] else s
  {
    if Contains(s, e.dest) then (s, false)
    else
      ContainsIff(s, e.dest);
      assert (s + [e])[..|s|] == s;
      (s + [e], true)
  }

  /** Adding an edge whose destination is already present changes nothing, whatever its weight. */
  lemma AddPresentIsNoop(s: seq<Edge>, v: int, w: int)
    requires DistinctDests(s) && Contains(s, v)
    ensures Add(s, Edge(v, w)) == (s, false)
  {
  }

  /** The sum of the weights of the edges, as `strength` accumulates it. */
  function SumWeights(s: seq<Edge>): int
  {
    if s == [] then 0 else SumWeights(s[..|s| - 1]) + s[|s| - 1].w
  }

  /** With every weight in [lo, hi], the weight sum lies in [|s|*lo, |s|*hi]. */
  lemma {:induction false} SumWeightsBounds(s: seq<Edge>, lo: int, hi: int)
    requires forall i :: 0 <= i < |s| ==> lo <= s[i].w <= hi
    ensures |s| * lo <= SumWeights(s) <= |s| * hi
    decreases |s|
  {
    if s != [] {
      SumWeightsBounds(s[..|s| - 1], lo, hi);
    }
  }
}
