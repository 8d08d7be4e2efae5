/** Sums over finite sets and sequences, used by every counting specification. */
module Sums {

  /** Some element of a non-empty set; the choice is arbitrary but fixed. */
  ghost function Pick<T>(s: set<T>): (x: T)
    requires s != {}
    ensures x in s
  {
    var x :| x in s; x
  }

  /** Some element of a non-empty set, as an iteration over the set takes it next. */
  method Choose<T>(s: set<T>) returns (x: T)
    requires s != {}
    ensures x in s
  {
    ghost var y := Pick(s);
    x :| x in s;
  }

  /** The sum of `f` over the elements of `s`. */
  ghost function SumOver<T>(s: set<T>, f: T -> int): int
    decreases s
  {
    if s == {} then 0 else var x := Pick(s); f(x) + SumOver(s - {x}, f)
  }

  /** The same sum with real values. */
  ghost function SumOverReal<T>(s: set<T>, f: T -> real): real
    decreases s
  {
    if s == {} then 0.0 else var x := Pick(s); f(x) + SumOverReal(s - {x}, f)
  }

  /** Any element can be taken out first: the sum does not depend on the order. */
  lemma {:induction false} SumOverRemove<T>(s: set<T>, f: T -> int, y: T)
    requires y in s
    ensures SumOver(s, f) == f(y) + SumOver(s - {y}, f)
    decreases s
  {
    var x := Pick(s);
    if x != y {
      calc {
        SumOver(s, f);
        f(x) + SumOver(s - {x}, f);
        { SumOverRemove(s - {x}, f, y); }
        f(x) + f(y) + SumOver(s - {x} - {y}, f);
        { assert s - {x} - {y} == s - {y} - {x}; SumOverRemove(s - {y}, f, x); }
        f(y) + SumOver(s - {y}, f);
      }
    }
  }

  /** Adding a fresh element adds its value. */
  lemma SumOverInsert<T>(s: set<T>, f: T -> int, y: T)
    requires y !in s
    ensures SumOver(s + {y}, f) == SumOver(s, f) + f(y)
  {
    SumOverRemove(s + {y}, f, y);
    assert s + {y} - {y} == s;
  }

  /** Two functions that agree on `s` have the same sum over `s`. */
  lemma {:induction false} SumOverExt<T>(s: set<T>, f: T -> int, g: T -> int)
    requires forall x :: x in s ==> f(x) == g(x)
    ensures SumOver(s, f) == SumOver(s, g)
    decreases s
  {
    if s != {} {
      SumOverExt(s - {Pick(s)}, f, g);
    }
  }

  /** Changing the value at one element changes the sum by the difference. */
  lemma SumOverUpdate<T>(s: set<T>, f: T -> int, g: T -> int, y: T)
    requires y in s
    requires forall x :: x in s && x != y ==> f(x) == g(x)
    ensures SumOver(s, g) == SumOver(s, f) - f(y) + g(y)
  {
    SumOverRemove(s, f, y);
    SumOverRemove(s, g, y);
    SumOverExt(s - {y}, f, g);
  }

  /** A function that is zero on `s` sums to zero. */
  lemma {:induction false} SumOverZero<T>(s: set<T>, f: T -> int)
    requires forall x :: x in s ==> f(x) == 0
    ensures SumOver(s, f) == 0
    decreases s
  {
    if s != {} {
      SumOverZero(s - {Pick(s)}, f);
    }
  }

  /** Dividing every term by `c` divides the sum by `c`. */
  lemma {:induction false} SumOverScaled<T>(s: set<T>, f: T -> int, h: T -> real, c: real)
    requires c != 0.0
    requires forall x :: x in s ==> h(x) == f(x) as real / c
    ensures SumOverReal(s, h) == SumOver(s, f) as real / c
    decreases s
  {
    if s != {} {
      var x := Pick(s);
      SumOverScaled(s - {x}, f, h, c);
      DivAdd(f(x) as real, SumOver(s - {x}, f) as real, c);
    }
  }

  /** Division distributes over a sum. */
  lemma DivAdd(a: real, b: real, c: real)
    requires c != 0.0
    ensures a / c + b / c == (a + b) / c
  {
  }

  /** The sum of `f` over a sequence, from the front to the back. */
  function SumSeq<T>(xs: seq<T>, f: T -> int): int
  {
    if xs == [] then 0 else SumSeq(xs[..|xs| - 1], f) + f(xs[|xs| - 1])
  }

  /** The same sum with real values. */
  function SumSeqReal<T>(xs: seq<T>, f: T -> real): real
  {
    if xs == [] then 0.0 else SumSeqReal(xs[..|xs| - 1], f) + f(xs[|xs| - 1])
  }

  /** Appending one term adds its value. */
  lemma SumSeqStep<T>(xs: seq<T>, x: T, f: T -> int)
    ensures SumSeq(xs + [x], f) == SumSeq(xs, f) + f(x)
  {
    assert (xs + [x])[..|xs|] == xs;
  }

  /** The same with real values. */
  lemma SumSeqRealStep<T>(xs: seq<T>, x: T, f: T -> real)
    ensures SumSeqReal(xs + [x], f) == SumSeqReal(xs, f) + f(x)
  {
    assert (xs + [x])[..|xs|] == xs;
  }

  /** No element occurs twice. */
  predicate Distinct<T(==)>(xs: seq<T>)
  {
    forall i, j :: 0 <= i < j < |xs| ==> xs[i] != xs[j]
  }

  /** Summing over a list without repetitions is summing over the set of its elements. */
  lemma {:induction false} SumSeqIsSumOver<T>(xs: seq<T>, f: T -> int)
    requires Distinct(xs)
    ensures SumSeq(xs, f) == SumOver((set x | x in xs), f)
    decreases |xs|
  {
    if xs != [] {
      var ys, z := xs[..|xs| - 1], xs[|xs| - 1];
      DistinctLast(xs);
      SumSeqIsSumOver(ys, f);
      SumOverInsert((set x | x in ys), f, z);
    }
  }

  /** Taking off the last element of a list without repetitions leaves a list
      without repetitions and without that element. */
  lemma DistinctLast<T>(xs: seq<T>)
    requires Distinct(xs) && xs != []
    ensures var ys, z := xs[..|xs| - 1], xs[|xs| - 1];
      Distinct(ys) && z !in ys && (set x | x in xs) == (set x | x in ys) + {z}
  {
    var ys, z := xs[..|xs| - 1], xs[|xs| - 1];
    assert xs == ys + [z];
    forall i | 0 <= i < |ys|
      ensures ys[i] != z
    {
      assert ys[i] == xs[i];
    }
  }

  /** A real sum of terms in [lo, hi] lies between |xs|*lo and |xs|*hi. */
  lemma {:induction false} SumSeqRealBounds<T>(xs: seq<T>, f: T -> real, lo: real, hi: real)
    requires forall x :: x in xs ==> lo <= f(x) <= hi
    ensures |xs| as real * lo <= SumSeqReal(xs, f) <= |xs| as real * hi
    decreases |xs|
  {
    if xs != [] {
      SumSeqRealBounds(xs[..|xs| - 1], f, lo, hi);
      assert xs[|xs| - 1] in xs;
    }
  }

  lemma {:induction false} SumOverRealRemove<T>(s: set<T>, f: T -> real, y: T)
    requires y in s
    ensures SumOverReal(s, f) == f(y) + SumOverReal(s - {y}, f)
    decreases s
  {
    var x := Pick(s);
    if x != y {
      calc {
        SumOverReal(s, f);
        f(x) + SumOverReal(s - {x}, f);
        { SumOverRealRemove(s - {x}, f, y); }
        f(x) + f(y) + SumOverReal(s - {x} - {y}, f);
        { assert s - {x} - {y} == s - {y} - {x}; SumOverRealRemove(s - {y}, f, x); }
        f(y) + SumOverReal(s - {y}, f);
      }
    }
  }

  /** Summing reals over a list without repetitions is summing over its elements. */
  lemma {:induction false} SumSeqRealIsSumOverReal<T>(xs: seq<T>, f: T -> real)
    requires Distinct(xs)
    ensures SumSeqReal(xs, f) == SumOverReal((set x | x in xs), f)
    decreases |xs|
  {
    if xs != [] {
      var ys, z := xs[..|xs| - 1], xs[|xs| - 1];
      DistinctLast(xs);
      SumSeqRealIsSumOverReal(ys, f);
      var s := (set x | x in ys);
      SumOverRealRemove(s + {z}, f, z);
      assert s + {z} - {z} == s;
    }
  }

  /** A list without repetitions has as many elements as its set. */
  lemma {:induction false} DistinctCard<T>(xs: seq<T>)
    requires Distinct(xs)
    ensures |(set x | x in xs)| == |xs|
    decreases |xs|
  {
    if xs != [] {
      var ys, z := xs[..|xs| - 1], xs[|xs| - 1];
      DistinctLast(xs);
      DistinctCard(ys);
    }
  }

  /** Two functions that agree on the list have the same sum over it. */
  lemma {:induction false} SumSeqExt<T>(xs: seq<T>, f: T -> int, g: T -> int)
    requires forall x :: x in xs ==> f(x) == g(x)
    ensures SumSeq(xs, f) == SumSeq(xs, g)
    decreases |xs|
  {
    if xs != [] {
      SumSeqExt(xs[..|xs| - 1], f, g);
      assert xs[|xs| - 1] in xs;
    }
  }

  /** A sum of non-negative terms is non-negative. */
  lemma {:induction false} SumOverNonNegative<T>(s: set<T>, f: T -> int)
    requires forall x :: x in s ==> f(x) >= 0
    ensures SumOver(s, f) >= 0
    decreases s
  {
    if s != {} {
      var x := Pick(s);
      SumOverNonNegative(s - {x}, f);
    }
  }

  /** `new ArrayList<>(s)`: the elements of a set, each once, in iteration order. */
  method ListOf<T(==)>(s: set<T>) returns (xs: seq<T>)
    ensures Distinct(xs) && |xs| == |s|
    ensures forall x :: x in xs <==> x in s
  {
    xs := [];
    var rest := s;
    while rest != {}
      invariant Distinct(xs) && |xs| + |rest| == |s|
      invariant forall x :: x in xs ==> x in s && x !in rest
      invariant forall x :: x in s ==> x in xs || x in rest
      invariant rest <= s
      decreases rest
    {
      var x := Choose(rest);
      xs := xs + [x];
      rest := rest - {x};
    }
  }

  /** A pointwise smaller function has a smaller sum. */
  lemma {:induction false} SumOverMono<T>(s: set<T>, f: T -> int, g: T -> int)
    requires forall x :: x in s ==> f(x) <= g(x)
    ensures SumOver(s, f) <= SumOver(s, g)
    decreases s
  {
    if s != {} {
      var x := Pick(s);
      SumOverMono(s - {x}, f, g);
    }
  }

  /** Sums of a termwise sum add up. */
  lemma {:induction false} SumOverAdd<T>(s: set<T>, f: T -> int, g: T -> int, h: T -> int)
    requires forall x :: x in s ==> f(x) == g(x) + h(x)
    ensures SumOver(s, f) == SumOver(s, g) + SumOver(s, h)
    decreases s
  {
    if s != {} {
      var x := Pick(s);
      SumOverAdd(s - {x}, f, g, h);
    }
  }

  /** 1 on the elements of `t`, 0 elsewhere. */
  function Indicator<T(==)>(t: set<T>): T -> int
  {
    x => if x in t then 1 else 0
  }

  /** Counting the elements of `t` one by one over a larger set gives |t|. */
  lemma {:induction false} SumOverIndicator<T>(s: set<T>, t: set<T>)
    requires t <= s
    ensures SumOver(s, Indicator(t)) == |t|
    decreases s
  {
    if s != {} {
      var x := Pick(s);
      SumOverIndicator(s - {x}, t - {x});
      SumOverExt(s - {x}, Indicator(t), Indicator(t - {x}));
      if x in t {
        assert t == (t - {x}) + {x};
      } else {
        assert t - {x} == t;
      }
    }
  }
}
