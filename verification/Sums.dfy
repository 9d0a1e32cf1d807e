/** Finite sums over sequences, and when two of them agree. */
module Sums {

  /** The sum of `g` over `s`, last element last, as a loop over `s` accumulates it. */
  function Sum<T>(s: seq<T>, g: T -> int): int {
    if s == [] then 0 else Sum(s[..|s| - 1], g) + g(s[|s| - 1])
  }

  function RealSum<T>(s: seq<T>, g: T -> real): real {
    if s == [] then 0.0 else RealSum(s[..|s| - 1], g) + g(s[|s| - 1])
  }

  lemma SumSnoc<T>(s: seq<T>, x: T, g: T -> int)
    ensures Sum(s + [x], g) == Sum(s, g) + g(x)
  {
    assert (s + [x])[..|s|] == s;
  }

  lemma RealSumSnoc<T>(s: seq<T>, x: T, g: T -> real)
    ensures RealSum(s + [x], g) == RealSum(s, g) + g(x)
  {
    assert (s + [x])[..|s|] == s;
  }

  lemma {:induction false} SumConcat<T>(s: seq<T>, t: seq<T>, g: T -> int)
    ensures Sum(s + t, g) == Sum(s, g) + Sum(t, g)
  {
    if t == [] {
      assert s + t == s;
    } else {
      assert (s + t)[..|s + t| - 1] == s + t[..|t| - 1];
      SumConcat(s, t[..|t| - 1], g);
    }
  }

  function Without<T>(t: seq<T>, j: nat): seq<T>
    requires j < |t|
  {
    t[..j] + t[j + 1..]
  }

  lemma SumWithout<T>(t: seq<T>, j: nat, g: T -> int)
    requires j < |t|
    ensures Sum(t, g) == Sum(Without(t, j), g) + g(t[j])
  {
    hide Sum;
    assert t == (t[..j] + [t[j]]) + t[j + 1..];
    SumConcat(t[..j] + [t[j]], t[j + 1..], g);
    SumSnoc(t[..j], t[j], g);
    SumConcat(t[..j], t[j + 1..], g);
  }

  lemma MultisetWithout<T>(t: seq<T>, j: nat)
    requires j < |t|
    ensures multiset(Without(t, j)) == multiset(t) - multiset{t[j]}
  {
    assert t == t[..j] + [t[j]] + t[j + 1..];
    assert multiset(t) == multiset(t[..j]) + multiset{t[j]} + multiset(t[j + 1..]);
  }

  /** A sum does not depend on the order of its terms. */
  lemma {:induction false} SumPermutes<T>(s: seq<T>, t: seq<T>, g: T -> int)
    requires multiset(s) == multiset(t)
    ensures Sum(s, g) == Sum(t, g)
    decreases |s|
  {
    assert |s| == |multiset(s)| == |multiset(t)| == |t|;
    if s != [] {
      var n := |s| - 1;
      assert s[n] in multiset(t);
      var j :| 0 <= j < |t| && t[j] == s[n];
      SumWithout(t, j, g);
      MultisetWithout(t, j);
      MultisetWithout(s, n);
      assert Without(s, n) == s[..n];
      SumPermutes(s[..n], Without(t, j), g);
    }
  }

  lemma {:induction false} SumAgrees<T>(s: seq<T>, g: T -> int, h: T -> int)
    requires forall i | 0 <= i < |s| :: g(s[i]) == h(s[i])
    ensures Sum(s, g) == Sum(s, h)
  {
    if s != [] {
      SumAgrees(s[..|s| - 1], g, h);
    }
  }

  lemma {:induction false} SumBounds<T>(s: seq<T>, g: T -> int, low: int, high: int)
    requires forall i | 0 <= i < |s| :: low <= g(s[i]) <= high
    ensures |s| * low <= Sum(s, g) <= |s| * high
  {
    if s != [] {
      var n := |s| - 1;
      SumBounds(s[..n], g, low, high);
      assert |s| * low == n * low + low && |s| * high == n * high + high;
    }
  }

  /** Two sums over `s` whose terms differ only at `j`. */
  lemma {:induction false} SumOneChange<T>(s: seq<T>, g: T -> int, h: T -> int, j: nat)
    requires j < |s| && forall i | 0 <= i < |s| && i != j :: g(s[i]) == h(s[i])
    ensures Sum(s, h) == Sum(s, g) + h(s[j]) - g(s[j])
  {
    var n := |s| - 1;
    if j == n {
      SumAgrees(s[..n], g, h);
    } else {
      SumOneChange(s[..n], g, h, j);
    }
  }

  lemma {:induction false} SumBelowMultiple<T>(s: seq<T>, g: T -> int, h: T -> int, factor: int)
    requires forall i | 0 <= i < |s| :: 0 <= g(s[i]) <= factor * h(s[i])
    ensures 0 <= Sum(s, g) <= factor * Sum(s, h)
  {
    if s != [] {
      var n := |s| - 1;
      SumBelowMultiple(s[..n], g, h, factor);
      assert factor * (Sum(s[..n], h) + h(s[n])) == factor * Sum(s[..n], h) + factor * h(s[n]);
    }
  }

  /** A real sum whose terms are integer terms times one factor. */
  lemma {:induction false} RealSumScales<T>(s: seq<T>, h: T -> real, g: T -> int, factor: real)
    requires forall i | 0 <= i < |s| :: h(s[i]) == factor * g(s[i]) as real
    ensures RealSum(s, h) == factor * Sum(s, g) as real
  {
    if s != [] {
      var n := |s| - 1;
      RealSumScales(s[..n], h, g, factor);
      var a, b := Sum(s[..n], g) as real, g(s[n]) as real;
      assert factor * (a + b) == factor * a + factor * b;
    }
  }

  // ----- Sums over an index range -----

  function RangeSum(n: nat, g: nat -> int): int {
    if n == 0 then 0 else RangeSum(n - 1, g) + g(n - 1)
  }

  function RangeRealSum(n: nat, g: nat -> real): real {
    if n == 0 then 0.0 else RangeRealSum(n - 1, g) + g(n - 1)
  }

  /** Two ranges of terms that differ only at `j`. */
  lemma {:induction false} RangeSumOneChange(n: nat, g: nat -> int, h: nat -> int, j: nat)
    requires forall k: nat | k < n && k != j :: g(k) == h(k)
    ensures RangeSum(n, h) == RangeSum(n, g) + (if j < n then h(j) - g(j) else 0)
  {
    if n > 0 {
      RangeSumOneChange(n - 1, g, h, j);
    }
  }

  lemma {:induction false} RangeRealSumScales(n: nat, h: nat -> real, g: nat -> int, factor: real)
    requires forall k: nat | k < n :: h(k) == factor * g(k) as real
    ensures RangeRealSum(n, h) == factor * RangeSum(n, g) as real
  {
    if n > 0 {
      RangeRealSumScales(n - 1, h, g, factor);
      var a, b := RangeSum(n - 1, g) as real, g(n - 1) as real;
      assert factor * (a + b) == factor * a + factor * b;
    }
  }

  // ----- Sequences without repetition -----

  predicate Distinct<T(==)>(s: seq<T>) { forall i, j | 0 <= i < j < |s| :: s[i] != s[j] }

  lemma {:induction false} DistinctCounts<T>(s: seq<T>, x: T)
    requires Distinct(s)
    ensures multiset(s)[x] == if x in s then 1 else 0
  {
    if s != [] {
      var n := |s| - 1;
      assert s == s[..n] + [s[n]];
      DistinctCounts(s[..n], x);
    }
  }

  lemma SameElementsPermute<T>(s: seq<T>, t: seq<T>)
    requires Distinct(s) && Distinct(t) && forall x :: x in s <==> x in t
    ensures multiset(s) == multiset(t)
  {
    forall x ensures multiset(s)[x] == multiset(t)[x] {
      DistinctCounts(s, x);
      DistinctCounts(t, x);
    }
  }

  function Elements<T>(s: seq<T>): set<T> { set x | x in s }

  lemma {:induction false} DistinctSize<T>(s: seq<T>)
    ensures |Elements(s)| <= |s|
    ensures |Elements(s)| == |s| <==> Distinct(s)
  {
    if s != [] {
      var n := |s| - 1;
      DistinctSize(s[..n]);
      assert s == s[..n] + [s[n]];
      assert Elements(s) == Elements(s[..n]) + {s[n]};
    }
  }

  lemma SameSizeSubset<T>(a: set<T>, b: set<T>)
    requires a <= b && |a| == |b|
    ensures a == b
  {
    assert |b - a| == 0;
  }

  // ----- Flattening, mapping and filtering -----

  function Concat<T>(xs: seq<seq<T>>): seq<T> {
    if xs == [] then [] else Concat(xs[..|xs| - 1]) + xs[|xs| - 1]
  }

  function Map<S, T>(s: seq<S>, f: S -> T): (t: seq<T>)
    ensures |t| == |s| && forall i | 0 <= i < |s| :: t[i] == f(s[i])
  {
    if s == [] then [] else Map(s[..|s| - 1], f) + [f(s[|s| - 1])]
  }

  function Filter<T>(s: seq<T>, p: T -> bool): seq<T> {
    if s == [] then [] else
      Filter(s[..|s| - 1], p) + if p(s[|s| - 1]) then [s[|s| - 1]] else []
  }

  lemma {:induction false} FilterCounts<T>(s: seq<T>, p: T -> bool, x: T)
    ensures multiset(Filter(s, p))[x] == if p(x) then multiset(s)[x] else 0
  {
    if s != [] {
      var n := |s| - 1;
      assert s == s[..n] + [s[n]];
      FilterCounts(s[..n], p, x);
    }
  }

  lemma SameCounts<T>(s: seq<T>, t: seq<T>)
    requires forall x :: multiset(s)[x] == multiset(t)[x]
    ensures multiset(s) == multiset(t)
  {
  }

  lemma FilterPermutes<T>(s: seq<T>, t: seq<T>, p: T -> bool)
    requires multiset(s) == multiset(t)
    ensures multiset(Filter(s, p)) == multiset(Filter(t, p))
  {
    forall x: T ensures multiset(Filter(s, p))[x] == multiset(Filter(t, p))[x] {
      FilterCounts(s, p, x);
      FilterCounts(t, p, x);
    }
    SameCounts(Filter(s, p), Filter(t, p));
  }

  lemma MapSnoc<S, T>(s: seq<S>, x: S, f: S -> T)
    ensures Map(s + [x], f) == Map(s, f) + [f(x)]
  {
  }

  lemma MapConcat<S, T>(s: seq<S>, t: seq<S>, f: S -> T)
    ensures Map(s + t, f) == Map(s, f) + Map(t, f)
  {
    hide Map;
  }

  lemma MapBetween<S, T>(a: seq<S>, x: S, b: seq<S>, f: S -> T)
    ensures multiset(Map(a + [x] + b, f)) == multiset(Map(a + b, f)) + multiset{f(x)}
  {
    assert Map([x], f) == [f(x)];
    hide Map;
    MapConcat(a + [x], b, f);
    MapConcat(a, [x], f);
    MapConcat(a, b, f);
    assert Map(a + [x] + b, f) == Map(a, f) + [f(x)] + Map(b, f);
  }

  lemma MapWithout<S, T>(t: seq<S>, j: nat, f: S -> T)
    requires j < |t|
    ensures multiset(Map(t, f)) == multiset(Map(Without(t, j), f)) + multiset{f(t[j])}
    ensures |Without(t, j)| == |t| - 1
  {
    hide Map;
    assert t == t[..j] + [t[j]] + t[j + 1..];
    MapBetween(t[..j], t[j], t[j + 1..], f);
  }

  lemma {:induction false} MapPermutes<S, T>(s: seq<S>, t: seq<S>, f: S -> T)
    requires multiset(s) == multiset(t)
    ensures multiset(Map(s, f)) == multiset(Map(t, f))
    decreases |s|
  {
    hide Map, Without;
    assert |s| == |multiset(s)| == |multiset(t)| == |t|;
    if s != [] {
      var n := |s| - 1;
      assert s[n] in multiset(t);
      var j :| 0 <= j < |t| && t[j] == s[n];
      MultisetWithout(t, j);
      MultisetWithout(s, n);
      MapWithout(t, j, f);
      MapWithout(s, n, f);
      MapPermutes(Without(s, n), Without(t, j), f);
    }
  }

  // ----- Counting -----

  /** The places of `s` at which `p` holds. */
  function Places<T>(s: seq<T>, p: T -> bool): set<nat> { set i: nat | i < |s| && p(s[i]) }

  lemma PlacesStep<T>(s: seq<T>, p: T -> bool)
    requires s != []
    ensures |Places(s, p)| == |Places(s[..|s| - 1], p)| + if p(s[|s| - 1]) then 1 else 0
  {
    var n := |s| - 1;
    assert Places(s, p) == Places(s[..n], p) + if p(s[n]) then {n} else {};
  }

  /** A sum of zeros and ones counts. */
  lemma {:induction false} SumCounts<T>(s: seq<T>, g: T -> int, p: T -> bool)
    requires forall i | 0 <= i < |s| :: g(s[i]) == if p(s[i]) then 1 else 0
    ensures Sum(s, g) == |Places(s, p)|
  {
    if s != [] {
      hide Places;
      SumCounts(s[..|s| - 1], g, p);
      PlacesStep(s, p);
    } else {
      assert Places(s, p) == {};
    }
  }
}
