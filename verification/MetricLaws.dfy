/** Laws of the metrics, for every list of records: the calibration error against the Brier score,
    the population baseline against persistence, the cost of the intermediate floor in the personal
    baseline, the published range of each value, what reordering the records leaves alone, and what
    the bins and the entity groups conserve. */
module MetricLaws {
  import opened Cbor
  import opened MetricInputs
  import opened Metrics
  import opened Rounding
  import opened Sums

  lemma RatioRange(a: real, b: real, low: real, high: real)
    requires b > 0.0 && low * b <= a <= high * b
    ensures low <= a / b <= high
  {
    assert (a / b) * b == a;
  }

  // ----- Calibration error against the Brier score -----

  function AbsError(r: Rec): int { Abs(Error(r)) }

  lemma DeviationStep(s: seq<Rec>, k: nat)
    requires s != []
    ensures var (before, r) := (s[..|s| - 1], s[|s| - 1]);
      if BinOf(r.probability) == k then Deviation(s, k) <= Deviation(before, k) + AbsError(r)
      else Deviation(s, k) == Deviation(before, k)
  {
    hide BinOf, BinSum, BinPositives;
    BinStep(s, k);
  }

  lemma {:induction false} DeviationsBelowErrors(s: seq<Rec>)
    ensures 0 <= Deviations(s) <= Sum(s, AbsError)
  {
    hide Deviation, AbsError, BinOf;
    if s == [] {
      forall k: nat | k < BIN_COUNT ensures Deviation([], k) == 0 { EmptyDeviation(k); }
      RangeSumOneChange(BIN_COUNT, (k: nat) => 0, (k: nat) => Deviation(s, k), BIN_COUNT);
      ZeroRange(BIN_COUNT);
    } else {
      var before, r := s[..|s| - 1], s[|s| - 1];
      DeviationsBelowErrors(before);
      var j := BinOf(r.probability);
      forall k: nat | k < BIN_COUNT && k != j ensures Deviation(before, k) == Deviation(s, k) { DeviationStep(s, k); }
      RangeSumOneChange(BIN_COUNT, (k: nat) => Deviation(before, k), (k: nat) => Deviation(s, k), j);
      BinInRange(r.probability);
      DeviationStep(s, j);
      DeviationsNonnegative(s, BIN_COUNT);
    }
  }

  lemma EmptyDeviation(k: nat)
    ensures Deviation([], k) == 0
  {
    EmptySums(k);
  }

  lemma BinInRange(p: nat)
    ensures BinOf(p) < BIN_COUNT
  {
  }

  lemma {:induction false} ZeroRange(n: nat)
    ensures RangeSum(n, (k: nat) => 0) == 0
  {
    if n > 0 {
      ZeroRange(n - 1);
    }
  }

  lemma {:induction false} DeviationsNonnegative(s: seq<Rec>, n: nat)
    ensures RangeSum(n, (k: nat) => Deviation(s, k)) >= 0
  {
    if n > 0 {
      DeviationsNonnegative(s, n - 1);
    }
  }

  lemma FactorNonnegative(n: int, x: int)
    requires n > 0 && n * x >= 0
    ensures x >= 0
  {
  }

  lemma SquareOfGap(a: int, w: int)
    ensures a * a - 2 * (a * w) + w * w >= 0
  {
    var g := a - w;
    SquareIsNonnegative(g);
    assert g * g == g * a - g * w;
    assert g * a == a * a - a * w && g * w == a * w - w * w;
  }

  lemma SquareIsNonnegative(x: int)
    ensures Square(x) >= 0 && Square(x) == x * x
  {
    if x < 0 {
      assert x * x == (-x) * (-x);
    }
  }

  lemma CrossTerm(n: int, a: int, e: int, d: int)
    requires n > 0 && a * a <= n * e
    ensures 2 * (a * d) <= e + n * (d * d)
  {
    var w := n * d;
    SquareOfGap(a, w);
    var x := e + n * (d * d) - 2 * (a * d);
    assert n * (n * (d * d)) == w * w;
    assert n * (a * d) == a * w;
    assert n * x == n * e + n * (n * (d * d)) - 2 * (n * (a * d));
    FactorNonnegative(n, x);
  }

  lemma CauchyStep(n: int, a: int, e: int, d: int)
    requires n >= 0 && a * a <= n * e && (n == 0 ==> a == 0 && e == 0)
    ensures Square(a + d) <= (n + 1) * (e + d * d)
  {
    if n > 0 {
      CrossTerm(n, a, e, d);
    }
    assert Square(a + d) == a * a + 2 * (a * d) + d * d;
    assert (n + 1) * (e + d * d) == n * e + n * (d * d) + e + d * d;
  }

  lemma {:induction false} CauchySchwarz(s: seq<Rec>)
    ensures Sum(s, AbsError) >= 0
    ensures Square(Sum(s, AbsError)) <= |s| * Sum(s, SquaredError)
  {
    if s != [] {
      var n := |s| - 1;
      CauchySchwarz(s[..n]);
      assert SquaredError(s[n]) == Square(AbsError(s[n]));
      CauchyStep(n, Sum(s[..n], AbsError), Sum(s[..n], SquaredError), AbsError(s[n]));
    }
  }

  /** The squared total deviation of the bins is at most the number of records times the summed
      squared error: the squared calibration error never exceeds the Brier score. */
  lemma CalibrationBelowBrier(s: seq<Rec>)
    ensures Square(Deviations(s)) <= |s| * Sum(s, SquaredError)
  {
    hide Deviations, Sum;
    DeviationsBelowErrors(s);
    CauchySchwarz(s);
    var a, b := Deviations(s), Sum(s, AbsError);
    assert a * a <= b * b;
  }

  // ----- The population average against persistence -----

  lemma BaselineArithmetic(n: real, k: real, c: real, r: real)
    requires n > 0.0 && k == r * n
    ensures Quadratic(n, k, c, 1.0) / n * MICROS - Quadratic(n, k, r, 1.0) / n * MICROS == RealSquare(c - r) * MICROS
  {
    var x, y := Quadratic(n, k, c, 1.0), Quadratic(n, k, r, 1.0);
    assert n * RealSquare(c - r) == n * (c * c) - 2.0 * (n * (c * r)) + n * (r * r);
    assert k * c == n * (c * r) && k * r == n * (r * r);
    assert x - y == n * RealSquare(c - r);
    assert x / n - y / n == (x - y) / n;
    QuotientIs(x - y, n, RealSquare(c - r));
  }

  lemma GapSquare(n: real, k: real, total: real, c: real, r: real)
    requires n > 0.0 && k == r * n && total == c * (n * MICROS)
    ensures (RealSquare(c - r) * MICROS) * (RealSquare(n) * MICROS) == RealSquare(total - MICROS * k)
  {
    var m := n * MICROS;
    assert total - MICROS * k == (c - r) * m;
    SquareOfProduct(c - r, m);
    SquareOfProduct(n, MICROS);
  }

  lemma SquareOfProduct(a: real, b: real)
    ensures RealSquare(a * b) == RealSquare(a) * RealSquare(b)
  {
  }

  /** The population-average baseline exceeds the persistence baseline by exactly
      `(P - D*K)^2 / (n^2 * D)`. */
  lemma PopulationGap(s: seq<Rec>)
    requires Scorable(s) && |s| > 0
    ensures (ClosedPopulation(s) - ClosedPersistence(s)) * (RealSquare(|s| as real) * MICROS)
         == RealSquare((Sum(s, Probability) - D * Sum(s, Positive)) as real)
    ensures ClosedPopulation(s) >= ClosedPersistence(s)
  {
    hide Closed, Sum, Quadratic, RealSquare, Scorable, Probability, Positive;
    var n, k, total := |s| as real, Sum(s, Positive) as real, Sum(s, Probability) as real;
    var c, r := BaselineForms(s);
    BaselineArithmetic(n, k, c, r);
    GapSquare(n, k, total, c, r);
    SquareNonnegative(c - r);
  }

  lemma SquareNonnegative(x: real)
    ensures RealSquare(x) * MICROS >= 0.0
  {
  }

  /** Both baselines are constant predictors: of the mean forecast and of the base rate. */
  lemma BaselineForms(s: seq<Rec>) returns (c: real, r: real)
    requires Scorable(s) && |s| > 0
    ensures var (n, k) := (|s| as real, Sum(s, Positive) as real);
      && k == r * n && Sum(s, Probability) as real == c * (n * MICROS)
      && ClosedPopulation(s) == Quadratic(n, k, c, 1.0) / n * MICROS
      && ClosedPersistence(s) == Quadratic(n, k, r, 1.0) / n * MICROS
  {
    hide Closed, Sum, RealSum, Quadratic, Scorable, RealSquare;
    var n := |s| as real;
    RealSumScales(s, Forecast, Probability, 0.000_001);
    c := RealSum(s, Forecast) / n;
    r := Sum(s, Positive) as real / n;
    MeanTimesCount(Sum(s, Probability) as real, n, c);
    QuadraticSum(s, ConstantError(c), c, 1.0);
    QuadraticSum(s, ConstantError(r), r, 1.0);
    PopulationAgrees(s);
    PersistenceAgrees(s);
  }

  /** The population baseline never beats persistence, before or after rounding. */
  lemma PopulationNeverBeatsPersistence(s: seq<Rec>)
    requires Scorable(s) && |s| > 0
    ensures var m := Micros(Closed(s)); m[3] >= m[5] && m[4] >= m[6]
  {
    hide ClosedBrier, ClosedEce, ClosedPopulation, ClosedPersistence, ClosedPersonal, ClosedLiftPersonal;
    hide ClosedLiftUnfloored, RoundHalfEven, Scorable;
    PopulationGap(s);
    var x := Closed(s);
    RoundIsMonotone(x.persistence, x.populationAvg);
    RoundIsMonotone(x.liftPersistence, x.liftPopulationAvg);
  }

  // ----- Ranges -----

  lemma ErrorRange(r: Rec)
    requires ValidRecord(r) && r.state == OBSERVED
    ensures 0 <= AbsError(r) <= D
    ensures 0 <= SquaredError(r) <= D * D
    ensures 0 <= Probability(r) <= D && 0 <= Positive(r) <= 1
  {
    hide ValidIdentifier, Square;
    SquareBound(Error(r), D);
    assert Square(D) == D * D by { SquareIs(D); }
  }

  lemma SquareIs(x: int)
    ensures Square(x) == x * x
  {
  }

  lemma SumRanges(s: seq<Rec>)
    requires Scorable(s)
    ensures 0 <= Sum(s, SquaredError) <= |s| * (D * D)
    ensures 0 <= Sum(s, AbsError) <= |s| * D
    ensures 0 <= Sum(s, Probability) <= |s| * D
    ensures 0 <= Sum(s, Positive) <= |s|
  {
    hide Sum, SquaredError, AbsError, Probability, Positive;
    forall i | 0 <= i < |s|
      ensures 0 <= AbsError(s[i]) <= D && 0 <= SquaredError(s[i]) <= D * D
      ensures 0 <= Probability(s[i]) <= D && 0 <= Positive(s[i]) <= 1
    {
      ErrorRange(s[i]);
    }
    SumBounds(s, SquaredError, 0, D * D);
    SumBounds(s, AbsError, 0, D);
    SumBounds(s, Probability, 0, D);
    SumBounds(s, Positive, 0, 1);
  }

  lemma PopulationTermRange(total: int, n: int, r: Rec)
    requires 0 <= total <= n * D && Outcome(r) <= 1
    ensures 0 <= PopulationTerm(total, n)(r) <= Square(n * D)
  {
    var m := n * D;
    var x := total - m * Outcome(r);
    assert -m <= x <= m;
    SquareBound(x, m);
  }

  lemma SquareBound(x: int, m: int)
    requires -m <= x <= m
    ensures 0 <= Square(x) <= Square(m)
  {
    assert (m - x) * (m + x) >= 0;
  }

  lemma HalfProduct(n: int, k: int)
    ensures 4 * (k * (n - k)) <= n * n
  {
    SquareOfGap(n, 2 * k);
    assert n * (2 * k) == 2 * (k * n) && (2 * k) * (2 * k) == 4 * (k * k);
    assert k * (n - k) == k * n - k * k;
  }

  lemma BrierRange(s: seq<Rec>)
    requires Scorable(s) && |s| > 0
    ensures 0.0 <= ClosedBrier(s) <= MICROS
  {
    hide Sum, RealSum, Deviations, Entities, Floored, Unfloored, PopulationTerm, SquaredError;
    SumRanges(s);
    var e, n := Sum(s, SquaredError) as real, |s| as real;
    CubeReal(|s|);
    assert e <= n * (MICROS * MICROS) by { ProductReal(|s|, D * D); }
    RatioRange(e, n * MICROS, 0.0, MICROS);
  }

  lemma EceRange(s: seq<Rec>)
    requires Scorable(s) && |s| > 0
    ensures 0.0 <= ClosedEce(s) <= MICROS
  {
    hide Sum, RealSum, Deviations, Entities, Floored, Unfloored, PopulationTerm, SquaredError;
    SumRanges(s);
    DeviationsBelowErrors(s);
    var d, n := Deviations(s) as real, |s| as real;
    assert d <= n * MICROS by { CubeReal(|s|); }
    RatioRange(d, n, 0.0, MICROS);
  }

  lemma PersistenceRange(s: seq<Rec>)
    requires Scorable(s) && |s| > 0
    ensures 0.0 <= ClosedPersistence(s) <= 250_000.0
  {
    hide Sum, RealSum, Deviations, Entities, Floored, Unfloored, PopulationTerm, SquaredError;
    SumRanges(s);
    var n, k := |s|, Sum(s, Positive);
    HalfProduct(n, k);
    assert k * (n - k) >= 0;
    RatioRange((k * (n - k) * D) as real, (n * n) as real, 0.0, 250_000.0);
  }

  lemma PopulationRange(s: seq<Rec>)
    requires Scorable(s) && |s| > 0
    ensures 0.0 <= ClosedPopulation(s) <= MICROS
  {
    hide Sum, RealSum, Deviations, Entities, Floored, Unfloored, PopulationTerm, SquaredError;
    SumRanges(s);
    var n, total := |s|, Sum(s, Probability);
    forall i | 0 <= i < n ensures 0 <= PopulationTerm(total, n)(s[i]) <= Square(n * D) {
      OutcomeIsBit(s, i);
      PopulationTermRange(total, n, s[i]);
    }
    SumBounds(s, PopulationTerm(total, n), 0, Square(n * D));
    assert n * Square(n * D) == (n * n * n * D) * D;
    var sum, cube := Sum(s, PopulationTerm(total, n)), n * n * n * D;
    assert n * n > 0;
    assert n * n * n > 0;
    ProductReal(cube, D);
    RatioRange(sum as real, cube as real, 0.0, MICROS);
  }

  // ----- Entities -----

  function CountOf(s: seq<Rec>): bytes -> int { (e: bytes) => |OutcomesOf(s, e)| }

  lemma {:induction false} OutcomesAsSums(s: seq<Rec>, e: bytes)
    ensures |OutcomesOf(s, e)| == Sum(s, OfEntity(e, One))
    ensures Total(OutcomesOf(s, e)) == Sum(s, OfEntity(e, Positive))
  {
    if s != [] {
      var n := |s| - 1;
      OutcomesAsSums(s[..n], e);
      var before := OutcomesOf(s[..n], e);
      SumSnoc(before, Outcome(s[n]) as int, x => x);
      assert before + [] == before;
    }
  }

  predicate HasEntity(s: seq<Rec>, e: bytes) { exists i | 0 <= i < |s| :: s[i].entityId == e }

  lemma HasEntityStep(s: seq<Rec>, e: bytes)
    requires s != []
    ensures HasEntity(s, e) <==> HasEntity(s[..|s| - 1], e) || s[|s| - 1].entityId == e
  {
    var n := |s| - 1;
    var before := s[..n];
    if i :| 0 <= i < n && before[i].entityId == e {
      assert s[i].entityId == e;
    }
    if i :| 0 <= i < |s| && s[i].entityId == e {
      assert i < n ==> before[i].entityId == e;
    }
  }

  lemma {:induction false} EntitiesAreDistinct(s: seq<Rec>)
    ensures Distinct(Entities(s)) && |Entities(s)| <= |s|
    ensures forall e :: e in Entities(s) <==> HasEntity(s, e)
    ensures s != [] ==> Entities(s) != []
  {
    hide HasEntity;
    if s == [] {
      forall e ensures !HasEntity([], e) { NoEntity(e); }
    } else {
      EntitiesAreDistinct(s[..|s| - 1]);
      forall e ensures e in Entities(s) <==> HasEntity(s, e) { HasEntityStep(s, e); }
    }
  }

  lemma NoEntity(e: bytes)
    ensures !HasEntity([], e)
  {
  }

  lemma {:induction false} AbsentEntity(s: seq<Rec>, e: bytes)
    requires e !in Entities(s)
    ensures OutcomesOf(s, e) == []
  {
    if s != [] {
      AbsentEntity(s[..|s| - 1], e);
    }
  }

  /** Every scored record belongs to exactly one entity. */
  lemma {:induction false} EntitiesPartition(s: seq<Rec>)
    ensures Sum(Entities(s), CountOf(s)) == |s|
  {
    if s != [] {
      var before, r := s[..|s| - 1], s[|s| - 1];
      EntitiesPartition(before);
      var es := Entities(before);
      EntitiesAreDistinct(before);
      forall e | e != r.entityId ensures OutcomesOf(s, e) == OutcomesOf(before, e) {
        assert OutcomesOf(before, e) + [] == OutcomesOf(before, e);
      }
      if r.entityId in es {
        var j :| 0 <= j < |es| && es[j] == r.entityId;
        SumOneChange(es, CountOf(before), CountOf(s), j);
      } else {
        AbsentEntity(before, r.entityId);
        SumAgrees(es, CountOf(before), CountOf(s));
        SumSnoc(es, r.entityId, CountOf(s));
      }
    }
  }

  lemma {:induction false} TotalOfBits(outcomes: seq<int>)
    requires Bits(outcomes)
    ensures 0 <= Total(outcomes) <= |outcomes|
  {
    if outcomes != [] {
      TotalOfBits(outcomes[..|outcomes| - 1]);
    }
  }

  /** Leave-one-out errors are at most 1 each. */
  lemma EntityTermRange(c: int, p: int)
    requires 0 <= p <= c
    ensures 0.0 <= EntityTerm(c, p) <= c as real
  {
    if c != 1 {
      HalfProduct(c, p);
      assert 0 <= p * (c - p);
      var m := c - 1;
      assert c * c <= 4 * (m * m) by {
        if c >= 2 { assert 4 * (m * m) - c * c == (2 * m - c) * (2 * m + c); }
      }
      assert p * (c - p) <= m * m;
      assert p * (c - p) * c <= (m * m) * c;
      assert Square(m) > 0 by { if c == 0 { assert m == -1; } else { assert m >= 1; } }
      TermRatio(p * (c - p) * c, Square(m), c);
    }
  }

  lemma TermRatio(a: int, b: int, c: int)
    requires b > 0 && 0 <= a <= b * c
    ensures 0.0 <= a as real / b as real <= c as real
  {
    ProductReal(b, c);
    RatioRange(a as real, b as real, 0.0, c as real);
  }

  lemma TermOfRange(s: seq<Rec>, e: bytes)
    requires Scorable(s)
    ensures 0.0 <= TermOf(s, e) <= CountOf(s)(e) as real
    ensures 0 <= Floored(s)(e) <= PBR_SCALE * CountOf(s)(e)
    ensures Floored(s)(e) as real <= Unfloored(s)(e) < Floored(s)(e) as real + 1.0
  {
    hide EntityTerm, OutcomesOf, Total;
    OutcomesAreBits(s, e);
    TotalOfBits(OutcomesOf(s, e));
    EntityTermRange(|OutcomesOf(s, e)|, Total(OutcomesOf(s, e)));
  }

  lemma FlooredRange(s: seq<Rec>)
    requires Scorable(s)
    ensures 0 <= Sum(Entities(s), Floored(s)) <= PBR_SCALE * |s|
  {
    hide Sum, TermOf, CountOf, Floored, Unfloored, Entities, Scorable;
    var es := Entities(s);
    forall i | 0 <= i < |es| ensures 0 <= Floored(s)(es[i]) <= PBR_SCALE * CountOf(s)(es[i]) { TermOfRange(s, es[i]); }
    SumBelowMultiple(es, Floored(s), CountOf(s), PBR_SCALE);
    EntitiesPartition(s);
  }

  lemma PersonalRatio(n: nat, total: int)
    requires n > 0 && 0 <= total <= PBR_SCALE * n
    ensures 0.0 <= total as real / (n * 1_000_000_000_000) as real <= MICROS
  {
    RatioRange(total as real, (n * 1_000_000_000_000) as real, 0.0, MICROS);
  }

  /** Every metric of every non-empty scored record list is in its published range. */
  lemma MicrosRanges(s: seq<Rec>)
    requires Scorable(s) && |s| > 0
    ensures var m := Micros(Closed(s));
      && |m| == 9
      && (forall i | 0 <= i < 9 :: -D <= m[i] <= D)
      && 0 <= m[0] && m[0] == m[1] && 0 <= m[2] && 0 <= m[3] && 0 <= m[5] <= 250_000 && 0 <= m[7]
  {
    hide ClosedBrier, ClosedEce, ClosedPopulation, ClosedPersistence, ClosedLiftPersonal, ClosedLiftUnfloored;
    hide RoundHalfEven, Scorable, Sum, Entities, Floored;
    FlooredRange(s);
    PersonalRatio(|s|, Sum(Entities(s), Floored(s)));
    hide ClosedPersonal;
    var x := Closed(s);
    BrierRange(s);
    EceRange(s);
    PopulationRange(s);
    PersistenceRange(s);
    LiftPersonalAgrees(s);
    RoundStaysInRange(x.brier, 0, D);
    RoundStaysInRange(x.ece, 0, D);
    RoundStaysInRange(x.populationAvg, 0, D);
    RoundStaysInRange(x.liftPopulationAvg, -D, D);
    RoundStaysInRange(x.persistence, 0, 250_000);
    RoundStaysInRange(x.liftPersistence, -D, D);
    RoundStaysInRange(x.personal, 0, D);
    RoundStaysInRange(x.liftPersonal, -D, D);
  }

  // ----- The intermediate floor -----

  lemma {:induction false} FloorLoss(es: seq<bytes>, s: seq<Rec>)
    requires Scorable(s)
    ensures 0.0 <= RealSum(es, Unfloored(s)) - Sum(es, Floored(s)) as real <= |es| as real
  {
    hide Floored, Unfloored, Scorable;
    if es != [] {
      var n := |es| - 1;
      FloorLoss(es[..n], s);
      TermOfRange(s, es[n]);
    }
  }

  /** Flooring each entity term at 10^-18 lowers the rounded lift by at most one micro-unit. */
  lemma FloorCostsAtMostOne(s: seq<Rec>)
    requires Scorable(s) && |s| > 0
    ensures var (floored, exact) := (RoundHalfEven(ClosedLiftPersonal(s)), RoundHalfEven(ClosedLiftUnfloored(s)));
      floored <= exact <= floored + 1
  {
    hide Sum, RealSum, Deviations, Entities, Floored, Unfloored, PopulationTerm, SquaredError, RoundHalfEven, Scorable;
    FloorLoss(Entities(s), s);
    EntitiesAreDistinct(s);
    var n := |s| as real;
    var unit := (|s| * 1_000_000_000_000) as real;
    var f, u := Sum(Entities(s), Floored(s)) as real, RealSum(Entities(s), Unfloored(s));
    var e := (D * Sum(s, SquaredError)) as real;
    RatioRange(u - f, unit, 0.0, 0.5);
    assert (u - e) / unit - (f - e) / unit == (u - f) / unit;
    CloseValuesRoundClose(ClosedLiftPersonal(s), ClosedLiftUnfloored(s));
  }

  // ----- What the values do not depend on -----

  lemma ScoredStep(records: seq<Rec>)
    requires records != []
    ensures var (front, last) := (records[..|records| - 1], records[|records| - 1]);
      multiset(Scored(records))
      == multiset(Scored(front)) + if last.state == OBSERVED then multiset{last} else multiset{}
  {
  }

  lemma {:induction false} ScoredCounts(records: seq<Rec>, r: Rec)
    ensures multiset(Scored(records))[r] == if r.state == OBSERVED then multiset(records)[r] else 0
  {
    if records != [] {
      var front, last := records[..|records| - 1], records[|records| - 1];
      ScoredCounts(front, r);
      ScoredStep(records);
      assert records == front + [last];
      assert multiset(records) == multiset(front) + multiset{last};
    }
  }

  lemma ScoredPermutes(a: seq<Rec>, b: seq<Rec>)
    requires multiset(a) == multiset(b)
    ensures multiset(Scored(a)) == multiset(Scored(b))
  {
    forall r ensures multiset(Scored(a))[r] == multiset(Scored(b))[r] {
      ScoredCounts(a, r);
      ScoredCounts(b, r);
    }
  }

  lemma BinsPermute(s: seq<Rec>, t: seq<Rec>, k: nat)
    requires multiset(s) == multiset(t)
    ensures BinSize(s, k) == BinSize(t, k)
    ensures BinSum(s, k) == BinSum(t, k)
    ensures BinPositives(s, k) == BinPositives(t, k)
    ensures Deviation(s, k) == Deviation(t, k)
  {
    SumPermutes(s, t, InBin(k, One));
    SumPermutes(s, t, InBin(k, Probability));
    SumPermutes(s, t, InBin(k, Positive));
  }

  lemma DeviationsPermute(s: seq<Rec>, t: seq<Rec>)
    requires multiset(s) == multiset(t)
    ensures Deviations(s) == Deviations(t)
  {
    hide Deviation;
    forall k: nat | k < BIN_COUNT ensures Deviation(s, k) == Deviation(t, k) { BinsPermute(s, t, k); }
    RangeSumOneChange(BIN_COUNT, (k: nat) => Deviation(s, k), (k: nat) => Deviation(t, k), BIN_COUNT);
  }

  lemma HasEntityPermutes(s: seq<Rec>, t: seq<Rec>, e: bytes)
    requires multiset(s) == multiset(t) && HasEntity(s, e)
    ensures HasEntity(t, e)
  {
    var i :| 0 <= i < |s| && s[i].entityId == e;
    assert s[i] in multiset(t);
    var j :| 0 <= j < |t| && t[j] == s[i];
  }

  lemma EntitiesPermute(s: seq<Rec>, t: seq<Rec>)
    requires multiset(s) == multiset(t)
    ensures multiset(Entities(s)) == multiset(Entities(t))
  {
    hide Entities, HasEntity;
    EntitiesAreDistinct(s);
    EntitiesAreDistinct(t);
    forall e ensures e in Entities(s) <==> e in Entities(t) {
      if HasEntity(s, e) { HasEntityPermutes(s, t, e); }
      if HasEntity(t, e) { HasEntityPermutes(t, s, e); }
    }
    SameElementsPermute(Entities(s), Entities(t));
  }

  lemma FlooredPermutes(s: seq<Rec>, t: seq<Rec>)
    requires multiset(s) == multiset(t)
    ensures Sum(Entities(s), Floored(s)) == Sum(Entities(t), Floored(t))
  {
    hide Entities, OutcomesOf, Sum, Total, EntityTerm;
    var es := Entities(s);
    forall i | 0 <= i < |es| ensures Floored(s)(es[i]) == Floored(t)(es[i]) {
      TermOfPermutes(s, t, es[i]);
    }
    SumAgrees(es, Floored(s), Floored(t));
    EntitiesPermute(s, t);
    SumPermutes(es, Entities(t), Floored(t));
  }

  lemma TermOfPermutes(s: seq<Rec>, t: seq<Rec>, e: bytes)
    requires multiset(s) == multiset(t)
    ensures TermOf(s, e) == TermOf(t, e)
  {
    hide OutcomesOf, Sum, Total, EntityTerm;
    OutcomesAsSums(s, e);
    OutcomesAsSums(t, e);
    SumPermutes(s, t, OfEntity(e, One));
    SumPermutes(s, t, OfEntity(e, Positive));
  }

  /** The order of the scored records fixes no metric. */
  lemma MicrosPermute(s: seq<Rec>, t: seq<Rec>)
    requires |s| > 0 && multiset(s) == multiset(t)
    ensures |t| > 0 && Micros(Closed(s)) == Micros(Closed(t))
  {
    hide Sum, RealSum, Deviations, Entities, Floored, Unfloored, PopulationTerm, SquaredError, RoundHalfEven;
    assert |multiset(s)| == |multiset(t)|;
    SumPermutes(s, t, SquaredError);
    SumPermutes(s, t, Probability);
    SumPermutes(s, t, Positive);
    SumPermutes(s, t, PopulationTerm(Sum(s, Probability), |s|));
    DeviationsPermute(s, t);
    FlooredPermutes(s, t);
  }

  // ----- Conservation -----

  lemma {:induction false} BinsConserve(s: seq<Rec>)
    ensures RangeSum(BIN_COUNT, (k: nat) => BinSize(s, k)) == |s|
    ensures RangeSum(BIN_COUNT, (k: nat) => BinSum(s, k)) == Sum(s, Probability)
    ensures RangeSum(BIN_COUNT, (k: nat) => BinPositives(s, k)) == Sum(s, Positive)
    decreases |s|, 1
  {
    hide BinSize, BinSum, BinPositives, BinOf;
    if s == [] {
      forall k: nat | k < BIN_COUNT
        ensures BinSize(s, k) == 0 && BinSum(s, k) == 0 && BinPositives(s, k) == 0
      {
        EmptySums(k);
      }
      ZeroRange(BIN_COUNT);
      RangeSumOneChange(BIN_COUNT, (k: nat) => 0, (k: nat) => BinSize(s, k), BIN_COUNT);
      RangeSumOneChange(BIN_COUNT, (k: nat) => 0, (k: nat) => BinSum(s, k), BIN_COUNT);
      RangeSumOneChange(BIN_COUNT, (k: nat) => 0, (k: nat) => BinPositives(s, k), BIN_COUNT);
    } else {
      BinsConserveStep(s);
    }
  }

  lemma {:induction false} BinsConserveStep(s: seq<Rec>)
    requires s != []
    ensures RangeSum(BIN_COUNT, (k: nat) => BinSize(s, k)) == |s|
    ensures RangeSum(BIN_COUNT, (k: nat) => BinSum(s, k)) == Sum(s, Probability)
    ensures RangeSum(BIN_COUNT, (k: nat) => BinPositives(s, k)) == Sum(s, Positive)
    decreases |s|, 0
  {
    hide BinSize, BinSum, BinPositives, BinOf;
    var before, r := s[..|s| - 1], s[|s| - 1];
    BinsConserve(before);
    var j := BinOf(r.probability);
    BinInRange(r.probability);
    forall k: nat | k < BIN_COUNT
      ensures BinSize(s, k) == BinSize(before, k) + (if k == j then 1 else 0)
      ensures BinSum(s, k) == BinSum(before, k) + (if k == j then r.probability else 0)
      ensures BinPositives(s, k) == BinPositives(before, k) + (if k == j then Outcome(r) else 0)
    {
      BinStep(s, k);
    }
    RangeSumOneChange(BIN_COUNT, (k: nat) => BinSize(before, k), (k: nat) => BinSize(s, k), j);
    RangeSumOneChange(BIN_COUNT, (k: nat) => BinSum(before, k), (k: nat) => BinSum(s, k), j);
    RangeSumOneChange(BIN_COUNT, (k: nat) => BinPositives(before, k), (k: nat) => BinPositives(s, k), j);
  }
}
