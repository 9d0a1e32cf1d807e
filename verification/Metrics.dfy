/** The binary-calibration metrics of a list of scored records. The generators compute them twice:
    by closed integer formulas, with one division at the end, and from the definitions, by per-bin
    means, constant predictors and leave-one-out base rates. Both are written out here, over `real`
    in place of exact fractions, and shown to be equal. */
module Metrics {
  import opened Cbor
  import opened MetricInputs
  import opened Rounding
  import opened Sums

  const BIN_WIDTH := 100_000
  const BIN_COUNT := 10
  const PBR_SCALE := 1_000_000_000_000_000_000
  const PBR_UNIT := 1_000_000_000_000_000_000.0

  // ----- Scored records -----

  function Scored(records: seq<Rec>): seq<Rec> {
    if records == [] then []
    else
      var n := |records| - 1;
      Scored(records[..n]) + (if records[n].state == OBSERVED then [records[n]] else [])
  }

  function Outcome(r: Rec): nat { if r.outcome.Some? then r.outcome.value else 0 }

  /** Every record is valid and observed, so its outcome is 0 or 1. */
  predicate Scorable(s: seq<Rec>) {
    forall i | 0 <= i < |s| :: ValidRecord(s[i]) && s[i].state == OBSERVED
  }

  lemma {:induction false} ScoredIsScorable(records: seq<Rec>)
    requires forall i | 0 <= i < |records| :: ValidRecord(records[i])
    ensures Scorable(Scored(records)) && |Scored(records)| <= |records|
  {
    hide ValidRecord;
    if records != [] {
      ScoredIsScorable(records[..|records| - 1]);
    }
  }

  // ----- Closed formulas -----

  function Square(x: int): int { x * x }
  function Times(a: real, b: real): real { a * b }
  function RealSquare(x: real): real { Times(x, x) }
  function Abs(x: int): int { if x >= 0 then x else -x }
  function RealAbs(x: real): real { if x >= 0.0 then x else -x }

  function Error(r: Rec): int { r.probability - D * Outcome(r) }
  function SquaredError(r: Rec): int { Square(Error(r)) }
  function Probability(r: Rec): int { r.probability }
  function Positive(r: Rec): int { Outcome(r) }

  function BinOf(probability: nat): nat {
    if probability / BIN_WIDTH < BIN_COUNT - 1 then probability / BIN_WIDTH else BIN_COUNT - 1
  }

  function InBin(k: nat, g: Rec -> int): (f: Rec -> int)
    ensures forall r :: f(r) == if BinOf(r.probability) == k then g(r) else 0
  {
    (r: Rec) => if BinOf(r.probability) == k then g(r) else 0
  }

  function OfEntity(e: bytes, g: Rec -> int): (f: Rec -> int)
    ensures forall r :: f(r) == if r.entityId == e then g(r) else 0
  {
    (r: Rec) => if r.entityId == e then g(r) else 0
  }

  function One(r: Rec): int { 1 }

  function BinSum(s: seq<Rec>, k: nat): int { Sum(s, InBin(k, Probability)) }
  function BinPositives(s: seq<Rec>, k: nat): int { Sum(s, InBin(k, Positive)) }
  function BinSize(s: seq<Rec>, k: nat): int { Sum(s, InBin(k, One)) }
  function Deviation(s: seq<Rec>, k: nat): int { Abs(BinSum(s, k) - D * BinPositives(s, k)) }
  function Deviations(s: seq<Rec>): int { RangeSum(BIN_COUNT, (k: nat) => Deviation(s, k)) }

  function PopulationTerm(total: int, n: int): Rec -> int { (r: Rec) => Square(total - n * D * Outcome(r)) }

  /** The entities in the order their first scored record appears. */
  function Entities(s: seq<Rec>): seq<bytes> {
    if s == [] then []
    else
      var n := |s| - 1;
      var before := Entities(s[..n]);
      if s[n].entityId in before then before else before + [s[n].entityId]
  }

  /** The outcomes of one entity, in record order. */
  function OutcomesOf(s: seq<Rec>, e: bytes): seq<int> {
    if s == [] then []
    else
      var n := |s| - 1;
      OutcomesOf(s[..n], e) + (if s[n].entityId == e then [Outcome(s[n]) as int] else [])
  }

  function Total(outcomes: seq<int>): int { Sum(outcomes, x => x) }

  /** The entity term: the leave-one-out Brier sum in closed form. */
  function EntityTerm(count: int, positives: int): real {
    if count == 1 then positives as real
    else (positives * (count - positives) * count) as real / Square(count - 1) as real
  }

  function TermOf(s: seq<Rec>, e: bytes): real {
    EntityTerm(|OutcomesOf(s, e)|, Total(OutcomesOf(s, e)))
  }

  function Floored(s: seq<Rec>): bytes -> int { (e: bytes) => (TermOf(s, e) * PBR_UNIT).Floor }
  function Unfloored(s: seq<Rec>): bytes -> real { (e: bytes) => TermOf(s, e) * PBR_UNIT }

  /** The exact value of every metric in micro-units, before its one rounding. */
  datatype Exact = Exact(
    brier: real, ece: real,
    populationAvg: real, liftPopulationAvg: real,
    persistence: real, liftPersistence: real,
    personal: real, liftPersonal: real, liftPersonalUnfloored: real)

  function ClosedBrier(s: seq<Rec>): real
    requires |s| > 0
  {
    Sum(s, SquaredError) as real / (|s| * D) as real
  }

  function ClosedEce(s: seq<Rec>): real
    requires |s| > 0
  {
    Deviations(s) as real / |s| as real
  }

  function ClosedPopulation(s: seq<Rec>): real
    requires |s| > 0
  {
    var n := |s|;
    Sum(s, PopulationTerm(Sum(s, Probability), n)) as real / (n * n * n * D) as real
  }

  function ClosedPersistence(s: seq<Rec>): real
    requires |s| > 0
  {
    var n, k := |s|, Sum(s, Positive);
    (k * (n - k) * D) as real / (n * n) as real
  }

  function ClosedPersonal(s: seq<Rec>): real
    requires |s| > 0
  {
    Sum(Entities(s), Floored(s)) as real / (|s| * 1_000_000_000_000) as real
  }

  function ClosedLiftPersonal(s: seq<Rec>): real
    requires |s| > 0
  {
    (Sum(Entities(s), Floored(s)) - D * Sum(s, SquaredError)) as real / (|s| * 1_000_000_000_000) as real
  }

  /** The personal lift without the intermediate floor. */
  function ClosedLiftUnfloored(s: seq<Rec>): real
    requires |s| > 0
  {
    (RealSum(Entities(s), Unfloored(s)) - (D * Sum(s, SquaredError)) as real) / (|s| * 1_000_000_000_000) as real
  }

  function Closed(s: seq<Rec>): Exact
    requires |s| > 0
  {
    var (model, pop, pers) := (ClosedBrier(s), ClosedPopulation(s), ClosedPersistence(s));
    Exact(
      model, ClosedEce(s),
      pop, pop - model,
      pers, pers - model,
      ClosedPersonal(s), ClosedLiftPersonal(s), ClosedLiftUnfloored(s))
  }

  function Micros(x: Exact): seq<int> {
    [RoundHalfEven(x.brier), RoundHalfEven(x.brier), RoundHalfEven(x.ece),
     RoundHalfEven(x.populationAvg), RoundHalfEven(x.liftPopulationAvg),
     RoundHalfEven(x.persistence), RoundHalfEven(x.liftPersistence),
     RoundHalfEven(x.personal), RoundHalfEven(x.liftPersonal)]
  }

  // ----- The definitions, in probability units -----

  function Forecast(r: Rec): real { r.probability as real / MICROS }

  function ConstantError(c: real): Rec -> real { (r: Rec) => RealSquare(c - Outcome(r) as real) }

  function BrierError(r: Rec): real { RealSquare(Forecast(r) - Outcome(r) as real) }

  function DefinedBrier(s: seq<Rec>): real
    requires |s| > 0
  {
    RealSum(s, BrierError) / |s| as real
  }

  /** The records whose forecast lies in the `k`-th tenth, the last tenth closed above. */
  predicate InTenth(k: nat, p: real) {
    (k as real / 10.0 <= p < (k + 1) as real / 10.0) || (k == BIN_COUNT - 1 && p == 1.0)
  }

  function Members(s: seq<Rec>, k: nat): seq<Rec> {
    if s == [] then []
    else
      var n := |s| - 1;
      Members(s[..n], k) + (if InTenth(k, Forecast(s[n])) then [s[n]] else [])
  }

  function BinGap(s: seq<Rec>, k: nat): real
    requires |s| > 0
  {
    var members := Members(s, k);
    if members == [] then 0.0
    else
      var size := |members| as real;
      var meanForecast := RealSum(members, Forecast) / size;
      var rate := Sum(members, Positive) as real / size;
      size / |s| as real * RealAbs(meanForecast - rate)
  }

  function DefinedEce(s: seq<Rec>): real
    requires |s| > 0
  {
    RangeRealSum(BIN_COUNT, (k: nat) => BinGap(s, k))
  }

  function DefinedPopulationAvg(s: seq<Rec>): real
    requires |s| > 0
  {
    RealSum(s, ConstantError(RealSum(s, Forecast) / |s| as real)) / |s| as real
  }

  function DefinedPersistence(s: seq<Rec>): real
    requires |s| > 0
  {
    RealSum(s, ConstantError(Sum(s, Positive) as real / |s| as real)) / |s| as real
  }

  /** The base rate of an entity's other records; 0 when there is no other. */
  function OthersRate(outcomes: seq<int>, i: nat): real
    requires i < |outcomes|
  {
    if |outcomes| >= 2 then Total(outcomes[..i] + outcomes[i + 1..]) as real / (|outcomes| - 1) as real else 0.0
  }

  /** The squared errors of the first `j` records against the rate of the others. */
  function LeaveOneOut(outcomes: seq<int>, j: nat): real
    requires j <= |outcomes|
  {
    if j == 0 then 0.0
    else LeaveOneOut(outcomes, j - 1) + RealSquare(OthersRate(outcomes, j - 1) - outcomes[j - 1] as real)
  }

  function DefinedTerm(s: seq<Rec>, e: bytes): real {
    LeaveOneOut(OutcomesOf(s, e), |OutcomesOf(s, e)|)
  }

  function DefinedPersonal(s: seq<Rec>): real
    requires |s| > 0
  {
    Sum(Entities(s), (e: bytes) => (DefinedTerm(s, e) * PBR_UNIT).Floor) as real / (|s| * PBR_SCALE) as real
  }

  function DefinedMicros(s: seq<Rec>): seq<int>
    requires |s| > 0
  {
    var brier, ece, pop, pers, pbr :=
      DefinedBrier(s), DefinedEce(s), DefinedPopulationAvg(s), DefinedPersistence(s), DefinedPersonal(s);
    [RoundHalfEven(brier * MICROS), RoundHalfEven(brier * MICROS), RoundHalfEven(ece * MICROS),
     RoundHalfEven(pop * MICROS), RoundHalfEven((pop - brier) * MICROS),
     RoundHalfEven(pers * MICROS), RoundHalfEven((pers - brier) * MICROS),
     RoundHalfEven(pbr * MICROS), RoundHalfEven((pbr - brier) * MICROS)]
  }

  // ----- The closed formulas compute the definitions -----

  lemma QuotientIs(a: real, b: real, x: real)
    requires b != 0.0 && x * b == a
    ensures a / b == x
  {
  }

  lemma OutcomeIsBit(s: seq<Rec>, i: nat)
    requires Scorable(s) && i < |s|
    ensures Outcome(s[i]) == 0 || Outcome(s[i]) == 1
    ensures 0 <= s[i].probability <= D
  {
  }

  lemma SquareReal(x: int)
    ensures Square(x) as real == RealSquare(x as real)
  {
  }

  lemma ErrorScales(r: Rec)
    ensures BrierError(r) == 0.000_000_000_001 * SquaredError(r) as real
  {
    var x := Error(r) as real;
    assert Forecast(r) - Outcome(r) as real == 0.000_001 * x;
    SquareReal(Error(r));
  }

  lemma BrierArithmetic(e: real, n: real, x: real)
    requires n > 0.0 && x * n == 0.000_000_000_001 * e
    ensures e / (n * MICROS) == x * MICROS
  {
    assert (x * MICROS) * (n * MICROS) == (x * n) * (MICROS * MICROS);
    QuotientIs(e, n * MICROS, x * MICROS);
  }

  lemma BrierAgrees(s: seq<Rec>)
    requires Scorable(s) && |s| > 0
    ensures ClosedBrier(s) == DefinedBrier(s) * MICROS
  {
    hide Sum, RealSum, RealAbs, BrierError, SquaredError, Deviations, Entities, Floored, Unfloored, Scorable,
      PopulationTerm, Probability, Positive;
    forall i | 0 <= i < |s| ensures BrierError(s[i]) == 0.000_000_000_001 * SquaredError(s[i]) as real {
      ErrorScales(s[i]);
    }
    RealSumScales(s, BrierError, SquaredError, 0.000_000_000_001);
    BrierArithmetic(Sum(s, SquaredError) as real, |s| as real, DefinedBrier(s));
  }

  /** The sum of `(a - b * o)^2` over `n` outcomes of which `k` are 1. */
  function Quadratic(n: real, k: real, a: real, b: real): real {
    n * (a * a) - 2.0 * (k * (a * b)) + k * (b * b)
  }

  lemma QuadraticStep(n: real, k: real, a: real, b: real, o: nat)
    requires o == 0 || o == 1
    ensures Quadratic(n + 1.0, k + o as real, a, b) == Quadratic(n, k, a, b) + RealSquare(a - b * o as real)
  {
    assert (n + 1.0) * (a * a) == n * (a * a) + a * a;
    if o == 1 {
      assert (k + 1.0) * (a * b) == k * (a * b) + a * b;
      assert (k + 1.0) * (b * b) == k * (b * b) + b * b;
      assert RealSquare(a - b) == a * a - 2.0 * (a * b) + b * b;
    }
  }

  lemma {:induction false} QuadraticSum(s: seq<Rec>, h: Rec -> real, a: real, b: real)
    requires Scorable(s)
    requires forall i | 0 <= i < |s| :: h(s[i]) == RealSquare(a - b * Outcome(s[i]) as real)
    ensures RealSum(s, h) == Quadratic(|s| as real, Sum(s, Positive) as real, a, b)
  {
    hide Quadratic, RealSquare, Scorable;
    if s == [] {
      assert Quadratic(0.0, 0.0, a, b) == 0.0 by { QuadraticZero(a, b); }
    } else {
      var m := |s| - 1;
      ScorablePrefix(s);
      QuadraticSum(s[..m], h, a, b);
      OutcomeIsBit(s, m);
      QuadraticStep(m as real, Sum(s[..m], Positive) as real, a, b, Outcome(s[m]));
    }
  }

  lemma QuadraticZero(a: real, b: real)
    ensures Quadratic(0.0, 0.0, a, b) == 0.0
  {
  }

  lemma ScorablePrefix(s: seq<Rec>)
    requires Scorable(s) && s != []
    ensures Scorable(s[..|s| - 1])
  {
  }

  /** The closed population term is the definition's squared error scaled by `(n * D)^2`. */
  lemma PopulationArithmetic(n: real, k: real, c: real, total: real)
    requires n > 0.0 && total == c * (n * MICROS)
    ensures Quadratic(n, k, total, n * MICROS) / (n * n * n * MICROS) == Quadratic(n, k, c, 1.0) / n * MICROS
  {
    var m := n * MICROS;
    var y := Quadratic(n, k, c, 1.0);
    assert total * total == (c * c) * (m * m);
    assert total * m == c * (m * m);
    assert n * (total * total) == (n * (c * c)) * (m * m);
    assert k * (total * m) == (k * c) * (m * m);
    assert Quadratic(n, k, total, m) == y * (m * m);
    var x := y / n * MICROS;
    assert x * n == y * MICROS;
    assert x * (n * n * n * MICROS) == (x * n) * (n * n * MICROS);
    assert (y * MICROS) * (n * n * MICROS) == y * (m * m);
    QuotientIs(y * (m * m), n * n * n * MICROS, x);
  }

  lemma PersistenceArithmetic(n: real, k: real, r: real)
    requires n > 0.0 && k == r * n
    ensures RealSquare(n) > 0.0
    ensures k * (n - k) * MICROS / RealSquare(n) == Quadratic(n, k, r, 1.0) / n * MICROS
  {
    hide RealSquare;
    var z := k - k * r;
    assert Quadratic(n, k, r, 1.0) == z by {
      assert n * (r * r) == (r * n) * r;
    }
    assert z * n == k * (n - k) by {
      assert (k * r) * n == k * (r * n);
    }
    DivideTwice(z, n);
  }

  lemma SquarePositive(n: real)
    requires n > 0.0
    ensures RealSquare(n) > 0.0
  {
    hide Times;
    TimesPositive(n, n);
  }

  lemma TimesPositive(a: real, b: real)
    requires a > 0.0 && b > 0.0
    ensures Times(a, b) > 0.0
  {
  }

  lemma TimesSquare(y: real, n: real)
    ensures (y * MICROS) * RealSquare(n) == ((y * n) * n) * MICROS
  {
  }

  lemma DivideTwice(z: real, n: real)
    requires n > 0.0
    ensures RealSquare(n) > 0.0
    ensures (z * n) * MICROS / RealSquare(n) == z / n * MICROS
  {
    hide RealSquare;
    var y := z / n;
    assert y * n == z;
    TimesSquare(y, n);
    SquarePositive(n);
    QuotientIs((z * n) * MICROS, RealSquare(n), y * MICROS);
  }

  lemma ProductReal(a: int, b: int)
    ensures (a * b) as real == a as real * b as real
  {
  }

  lemma PopulationSum(s: seq<Rec>, total: int)
    requires Scorable(s)
    ensures Sum(s, PopulationTerm(total, |s|)) as real
         == Quadratic(|s| as real, Sum(s, Positive) as real, total as real, |s| as real * MICROS)
  {
    hide Sum, RealSum, Quadratic, Scorable;
    var n := |s|;
    var term := PopulationTerm(total, n);
    var h := (r: Rec) => term(r) as real;
    forall i | 0 <= i < |s|
      ensures h(s[i]) == RealSquare(total as real - n as real * MICROS * Outcome(s[i]) as real)
    {
      OutcomeIsBit(s, i);
      SquareReal(total - n * D * Outcome(s[i]));
    }
    RealSumScales(s, h, term, 1.0);
    QuadraticSum(s, h, total as real, n as real * MICROS);
  }

  lemma PopulationAgrees(s: seq<Rec>)
    requires Scorable(s) && |s| > 0
    ensures ClosedPopulation(s) == DefinedPopulationAvg(s) * MICROS
  {
    hide Sum, RealSum, Quadratic, Deviations, Entities, Floored, Unfloored, Scorable, SquaredError,
      PopulationTerm, Positive;
    var n, k, total := |s| as real, Sum(s, Positive) as real, Sum(s, Probability);
    RealSumScales(s, Forecast, Probability, 0.000_001);
    var c := RealSum(s, Forecast) / n;
    QuadraticSum(s, ConstantError(c), c, 1.0);
    PopulationSum(s, total);
    MeanTimesCount(total as real, n, c);
    CubeReal(|s|);
    PopulationArithmetic(n, k, c, total as real);
  }

  lemma MeanTimesCount(total: real, n: real, c: real)
    requires n > 0.0 && c == 0.000_001 * total / n
    ensures total == c * (n * MICROS)
  {
    assert c * n == 0.000_001 * total;
  }

  lemma CubeReal(n: nat)
    ensures (n * n * n * D) as real == n as real * n as real * n as real * MICROS
    ensures (n * n) as real == RealSquare(n as real)
    ensures (n * D) as real == n as real * MICROS
  {
    ProductReal(n, n);
    ProductReal(n * n, n);
  }

  lemma PersistenceAgrees(s: seq<Rec>)
    requires Scorable(s) && |s| > 0
    ensures ClosedPersistence(s) == DefinedPersistence(s) * MICROS
  {
    hide Sum, RealSum, Quadratic, Deviations, Entities, Floored, Unfloored, Scorable, SquaredError,
      PopulationTerm, Positive, Probability;
    var n, k := |s|, Sum(s, Positive);
    var r := k as real / n as real;
    QuadraticSum(s, ConstantError(r), r, 1.0);
    CubeReal(n);
    ProductReal(k, n - k);
    PersistenceArithmetic(n as real, k as real, r);
  }

  // ----- Expected calibration error -----

  lemma TenthIsBin(k: nat, p: nat)
    requires k < BIN_COUNT && p <= D
    ensures InTenth(k, p as real / MICROS) <==> BinOf(p) == k
  {
    var q := p / BIN_WIDTH;
    assert q * BIN_WIDTH <= p < (q + 1) * BIN_WIDTH;
    assert (p as real / MICROS >= k as real / 10.0) <==> p >= k * BIN_WIDTH;
    assert (p as real / MICROS < (k + 1) as real / 10.0) <==> p < (k + 1) * BIN_WIDTH;
  }

  lemma EmptySums(k: nat)
    ensures BinSize([], k) == BinSum([], k) == BinPositives([], k) == 0
  {
  }

  lemma BinStep(s: seq<Rec>, k: nat)
    requires s != []
    ensures var (before, r) := (s[..|s| - 1], s[|s| - 1]);
      var inside := BinOf(r.probability) == k;
      && BinSize(s, k) == BinSize(before, k) + (if inside then 1 else 0)
      && BinSum(s, k) == BinSum(before, k) + (if inside then r.probability else 0)
      && BinPositives(s, k) == BinPositives(before, k) + (if inside then Outcome(r) else 0)
  {
  }

  lemma {:induction false} MembersAreTheBin(s: seq<Rec>, k: nat)
    requires Scorable(s) && k < BIN_COUNT
    ensures |Members(s, k)| == BinSize(s, k)
    ensures RealSum(Members(s, k), Forecast) == 0.000_001 * BinSum(s, k) as real
    ensures Sum(Members(s, k), Positive) == BinPositives(s, k)
  {
    hide BinOf, BinSize, BinSum, BinPositives, InTenth, Scorable, Outcome;
    if s == [] {
      assert BinSize(s, k) == BinSum(s, k) == BinPositives(s, k) == 0 by { EmptySums(k); }
    } else {
      var n := |s| - 1;
      BinStep(s, k);
      ScorablePrefix(s);
      MembersAreTheBin(s[..n], k);
      OutcomeIsBit(s, n);
      TenthIsBin(k, s[n].probability);
      var before := Members(s[..n], k);
      SumSnoc(before, s[n], Positive);
      RealSumSnoc(before, s[n], Forecast);
      assert before + [] == before;
    }
  }

  lemma {:induction false} EmptyBin(s: seq<Rec>, k: nat)
    requires Scorable(s)
    ensures BinSize(s, k) >= 0 && (BinSize(s, k) == 0 ==> BinSum(s, k) == 0 && BinPositives(s, k) == 0)
  {
    hide BinOf, BinSize, BinSum, BinPositives, Scorable;
    if s == [] {
      EmptySums(k);
    } else {
      BinStep(s, k);
      ScorablePrefix(s);
      EmptyBin(s[..|s| - 1], k);
    }
  }

  lemma GapArithmetic(size: real, n: real, p: real, o: real)
    requires size > 0.0 && n > 0.0
    ensures size / n * RealAbs(0.000_001 * p / size - o / size) == RealAbs(p - MICROS * o) * (0.000_001 / n)
  {
    var x := 0.000_001 * p - o;
    assert 0.000_001 * p / size - o / size == x / size;
    assert RealAbs(p - MICROS * o) == MICROS * RealAbs(x);
    var y := x / size;
    assert y * size == x;
    assert RealAbs(y) * size == RealAbs(x) by {
      if y >= 0.0 { assert x >= 0.0; } else { assert x < 0.0; }
    }
    var z := size / n;
    assert z * n == size;
    var w := 0.000_001 / n;
    assert w * n == 0.000_001;
    var left, right := z * RealAbs(y), MICROS * RealAbs(x) * w;
    assert left * n == RealAbs(y) * size;
    assert right * n == MICROS * RealAbs(x) * (w * n);
    QuotientIs(RealAbs(x), n, left);
    QuotientIs(RealAbs(x), n, right);
  }

  lemma GapScales(s: seq<Rec>, k: nat)
    requires Scorable(s) && |s| > 0 && k < BIN_COUNT
    ensures BinGap(s, k) == 0.000_001 / |s| as real * Deviation(s, k) as real
  {
    hide BinSize, BinSum, BinPositives, Members, Sum, RealSum, Scorable, Forecast, Positive, RealAbs;
    MembersAreTheBin(s, k);
    EmptyBin(s, k);
    if |Members(s, k)| > 0 {
      GapArithmetic(|Members(s, k)| as real, |s| as real, BinSum(s, k) as real, BinPositives(s, k) as real);
      AbsReal(BinSum(s, k), BinPositives(s, k));
    }
  }

  lemma AbsReal(p: int, o: int)
    ensures RealAbs(p as real - MICROS * o as real) == Abs(p - D * o) as real
  {
  }

  lemma EceAgrees(s: seq<Rec>)
    requires Scorable(s) && |s| > 0
    ensures ClosedEce(s) == DefinedEce(s) * MICROS
  {
    hide Sum, RealSum, BinGap, Deviation, RangeSum, RangeRealSum, Entities, Floored, Unfloored, Scorable, SquaredError,
      PopulationTerm, Positive, Probability;
    var factor := 0.000_001 / |s| as real;
    var gap := (k: nat) => BinGap(s, k);
    var deviation := (k: nat) => Deviation(s, k);
    forall k: nat | k < BIN_COUNT ensures gap(k) == factor * deviation(k) as real { GapScales(s, k); }
    RangeRealSumScales(BIN_COUNT, gap, deviation, factor);
    assert DefinedEce(s) == RangeRealSum(BIN_COUNT, gap);
    assert Deviations(s) == RangeSum(BIN_COUNT, deviation);
    FactorOut(Deviations(s) as real, |s| as real);
  }

  lemma FactorOut(d: real, n: real)
    requires n > 0.0
    ensures d / n == 0.000_001 / n * d * MICROS
  {
    var w := 0.000_001 / n;
    assert w * n == 0.000_001;
    assert (w * d * MICROS) * n == (w * n) * d * MICROS;
    QuotientIs(d, n, w * d * MICROS);
  }

  // ----- Personal base rate -----

  predicate Bits(outcomes: seq<int>) { forall i | 0 <= i < |outcomes| :: outcomes[i] == 0 || outcomes[i] == 1 }

  lemma OthersTotal(outcomes: seq<int>, i: nat)
    requires i < |outcomes|
    ensures Total(outcomes[..i] + outcomes[i + 1..]) == Total(outcomes) - outcomes[i]
  {
    SumWithout(outcomes, i, x => x);
  }

  /** With `m = c - 1` other records, base rate `(p - o) / m` and error `p/m - (c/m) * o`. */
  lemma LeaveOneOutError(p: real, m: real, o: real)
    requires m > 0.0
    ensures (p - o) / m - o == p / m - ((m + 1.0) / m) * o
  {
    var d := 1.0 / m;
    assert (p - o) / m == p / m - o * d;
    assert (m + 1.0) / m == 1.0 + d;
    assert (1.0 + d) * o == o + o * d;
  }

  lemma OthersError(outcomes: seq<int>, i: nat)
    requires i < |outcomes| && |outcomes| >= 2
    ensures var m := (|outcomes| - 1) as real;
      OthersRate(outcomes, i) - outcomes[i] as real
      == Total(outcomes) as real / m - ((m + 1.0) / m) * outcomes[i] as real
  {
    hide Total;
    OthersTotal(outcomes, i);
    LeaveOneOutError(Total(outcomes) as real, (|outcomes| - 1) as real, outcomes[i] as real);
  }

  lemma {:induction false} LeaveOneOutPrefix(outcomes: seq<int>, j: nat)
    requires Bits(outcomes) && j <= |outcomes| && |outcomes| >= 2
    ensures var m := (|outcomes| - 1) as real;
      LeaveOneOut(outcomes, j)
      == Quadratic(j as real, Total(outcomes[..j]) as real, Total(outcomes) as real / m, (m + 1.0) / m)
  {
    hide Quadratic, RealSquare, OthersRate;
    var m := (|outcomes| - 1) as real;
    var a, b := Total(outcomes) as real / m, (m + 1.0) / m;
    if j == 0 {
      QuadraticZero(a, b);
    } else {
      LeaveOneOutPrefix(outcomes, j - 1);
      OthersError(outcomes, j - 1);
      assert outcomes[..j][..j - 1] == outcomes[..j - 1];
      QuadraticStep((j - 1) as real, Total(outcomes[..j - 1]) as real, a, b, outcomes[j - 1]);
    }
  }

  lemma EntityTermArithmetic(p: real, m: real)
    requires m > 0.0
    ensures RealSquare(m) > 0.0
    ensures Quadratic(m + 1.0, p, p / m, (m + 1.0) / m) == p * (m + 1.0 - p) * (m + 1.0) / RealSquare(m)
  {
    var c := m + 1.0;
    var a, b := p / m, c / m;
    assert a * m == p && b * m == c;
    SquarePositive(m);
    var x := Quadratic(c, p, a, b);
    assert (a * a) * (m * m) == (a * m) * (a * m) == p * p;
    assert (a * b) * (m * m) == (a * m) * (b * m) == p * c;
    assert (b * b) * (m * m) == (b * m) * (b * m) == c * c;
    assert x * (m * m) == c * ((a * a) * (m * m)) - 2.0 * (p * ((a * b) * (m * m))) + p * ((b * b) * (m * m));
    assert c * (p * p) - 2.0 * (p * (p * c)) + p * (c * c) == p * (c - p) * c;
    QuotientIs(p * (c - p) * c, RealSquare(m), x);
  }

  lemma EntityTermReal(c: int, p: int)
    requires c >= 2
    ensures Square(c - 1) as real == RealSquare((c - 1) as real) > 0.0
    ensures (p * (c - p) * c) as real == p as real * ((c - 1) as real + 1.0 - p as real) * ((c - 1) as real + 1.0)
  {
    SquarePositive((c - 1) as real);
    SquareReal(c - 1);
    ProductReal(p, c - p);
    ProductReal(p * (c - p), c);
  }

  /** The closed entity term is the sum of the leave-one-out errors, for any outcomes. */
  lemma EntityTermAgrees(outcomes: seq<int>)
    requires Bits(outcomes)
    ensures EntityTerm(|outcomes|, Total(outcomes)) == LeaveOneOut(outcomes, |outcomes|)
  {
    hide Total, LeaveOneOut, Quadratic, RealSquare, Square, Bits;
    var c := |outcomes|;
    if c < 2 {
      EntityTermOfFew(outcomes);
    } else {
      LeaveOneOutPrefix(outcomes, c);
      assert outcomes[..c] == outcomes;
      EntityTermArithmetic(Total(outcomes) as real, (c - 1) as real);
      EntityTermReal(c, Total(outcomes));
    }
  }

  lemma EntityTermOfFew(outcomes: seq<int>)
    requires Bits(outcomes) && |outcomes| < 2
    ensures EntityTerm(|outcomes|, Total(outcomes)) == LeaveOneOut(outcomes, |outcomes|)
  {
    if |outcomes| == 1 {
      assert outcomes[..0] == [];
      assert Total(outcomes) == outcomes[0];
      assert LeaveOneOut(outcomes, 0) == 0.0;
    }
  }

  lemma {:induction false} OutcomesAreBits(s: seq<Rec>, e: bytes)
    requires Scorable(s)
    ensures Bits(OutcomesOf(s, e))
  {
    hide Scorable;
    if s != [] {
      ScorablePrefix(s);
      OutcomesAreBits(s[..|s| - 1], e);
      OutcomeIsBit(s, |s| - 1);
    }
  }

  lemma PersonalAgrees(s: seq<Rec>)
    requires Scorable(s) && |s| > 0
    ensures ClosedPersonal(s) == DefinedPersonal(s) * MICROS
  {
    hide Sum, RealSum, Deviations, Entities, TermOf, DefinedTerm, Scorable, SquaredError, PopulationTerm, Positive,
      Probability, Unfloored;
    var defined := (e: bytes) => (DefinedTerm(s, e) * PBR_UNIT).Floor;
    var entities := Entities(s);
    forall i | 0 <= i < |entities| ensures Floored(s)(entities[i]) == defined(entities[i]) {
      TermsAgree(s, entities[i]);
    }
    SumAgrees(entities, Floored(s), defined);
    assert DefinedPersonal(s) == Sum(entities, defined) as real / (|s| * PBR_SCALE) as real;
    UnitArithmetic(Sum(entities, defined) as real, |s| as real);
  }

  lemma TermsAgree(s: seq<Rec>, e: bytes)
    requires Scorable(s)
    ensures TermOf(s, e) == DefinedTerm(s, e)
  {
    OutcomesAreBits(s, e);
    EntityTermAgrees(OutcomesOf(s, e));
  }

  lemma UnitArithmetic(f: real, n: real)
    requires n > 0.0
    ensures f / (n * 1_000_000_000_000.0) == f / (n * PBR_UNIT) * MICROS
  {
    var x := f / (n * PBR_UNIT);
    assert x * (n * PBR_UNIT) == f;
    assert (x * MICROS) * (n * 1_000_000_000_000.0) == x * (n * PBR_UNIT);
    QuotientIs(f, n * 1_000_000_000_000.0, x * MICROS);
  }

  lemma LiftArithmetic(f: real, e: real, n: real)
    requires n > 0.0
    ensures (f - MICROS * e) / (n * 1_000_000_000_000.0) == f / (n * 1_000_000_000_000.0) - e / (n * MICROS)
  {
    var unit := n * 1_000_000_000_000.0;
    var x, y := f / unit, e / (n * MICROS);
    assert x * unit == f;
    assert y * (n * MICROS) == e;
    assert y * unit == (y * (n * MICROS)) * MICROS;
    QuotientIs(f - MICROS * e, unit, x - y);
  }

  lemma LiftPersonalAgrees(s: seq<Rec>)
    requires |s| > 0
    ensures ClosedLiftPersonal(s) == ClosedPersonal(s) - ClosedBrier(s)
  {
    hide Sum, RealSum, Deviations, Entities, Scorable, SquaredError, PopulationTerm, Positive, Probability,
      Unfloored, Floored;
    LiftArithmetic(Sum(Entities(s), Floored(s)) as real, Sum(s, SquaredError) as real, |s| as real);
  }

  /** The closed formulas are the definitions, exactly. */
  lemma ClosedIsDefined(s: seq<Rec>)
    requires Scorable(s) && |s| > 0
    ensures Closed(s).brier == DefinedBrier(s) * MICROS
    ensures Closed(s).ece == DefinedEce(s) * MICROS
    ensures Closed(s).populationAvg == DefinedPopulationAvg(s) * MICROS
    ensures Closed(s).liftPopulationAvg == (DefinedPopulationAvg(s) - DefinedBrier(s)) * MICROS
    ensures Closed(s).persistence == DefinedPersistence(s) * MICROS
    ensures Closed(s).liftPersistence == (DefinedPersistence(s) - DefinedBrier(s)) * MICROS
    ensures Closed(s).personal == DefinedPersonal(s) * MICROS
    ensures Closed(s).liftPersonal == (DefinedPersonal(s) - DefinedBrier(s)) * MICROS
  {
    hide Scorable, ClosedBrier, ClosedEce, ClosedPopulation, ClosedPersistence, ClosedPersonal, ClosedLiftPersonal;
    hide ClosedLiftUnfloored, DefinedBrier, DefinedEce, DefinedPopulationAvg, DefinedPersistence, DefinedPersonal;
    BrierAgrees(s);
    EceAgrees(s);
    PopulationAgrees(s);
    PersistenceAgrees(s);
    PersonalAgrees(s);
    LiftPersonalAgrees(s);
  }

  lemma MicrosAreDefined(s: seq<Rec>)
    requires Scorable(s) && |s| > 0
    ensures Micros(Closed(s)) == DefinedMicros(s)
  {
    hide Closed, DefinedBrier, DefinedEce, DefinedPopulationAvg, DefinedPersistence, DefinedPersonal, RoundHalfEven,
      Scorable;
    ClosedIsDefined(s);
  }
}
