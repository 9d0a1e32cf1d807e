/** What the tallies and the scores say about the records themselves. */
module MetricMeanings {
  import opened Commons
  import opened Cbor
  import opened MetricInputs
  import opened Metrics
  import opened MetricLaws
  import opened MetricResults
  import opened Sums

  // ----- Counting -----

  /** How many records meet `p`. */
  function Count(s: seq<Rec>, p: Rec -> bool): nat { |Places(s, p)| }

  lemma OutcomeIs(s: seq<Rec>, i: nat)
    requires Scorable(s) && i < |s|
    ensures s[i].outcome == Some(0) || s[i].outcome == Some(1)
    ensures Positive(s[i]) == if s[i].outcome == Some(1) then 1 else 0
  {
  }

  // ----- Brier score -----

  lemma {:induction false} SumIsZeroIff<T>(s: seq<T>, g: T -> int)
    requires forall i | 0 <= i < |s| :: g(s[i]) >= 0
    ensures Sum(s, g) >= 0
    ensures Sum(s, g) == 0 <==> forall i | 0 <= i < |s| :: g(s[i]) == 0
  {
    if s != [] {
      var n := |s| - 1;
      SumIsZeroIff(s[..n], g);
      assert forall i | 0 <= i < n :: s[..n][i] == s[i];
    }
  }

  /** The forecast that an outcome proves right. */
  predicate Perfect(r: Rec) {
    (r.outcome == Some(1) ==> r.probability == 1_000_000) && (r.outcome == Some(0) ==> r.probability == 0)
  }

  lemma PerfectIff(s: seq<Rec>, i: nat)
    requires Scorable(s) && i < |s|
    ensures SquaredError(s[i]) >= 0 && (SquaredError(s[i]) == 0 <==> Perfect(s[i]))
  {
    OutcomeIs(s, i);
    var e := Error(s[i]);
    assert e == 0 <==> Perfect(s[i]);
    assert e * e >= 0 && (e * e == 0 <==> e == 0);
  }

  lemma QuotientIsZero(a: int, b: int)
    requires b > 0
    ensures a as real / b as real == 0.0 <==> a == 0
  {
  }

  /** The Brier score is zero exactly when every record that happened was certain and every other one
      was ruled out. */
  lemma BrierIsZeroIff(s: seq<Rec>)
    requires Scorable(s) && |s| > 0
    ensures ClosedBrier(s) == 0.0
       <==> forall i | 0 <= i < |s| ::
              (s[i].outcome == Some(1) ==> s[i].probability == 1_000_000)
              && (s[i].outcome == Some(0) ==> s[i].probability == 0)
  {
    forall i | 0 <= i < |s| ensures SquaredError(s[i]) >= 0 && (SquaredError(s[i]) == 0 <==> Perfect(s[i])) {
      PerfectIff(s, i);
    }
    hide Scorable, SquaredError, Sum;
    SumIsZeroIff(s, SquaredError);
    QuotientIsZero(Sum(s, SquaredError), |s| * D);
    assert forall i | 0 <= i < |s| :: Perfect(s[i]) <==> SquaredError(s[i]) == 0;
  }

  // ----- Bins and entities -----

  /** Bin `k` holds the probabilities of the `k`-th tenth; the last one holds 1 too. */
  predicate Within(k: nat, p: nat) { k * 100_000 <= p < (k + 1) * 100_000 || (k == 9 && p == 1_000_000) }

  lemma BinIs(k: nat, p: nat)
    requires k < 10 && p <= 1_000_000
    ensures BinOf(p) == k <==> Within(k, p)
  {
  }

  /** The columns of a bin are the number of its records and of those that happened. */
  lemma BinRowCounts(s: seq<Rec>, k: nat)
    requires Scorable(s) && k < 10
    ensures BinPositives(s, k) == Count(s, (r: Rec) => Within(k, r.probability) && r.outcome == Some(1))
    ensures BinRow(s, k)[0] == Count(s, (r: Rec) => Within(k, r.probability))
    ensures BinRow(s, k)[2] == Count(s, (r: Rec) => Within(k, r.probability) && r.outcome == Some(1))
  {
    forall i | 0 <= i < |s|
      ensures s[i].probability <= D && Positive(s[i]) == if s[i].outcome == Some(1) then 1 else 0
      ensures BinOf(s[i].probability) == k <==> Within(k, s[i].probability)
    {
      OutcomeIs(s, i);
      BinIs(k, s[i].probability);
    }
    hide Scorable, BinOf, Within, Positive;
    SumCounts(s, InBin(k, One), (r: Rec) => Within(k, r.probability));
    SumCounts(s, InBin(k, Positive), (r: Rec) => Within(k, r.probability) && r.outcome == Some(1));
  }

  /** An entity's outcomes number its records, and sum to those of them that happened. */
  lemma EntityCounts(s: seq<Rec>, e: bytes)
    requires Scorable(s)
    ensures |OutcomesOf(s, e)| == Count(s, (r: Rec) => r.entityId == e)
    ensures Total(OutcomesOf(s, e)) == Count(s, (r: Rec) => r.entityId == e && r.outcome == Some(1))
  {
    hide OutcomesOf, Total;
    OutcomesAsSums(s, e);
    forall i | 0 <= i < |s| ensures Positive(s[i]) == if s[i].outcome == Some(1) then 1 else 0 {
      OutcomeIs(s, i);
    }
    hide Scorable, Positive;
    SumCounts(s, OfEntity(e, One), (r: Rec) => r.entityId == e);
    SumCounts(s, OfEntity(e, Positive), (r: Rec) => r.entityId == e && r.outcome == Some(1));
  }

  /** The positive records of the whole list. */
  lemma PositivesCount(s: seq<Rec>)
    requires Scorable(s)
    ensures Sum(s, Positive) == Count(s, (r: Rec) => r.outcome == Some(1))
  {
    forall i | 0 <= i < |s| ensures Positive(s[i]) == if s[i].outcome == Some(1) then 1 else 0 {
      OutcomeIs(s, i);
    }
    hide Scorable, Positive;
    SumCounts(s, Positive, (r: Rec) => r.outcome == Some(1));
  }

  // ----- The counts of the result -----

  lemma {:induction false} ScoredPlaces(records: seq<Rec>, p: Rec -> bool)
    ensures Count(Scored(records), p) == Count(records, (r: Rec) => r.state == 0 && p(r))
  {
    var q := (r: Rec) => r.state == 0 && p(r);
    if records == [] {
      assert Places(Scored(records), p) == {} == Places(records, q);
    } else {
      hide Places;
      var n := |records| - 1;
      ScoredPlaces(records[..n], p);
      PlacesStep(records, q);
      if records[n].state == 0 {
        var s := Scored(records);
        assert s[..|s| - 1] == Scored(records[..n]) && s[|s| - 1] == records[n];
        PlacesStep(s, p);
      } else {
        assert Scored(records) == Scored(records[..n]);
      }
    }
  }

  lemma AllPlaces(s: seq<Rec>)
    ensures Count(s, (r: Rec) => true) == |s|
  {
    SumCounts(s, One, (r: Rec) => true);
    OnesAdd(s);
  }

  lemma {:induction false} OnesAdd(s: seq<Rec>)
    ensures Sum(s, One) == |s|
  {
    if s != [] { OnesAdd(s[..|s| - 1]); }
  }

  /** The counts of a result: all records, then those observed, pending, redacted, unavailable, then
      the observed ones that were supplied. */
  lemma CountsCount(records: seq<Rec>)
    ensures var c := Counts(records);
      && |c| == 7 && c[0] == |records|
      && c[1] == Count(records, (r: Rec) => r.state == 0)
      && c[2] == Count(records, (r: Rec) => r.state == 1)
      && c[3] == Count(records, (r: Rec) => r.state == 2)
      && c[4] == Count(records, (r: Rec) => r.state == 3)
      && c[5] == Count(records, (r: Rec) => r.state == 0 && r.supplied)
  {
    hide Scored, Places, EntitySet;
    var s := Scored(records);
    SumCounts(records, InState(PENDING), (r: Rec) => r.state == 1);
    SumCounts(records, InState(REDACTED), (r: Rec) => r.state == 2);
    SumCounts(records, InState(UNAVAILABLE), (r: Rec) => r.state == 3);
    SumCounts(s, Supplied, (r: Rec) => r.supplied);
    ScoredPlaces(records, (r: Rec) => r.supplied);
    SamePlaces(
      records, (r: Rec) => r.state == 0 && ((x: Rec) => x.supplied)(r), (r: Rec) => r.state == 0 && r.supplied);
    ScoredPlaces(records, (r: Rec) => true);
    SamePlaces(records, (r: Rec) => r.state == 0 && ((x: Rec) => true)(r), (r: Rec) => r.state == 0);
    AllPlaces(s);
  }

  lemma SamePlaces(s: seq<Rec>, p: Rec -> bool, q: Rec -> bool)
    requires forall i | 0 <= i < |s| :: p(s[i]) == q(s[i])
    ensures Count(s, p) == Count(s, q)
  {
    assert Places(s, p) == Places(s, q);
  }

  /** Seventh, the entities that some observed record names. */
  lemma EntitiesCount(records: seq<Rec>)
    ensures Counts(records)[6] == |set i: nat | i < |records| && records[i].state == 0 :: records[i].entityId|
  {
    var named := set i: nat | i < |records| && records[i].state == 0 :: records[i].entityId;
    forall e ensures e in EntitySet(Scored(records)) <==> e in named {
      ScoredNames(records, e);
    }
    assert EntitySet(Scored(records)) == named;
  }

  lemma {:induction false} ScoredNames(records: seq<Rec>, e: bytes)
    ensures HasEntity(Scored(records), e)
       <==> exists i | 0 <= i < |records| :: records[i].state == 0 && records[i].entityId == e
  {
    if records != [] {
      var n := |records| - 1;
      ScoredNames(records[..n], e);
      assert forall i | 0 <= i < n :: records[..n][i] == records[i];
      if records[n].state == 0 {
        var s := Scored(records);
        assert s[..|s| - 1] == Scored(records[..n]) && s[|s| - 1] == records[n];
        HasEntityStep(s, e);
      } else {
        assert Scored(records) == Scored(records[..n]);
      }
    }
  }

  lemma ComputedIff(m: MetricInput)
    ensures Computed(m) <==> Count(m.records, (r: Rec) => r.state == 0) >= m.minimum
  {
    hide Places, Scored, EntitySet;
    CountsCount(m.records);
    assert Counts(m.records)[1] == |Scored(m.records)|;
  }

  /** Field 6 tells whether enough records were observed; if so, the metrics as they are defined and
      the bins follow in fields 10 and 11, and if not, neither does. */
  predicate Reports(fields: seq<Value>, m: MetricInput) {
    var s := Scored(m.records);
    && |fields| == 12 && fields[7] == Ints(Counts(m.records)) && fields[8] == Int(m.minimum)
    && if Count(m.records, (r: Rec) => r.state == 0) >= m.minimum
       then s != [] && fields[6] == Int(0) && fields[10] == Ints(DefinedMicros(s)) && fields[11] == Rows(BinTable(s))
       else fields[6] == Int(1) && fields[10] == Null && fields[11] == Null
  }

  lemma FieldsShow(hash: Hash, data: bytes, m: MetricInput)
    requires m.minimum >= 1
    ensures var (fields, s) := (ResultFields(hash, data, m), Scored(m.records));
      && |fields| == 12 && fields[7] == Ints(Counts(m.records)) && fields[8] == Int(m.minimum)
      && fields[6] == Int(if Computed(m) then 0 else 1)
      && fields[10] == (if Computed(m) then Ints(Micros(Closed(s))) else Null)
      && fields[11] == (if Computed(m) then Rows(BinTable(s)) else Null)
  {
    hide Counts, Closed, Micros, BinTable, RedactionState, Ints, Rows, Scored, RESULT_MAGIC, ALGORITHM_ID, INPUT_DOMAIN;
  }

  lemma ResultMeans(hash: Hash, data: bytes, m: MetricInput)
    requires ValidInput(m)
    ensures Reports(ResultFields(hash, data, m), m)
  {
    FieldsShow(hash, data, m);
    ComputedIff(m);
    ScoredIsScorable(m.records);
    hide Counts, Closed, DefinedMicros, Micros, BinTable, Scorable, Count, Ints, Rows, ResultFields, Scored;
    if Computed(m) {
      MicrosAreDefined(Scored(m.records));
    }
  }

  /** What one record says about the whole result: an unavailable one weighs most. */
  function Weight(r: Rec): nat { if r.state == 3 then 3 else if r.state == 2 then 1 else 0 }

  /** The state of a result is the heaviest state of its records. */
  lemma RedactionIsTheHeaviest(records: seq<Rec>)
    ensures forall r | r in records :: Weight(r) <= RedactionState(records)
    ensures RedactionState(records) == 0 || exists r :: r in records && Weight(r) == RedactionState(records)
  {
    if RedactionState(records) == 3 {
      var i :| 0 <= i < |records| && records[i].state == UNAVAILABLE;
      assert records[i] in records && Weight(records[i]) == 3;
    } else if RedactionState(records) == 1 {
      var i :| 0 <= i < |records| && records[i].state == REDACTED;
      assert records[i] in records && Weight(records[i]) == 1;
    }
  }
}
