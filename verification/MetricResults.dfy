/** `MTR1`, the metric result record: how it is computed from an accepted input, and why it always
    fits its size bound. */
module MetricResults {
  import opened Commons
  import opened Cbor
  import opened Reading
  import opened MetricInputs
  import opened Metrics
  import opened MetricLaws
  import opened Sums
  import LooseDecoder

  const MAX_MTR1_BYTES := 1024
  const RESULT_MAGIC: bytes := Ascii("MTR1")
  const INPUT_DOMAIN: bytes := Ascii("PiglorOS.MetricInput.v1\0")
  const RESULT_DOMAIN: bytes := Ascii("PiglorOS.MetricResult.v1\0")

  // ----- Counts, bins and state -----

  function InState(state: nat): (f: Rec -> int)
    ensures forall r :: f(r) == if r.state == state then 1 else 0
  {
    (r: Rec) => if r.state == state then 1 else 0
  }

  function Supplied(r: Rec): int { if r.supplied then 1 else 0 }

  function EntitySet(s: seq<Rec>): set<bytes> { set i | 0 <= i < |s| :: s[i].entityId }

  function Counts(records: seq<Rec>): seq<int> {
    var s := Scored(records);
    [|records|, |s|, Sum(records, InState(PENDING)), Sum(records, InState(REDACTED)),
     Sum(records, InState(UNAVAILABLE)), Sum(s, Supplied), |EntitySet(s)|]
  }

  function BinRow(s: seq<Rec>, k: nat): (row: seq<int>)
    ensures |row| == 3
  {
    [BinSize(s, k), BinSum(s, k), BinPositives(s, k)]
  }

  function BinTable(s: seq<Rec>): (t: seq<seq<int>>)
    ensures |t| == BIN_COUNT
  {
    seq(BIN_COUNT, k requires 0 <= k < BIN_COUNT => BinRow(s, k))
  }

  /** The weakest state wins. */
  function RedactionState(records: seq<Rec>): nat {
    if exists i | 0 <= i < |records| :: records[i].state == UNAVAILABLE then 3
    else if exists i | 0 <= i < |records| :: records[i].state == REDACTED then 1
    else 0
  }

  // ----- The record -----

  function Ints(xs: seq<int>): (v: Value)
    ensures v.Arr? && |v.items| == |xs|
  {
    Arr(seq(|xs|, i requires 0 <= i < |xs| => Int(xs[i])))
  }

  function Rows(t: seq<seq<int>>): (v: Value)
    ensures v.Arr? && |v.items| == |t|
  {
    Arr(seq(|t|, i requires 0 <= i < |t| => Ints(t[i])))
  }

  predicate Computed(m: MetricInput) { |Scored(m.records)| >= m.minimum }

  /** Fields 0 to 11 of the result for the input bytes `data`. */
  function ResultFields(hash: Hash, data: bytes, m: MetricInput): seq<Value>
    requires m.minimum >= 1
  {
    var s := Scored(m.records);
    [Text(RESULT_MAGIC), Int(1), Text(ALGORITHM_ID), Int(1), Int(0), Bytes(hash(INPUT_DOMAIN + data)),
     Int(if Computed(m) then 0 else 1), Ints(Counts(m.records)), Int(m.minimum), Int(RedactionState(m.records)),
     if Computed(m) then Ints(Micros(Closed(s))) else Null,
     if Computed(m) then Rows(BinTable(s)) else Null]
  }

  /** The result digest covers the encoding of the fields; a record over the bound is refused. */
  function Seal(hash: Hash, fields: seq<Value>): Option<bytes>
    requires Encodable(Arr(fields))
    requires Encodable(Arr(fields + [Bytes(hash(RESULT_DOMAIN + Enc(Arr(fields))))]))
  {
    var encoded := Enc(Arr(fields + [Bytes(hash(RESULT_DOMAIN + Enc(Arr(fields))))]));
    if |encoded| > MAX_MTR1_BYTES then None else Some(encoded)
  }

  // ----- Sizes -----

  /** `v` encodes in at most `n` bytes. */
  predicate Small(v: Value, n: int) { Encodable(v) && |Enc(v)| <= n }

  lemma SmallInt(i: int)
    requires -0x1_0000_0000 <= i < 0x1_0000_0000
    ensures Small(Int(i), 5)
  {
  }

  lemma SmallWide(i: int)
    requires 0 <= i < ARGUMENT_LIMIT
    ensures Small(Int(i), 9)
  {
  }

  lemma {:induction false} SmallItems(items: seq<Value>, n: nat)
    requires forall k | 0 <= k < |items| :: Small(items[k], n)
    ensures AllEncodable(items) && |EncAll(items)| <= |items| * n
  {
    hide Enc;
    if items != [] {
      assert Small(items[0], n);
      SmallItems(items[1..], n);
      assert |items| * n == (|items| - 1) * n + n;
    }
  }

  lemma SmallArray(items: seq<Value>, n: nat)
    requires |items| < 24 && forall k | 0 <= k < |items| :: Small(items[k], n)
    ensures Small(Arr(items), 1 + |items| * n)
  {
    SmallItems(items, n);
  }

  lemma SmallInts(xs: seq<int>)
    requires |xs| < 24 && forall i | 0 <= i < |xs| :: -0x1_0000_0000 <= xs[i] < 0x1_0000_0000
    ensures Small(Ints(xs), 1 + 5 * |xs|)
  {
    forall i | 0 <= i < |xs| ensures Small(Ints(xs).items[i], 5) { SmallInt(xs[i]); }
    SmallArray(Ints(xs).items, 5);
  }

  lemma SmallRows(t: seq<seq<int>>)
    requires |t| == BIN_COUNT
    requires forall k | 0 <= k < BIN_COUNT :: |t[k]| == 3 && forall j | 0 <= j < 3 :: 0 <= t[k][j] < ARGUMENT_LIMIT
    ensures Small(Rows(t), 1 + BIN_COUNT * 28)
  {
    hide Small;
    forall k | 0 <= k < BIN_COUNT ensures Small(Rows(t).items[k], 28) {
      var row := Ints(t[k]);
      forall j | 0 <= j < 3 ensures Small(row.items[j], 9) { SmallWide(t[k][j]); }
      SmallArray(row.items, 9);
    }
    SmallArray(Rows(t).items, 28);
  }

  lemma {:induction false} CountRange(records: seq<Rec>, g: Rec -> int)
    requires forall r :: 0 <= g(r) <= 1
    ensures 0 <= Sum(records, g) <= |records|
  {
    SumBounds(records, g, 0, 1);
  }

  lemma EntitySetSmall(s: seq<Rec>)
    ensures |EntitySet(s)| == |Entities(s)| <= |s|
  {
    EntitiesAreDistinct(s);
    var es := Entities(s);
    assert forall e :: e in EntitySet(s) <==> HasEntity(s, e);
    assert EntitySet(s) == Elements(es);
    DistinctSize(es);
  }

  lemma CountsRange(m: MetricInput)
    requires ValidInput(m)
    ensures |Counts(m.records)| == 7 && forall i | 0 <= i < 7 :: 0 <= Counts(m.records)[i] <= MAX_RECORDS
  {
    hide ValidRecord, Sum, EntitySet, Scored;
    var s := Scored(m.records);
    ScoredIsScorable(m.records);
    CountRange(m.records, InState(PENDING));
    CountRange(m.records, InState(REDACTED));
    CountRange(m.records, InState(UNAVAILABLE));
    CountRange(s, Supplied);
    EntitySetSmall(s);
  }

  lemma BinRowRange(s: seq<Rec>, k: nat)
    requires Scorable(s) && |s| <= MAX_RECORDS
    ensures forall j | 0 <= j < 3 :: 0 <= BinRow(s, k)[j] < ARGUMENT_LIMIT
  {
    hide Sum;
    forall i | 0 <= i < |s|
      ensures 0 <= InBin(k, One)(s[i]) <= D
      ensures 0 <= InBin(k, Probability)(s[i]) <= D && 0 <= InBin(k, Positive)(s[i]) <= D
    {
      OutcomeIsBit(s, i);
    }
    SumBounds(s, InBin(k, One), 0, D);
    SumBounds(s, InBin(k, Probability), 0, D);
    SumBounds(s, InBin(k, Positive), 0, D);
  }

  lemma EncAllTwo(a: Value, b: Value)
    requires Encodable(a) && Encodable(b)
    ensures EncAll([a, b]) == Enc(a) + Enc(b)
  {
    hide Enc;
    assert [a, b][1..] == [b] && [b][1..] == [];
    assert EncAll([b]) == Enc(b) + EncAll([]);
  }

  lemma SmallText(c: bytes)
    requires |c| <= 34
    ensures Small(Text(c), 36) && Small(Bytes(c), 36)
  {
  }

  /** Fields of bounded size make a record within the bound. */
  lemma SmallRecord(items: seq<Value>)
    requires |items| == 13
    requires forall k | 0 <= k < 10 :: Small(items[k], 36)
    requires Small(items[10], 46) && Small(items[11], 281) && Small(items[12], 36)
    ensures Small(Arr(items), MAX_MTR1_BYTES)
  {
    hide Enc, Encodable;
    SmallItems(items[..10], 36);
    assert AllEncodable(items) by {
      forall k | 0 <= k < 13 ensures Encodable(items[k]) { if k < 10 { assert Small(items[k], 36); } }
    }
    EncAllSplits(items, 10);
    assert items[11..] == [items[11], items[12]];
    EncAllTwo(items[11], items[12]);
    ShortArray(items);
  }

  lemma ShortArray(items: seq<Value>)
    requires |items| < 24 && AllEncodable(items)
    ensures Encodable(Arr(items)) && |Enc(Arr(items))| == 1 + |EncAll(items)|
  {
  }

  lemma ComputedFieldsSmall(m: MetricInput)
    requires ValidInput(m) && Computed(m)
    ensures Small(Ints(Micros(Closed(Scored(m.records)))), 46) && Small(Rows(BinTable(Scored(m.records))), 281)
  {
    hide Small, Closed, Micros, ValidRecord, Scored, BinRow;
    var s := Scored(m.records);
    ScoredIsScorable(m.records);
    MicrosRanges(s);
    SmallInts(Micros(Closed(s)));
    forall k | 0 <= k < BIN_COUNT
      ensures |BinTable(s)[k]| == 3 && forall j | 0 <= j < 3 :: 0 <= BinTable(s)[k][j] < ARGUMENT_LIMIT
    {
      BinRowRange(s, k);
    }
    SmallRows(BinTable(s));
  }

  lemma NullIsSmall()
    ensures Small(Null, 36)
  {
  }

  lemma ResultFieldsSmall(hash: Hash, data: bytes, m: MetricInput)
    requires ValidInput(m) && Digests(hash)
    ensures var f := ResultFields(hash, data, m);
      && |f| == 12 && (forall k | 0 <= k < 10 :: Small(f[k], 36)) && Small(f[10], 46) && Small(f[11], 281)
  {
    hide Counts, Micros, Closed, BinTable, Scored, ValidRecord, RedactionState, Ints, Rows;
    SmallText(RESULT_MAGIC);
    SmallText(ALGORITHM_ID);
    SmallText(hash(INPUT_DOMAIN + data));
    CountsRange(m);
    SmallInts(Counts(m.records));
    SmallInt(m.minimum);
    NullIsSmall();
    RedactionSmall(m.records);
    SmallInt(1);
    SmallInt(0);
    SmallInt(RedactionState(m.records));
    if Computed(m) {
      ComputedFieldsSmall(m);
    }
  }

  lemma RedactionSmall(records: seq<Rec>)
    ensures RedactionState(records) <= 3
  {
  }

  /** The result of every valid input seals: the size guard never fires. */
  lemma SealNeverRefuses(hash: Hash, data: bytes, m: MetricInput)
    requires ValidInput(m) && Digests(hash)
    ensures var fields := ResultFields(hash, data, m);
      && Encodable(Arr(fields))
      && Encodable(Arr(fields + [Bytes(hash(RESULT_DOMAIN + Enc(Arr(fields))))]))
      && Seal(hash, fields).Some?
  {
    hide ResultFields, Small, Enc, Encodable;
    var fields := ResultFields(hash, data, m);
    ResultFieldsSmall(hash, data, m);
    FieldsEncodable(fields);
    var digest := Bytes(hash(RESULT_DOMAIN + Enc(Arr(fields))));
    SmallText(hash(RESULT_DOMAIN + Enc(Arr(fields))));
    var items := fields + [digest];
    forall k | 0 <= k < 10 ensures Small(items[k], 36) { assert items[k] == fields[k]; }
    SmallRecord(items);
    SmallIs(Arr(items), MAX_MTR1_BYTES);
  }

  /** An array of numbers, or of arrays of numbers. */
  predicate Numeric(v: Value) {
    v.Arr? ==> forall k | 0 <= k < |v.items| ::
      v.items[k].Int? || (v.items[k].Arr? && forall j | 0 <= j < |v.items[k].items| :: v.items[k].items[j].Int?)
  }

  lemma NumericIsShallow(utf8: LooseDecoder.Utf8, v: Value, level: nat)
    requires Numeric(v) && level <= 2 && (v.Text? ==> utf8(v.content))
    ensures Fits(v, level) && LooseDecoder.TextsAre(utf8, v)
  {
  }

  lemma FieldsAreNumeric(hash: Hash, data: bytes, m: MetricInput)
    requires m.minimum >= 1
    ensures var f := ResultFields(hash, data, m);
      && |f| == 12 && (forall k | 0 <= k < 12 :: Numeric(f[k]))
      && forall k | 0 <= k < 12 && f[k].Text? :: f[k].content == RESULT_MAGIC || f[k].content == ALGORITHM_ID
  {
    hide Counts, Micros, Closed, BinTable, RedactionState, Computed, RESULT_MAGIC, ALGORITHM_ID;
  }

  /** What was sealed can be decoded again: the twelve fields, then the digest of their encoding. */
  lemma SealedDecodes(utf8: LooseDecoder.Utf8, hash: Hash, data: bytes, m: MetricInput)
    requires ValidInput(m) && Digests(hash) && utf8(RESULT_MAGIC) && utf8(ALGORITHM_ID)
    ensures var fields := ResultFields(hash, data, m);
      && Encodable(Arr(fields))
      && var digest := Bytes(hash(RESULT_DOMAIN + Enc(Arr(fields))));
      && Encodable(Arr(fields + [digest])) && Seal(hash, fields).Some?
      && LooseDecoder.Decode(utf8, Seal(hash, fields).value) == Some(Arr(fields + [digest]))
  {
    SealNeverRefuses(hash, data, m);
    FieldsAreNumeric(hash, data, m);
    hide ResultFields, Enc, Encodable, Numeric, LooseDecoder.Decode, RESULT_MAGIC, ALGORITHM_ID;
    var fields := ResultFields(hash, data, m);
    var digest := Bytes(hash(RESULT_DOMAIN + Enc(Arr(fields))));
    var items := fields + [digest];
    forall k | 0 <= k < |items| ensures Fits(items[k], 2) && LooseDecoder.TextsAre(utf8, items[k]) {
      if k < 12 {
        NumericIsShallow(utf8, fields[k], 2);
      }
    }
    LooseDecoder.DecodeInvertsEnc(utf8, Arr(items));
  }

  lemma SmallIs(v: Value, n: nat)
    requires Small(v, n)
    ensures Encodable(v) && |Enc(v)| <= n
  {
  }

  lemma FieldsEncodable(fields: seq<Value>)
    requires |fields| == 12 && forall k | 0 <= k < 10 :: Small(fields[k], 36)
    requires Small(fields[10], 46) && Small(fields[11], 281)
    ensures Encodable(Arr(fields))
  {
    hide Enc;
    forall k | 0 <= k < 12 ensures Encodable(fields[k]) { if k < 10 { assert Small(fields[k], 36); } }
  }

  // ----- What the result conserves and what it ignores -----

  /** Every record is scored, pending, redacted or unavailable, and counted once. */
  lemma {:induction false} CountsConserve(records: seq<Rec>)
    requires forall i | 0 <= i < |records| :: ValidRecord(records[i])
    ensures var c := Counts(records); c[0] == c[1] + c[2] + c[3] + c[4]
  {
    hide EntitySet, Supplied;
    if records != [] {
      var n := |records| - 1;
      CountsConserve(records[..n]);
      assert ValidRecord(records[n]);
    }
  }

  /** The kind, the metrics and the bins depend only on the minimum and on which records are scored,
      not on their order and not on any other record. */
  lemma OtherRecordsDoNotInterfere(hash: Hash, x: bytes, y: bytes, a: MetricInput, b: MetricInput)
    requires a.minimum == b.minimum >= 1
    requires multiset(Scored(a.records)) == multiset(Scored(b.records))
    ensures var (f, g) := (ResultFields(hash, x, a), ResultFields(hash, y, b));
      f[6] == g[6] && f[10] == g[10] && f[11] == g[11]
  {
    hide Scored, Micros, Closed, BinRow, Counts, RedactionState, Ints, Rows;
    var s, t := Scored(a.records), Scored(b.records);
    assert |s| == |multiset(s)| == |multiset(t)| == |t|;
    if Computed(a) {
      MicrosPermute(s, t);
    }
    forall k | 0 <= k < BIN_COUNT ensures BinRow(s, k) == BinRow(t, k) { RowsPermute(s, t, k); }
    assert BinTable(s) == BinTable(t);
  }

  lemma RowsPermute(s: seq<Rec>, t: seq<Rec>, k: nat)
    requires multiset(s) == multiset(t)
    ensures BinRow(s, k) == BinRow(t, k)
  {
    BinsPermute(s, t, k);
  }

  /** Reordering the records changes nothing in the result but the two digests. */
  lemma OrderFixesNoValue(hash: Hash, x: bytes, y: bytes, a: MetricInput, b: MetricInput)
    requires a.minimum == b.minimum >= 1 && multiset(a.records) == multiset(b.records)
    ensures var (f, g) := (ResultFields(hash, x, a), ResultFields(hash, y, b));
      forall k | 0 <= k < 12 && k != 5 :: f[k] == g[k]
  {
    hide Scored, Micros, Closed, BinTable, Counts, RedactionState, Ints, Rows;
    ScoredPermutes(a.records, b.records);
    OtherRecordsDoNotInterfere(hash, x, y, a, b);
    CountsPermute(a.records, b.records);
    RedactionPermutes(a.records, b.records);
  }

  lemma CountsPermute(a: seq<Rec>, b: seq<Rec>)
    requires multiset(a) == multiset(b)
    ensures Counts(a) == Counts(b)
  {
    hide Sum, Scored, EntitySet;
    var s, t := Scored(a), Scored(b);
    ScoredPermutes(a, b);
    assert |a| == |multiset(a)| == |multiset(b)| == |b|;
    assert |s| == |multiset(s)| == |multiset(t)| == |t|;
    SumPermutes(a, b, InState(PENDING));
    SumPermutes(a, b, InState(REDACTED));
    SumPermutes(a, b, InState(UNAVAILABLE));
    SumPermutes(s, t, Supplied);
    EntitySetSmall(s);
    EntitySetSmall(t);
    EntitiesPermute(s, t);
    assert |Entities(s)| == |multiset(Entities(s))| == |multiset(Entities(t))| == |Entities(t)|;
  }

  predicate HasState(records: seq<Rec>, state: nat) {
    exists i | 0 <= i < |records| :: records[i].state == state
  }

  lemma HasStatePermutes(a: seq<Rec>, b: seq<Rec>, state: nat)
    requires multiset(a) == multiset(b) && HasState(a, state)
    ensures HasState(b, state)
  {
    var i :| 0 <= i < |a| && a[i].state == state;
    assert a[i] in multiset(b);
    var j :| 0 <= j < |b| && b[j] == a[i];
  }

  lemma RedactionPermutes(a: seq<Rec>, b: seq<Rec>)
    requires multiset(a) == multiset(b)
    ensures RedactionState(a) == RedactionState(b)
  {
    if HasState(a, UNAVAILABLE) { HasStatePermutes(a, b, UNAVAILABLE); }
    if HasState(b, UNAVAILABLE) { HasStatePermutes(b, a, UNAVAILABLE); }
    if HasState(a, REDACTED) { HasStatePermutes(a, b, REDACTED); }
    if HasState(b, REDACTED) { HasStatePermutes(b, a, REDACTED); }
  }

  // ----- The computation as it runs -----

  method TabulateBins(s: seq<Rec>) returns (t: seq<seq<int>>)
    ensures t == BinTable(s)
  {
    hide BinSize, BinSum, BinPositives, BinOf, Outcome;
    var table := new int[BIN_COUNT, 3]((i, j) => 0);
    forall k: nat ensures BinSize([], k) == BinSum([], k) == BinPositives([], k) == 0 { EmptySums(k); }
    assert s[..0] == [];
    for i := 0 to |s|
      invariant forall k: nat | k < BIN_COUNT ::
        table[k, 0] == BinSize(s[..i], k) && table[k, 1] == BinSum(s[..i], k) && table[k, 2] == BinPositives(s[..i], k)
    {
      var r := s[i];
      var row := BinOf(r.probability);
      BinInRange(r.probability);
      var next := s[..i + 1];
      assert next[..|next| - 1] == s[..i];
      forall k: nat | k < BIN_COUNT
        ensures BinSize(next, k) == BinSize(s[..i], k) + (if k == row then 1 else 0)
        ensures BinSum(next, k) == BinSum(s[..i], k) + (if k == row then r.probability else 0)
        ensures BinPositives(next, k) == BinPositives(s[..i], k) + (if k == row then Outcome(r) else 0)
      {
        BinStep(next, k);
      }
      table[row, 0] := table[row, 0] + 1;
      table[row, 1] := table[row, 1] + r.probability;
      table[row, 2] := table[row, 2] + Outcome(r);
    }
    assert s[..|s|] == s;
    t := [];
    for k := 0 to BIN_COUNT
      invariant |t| == k && forall j | 0 <= j < k :: t[j] == BinRow(s, j)
    {
      t := t + [[table[k, 0], table[k, 1], table[k, 2]]];
    }
  }

  /** The entities in first-appearance order and their outcomes, as one dictionary pass builds them. */
  method GroupByEntity(s: seq<Rec>) returns (order: seq<bytes>, groups: map<bytes, seq<int>>)
    ensures order == Entities(s)
    ensures forall e | e in order :: e in groups && groups[e] == OutcomesOf(s, e)
  {
    order, groups := [], map[];
    for i := 0 to |s|
      invariant order == Entities(s[..i])
      invariant forall e :: e in groups <==> e in order
      invariant forall e | e in groups :: groups[e] == OutcomesOf(s[..i], e)
    {
      var r := s[i];
      var next := s[..i + 1];
      assert next[..|next| - 1] == s[..i];
      forall e | e != r.entityId ensures OutcomesOf(next, e) == OutcomesOf(s[..i], e) {
        assert OutcomesOf(s[..i], e) + [] == OutcomesOf(s[..i], e);
      }
      if r.entityId !in groups {
        AbsentEntity(s[..i], r.entityId);
        order := order + [r.entityId];
        groups := groups[r.entityId := []];
      }
      groups := groups[r.entityId := groups[r.entityId] + [Outcome(r) as int]];
    }
    assert s[..|s|] == s;
  }

  method SumDeviations(s: seq<Rec>) returns (deviations: int)
    ensures deviations == Deviations(s)
  {
    hide BinSize, BinSum, BinPositives;
    var table := TabulateBins(s);
    deviations := 0;
    for k := 0 to BIN_COUNT
      invariant deviations == RangeSum(k, (j: nat) => Deviation(s, j))
    {
      deviations := deviations + Abs(table[k][1] - D * table[k][2]);
    }
  }

  method SumEntityTerms(s: seq<Rec>) returns (floored: int, unfloored: real)
    ensures floored == Sum(Entities(s), Floored(s))
    ensures unfloored == RealSum(Entities(s), Unfloored(s))
  {
    hide Sum, RealSum, OutcomesOf, EntityTerm, Total;
    var order, groups := GroupByEntity(s);
    floored, unfloored := 0, 0.0;
    EmptyEntitySums(s);
    for i := 0 to |order|
      invariant floored == Sum(order[..i], Floored(s))
      invariant unfloored == RealSum(order[..i], Unfloored(s))
    {
      var outcomes := groups[order[i]];
      var term := EntityTerm(|outcomes|, Total(outcomes));
      floored := floored + (term * PBR_UNIT).Floor;
      unfloored := unfloored + term * PBR_UNIT;
      assert order[..i + 1] == order[..i] + [order[i]];
      SumSnoc(order[..i], order[i], Floored(s));
      RealSumSnoc(order[..i], order[i], Unfloored(s));
    }
    assert order[..|order|] == order;
  }

  method ExactMetrics(records: seq<Rec>) returns (x: Exact)
    requires |Scored(records)| > 0
    ensures x == Closed(Scored(records))
  {
    hide Sum, RealSum, Deviations, Entities, Floored, Unfloored, PopulationTerm, SquaredError;
    var s := Scored(records);
    var n := |s|;
    var e := Sum(s, SquaredError);
    var deviations := SumDeviations(s);
    var total := Sum(s, Probability);
    var positives := Sum(s, Positive);
    var pop := Sum(s, PopulationTerm(total, n)) as real / (n * n * n * D) as real;
    var model := e as real / (n * D) as real;
    var pers := (positives * (n - positives) * D) as real / (n * n) as real;
    var floored, unfloored := SumEntityTerms(s);
    var unit := (n * 1_000_000_000_000) as real;
    x := Exact(model, deviations as real / n as real, pop, pop - model, pers, pers - model,
               floored as real / unit, (floored - D * e) as real / unit, (unfloored - (D * e) as real) / unit);
  }

  lemma EmptyEntitySums(s: seq<Rec>)
    ensures Sum([], Floored(s)) == 0 && RealSum([], Unfloored(s)) == 0.0
  {
  }

  /** Decode, compute, seal: a result record for every accepted input, and nothing else. */
  method ComputeMtr1(hash: Hash, data: bytes) returns (r: Result<bytes>)
    requires Digests(hash)
    ensures Decode(data).Err? ==> r == Err(Decode(data).failure)
    ensures Decode(data).Ok? ==>
      && r.Ok? && |r.value| <= MAX_MTR1_BYTES && ValidInput(Decode(data).value)
      && Encodable(Arr(ResultFields(hash, data, Decode(data).value)))
      && var fields := ResultFields(hash, data, Decode(data).value);
         r.value == Enc(Arr(fields + [Bytes(hash(RESULT_DOMAIN + Enc(Arr(fields))))]))
  {
    hide Decode, Closed, Counts, RedactionState, Scored, Enc, Mti1, ValidRecord;
    var m :- DecodeMti1(data);
    var s := Scored(m.records);
    var computed := |s| >= m.minimum;
    var metrics, bins := Null, Null;
    if computed {
      var exact := ExactMetrics(m.records);
      metrics := Ints(Micros(exact));
      var table := TabulateBins(s);
      bins := Rows(table);
    }
    var fields :=
      [Text(RESULT_MAGIC), Int(1), Text(ALGORITHM_ID), Int(1), Int(0), Bytes(hash(INPUT_DOMAIN + data)),
       Int(if computed then 0 else 1), Ints(Counts(m.records)), Int(m.minimum), Int(RedactionState(m.records)),
       metrics, bins];
    assert fields == ResultFields(hash, data, m);
    SealNeverRefuses(hash, data, m);
    r := Ok(Seal(hash, fields).value);
  }
}
