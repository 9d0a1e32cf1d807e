/** Benchmark evidence: parsing the raw samples, comparing two datasets, and choosing the newest
    trusted baseline. */
module Baselines {
  import opened Commons
  import opened Sums
  import opened Sorting

  const SAMPLE_COUNT := 10
  const CSV_HEADER := ["scenario", "cardinality", "sample", "elapsed_nanos"]

  datatype ScenarioKey = ScenarioKey(scenario: string, cardinality: nat)
  datatype Sample = Sample(key: ScenarioKey, index: nat, elapsed: nat)
  type Inventory = seq<ScenarioKey>
  type Dataset = map<ScenarioKey, seq<nat>>
  type Row = seq<string>

  // ----- Rows -----

  predicate IsDigit(c: char) { '0' <= c <= '9' }

  function Decimal(s: string): nat
    requires forall i | 0 <= i < |s| :: IsDigit(s[i])
  {
    if s == [] then 0 else
      assert IsDigit(s[|s| - 1]);
      10 * Decimal(s[..|s| - 1]) + (s[|s| - 1] as int - '0' as int)
  }

  /** An unsigned decimal integer: no sign, no space, at least one digit. */
  predicate IsDecimal(s: string) { s != [] && forall i | 0 <= i < |s| :: IsDigit(s[i]) }

  predicate Parses(row: Row) { |row| == |CSV_HEADER| && IsDecimal(row[1]) && IsDecimal(row[2]) && IsDecimal(row[3]) }

  function SampleOf(row: Row): Sample {
    if Parses(row) then Sample(ScenarioKey(row[0], Decimal(row[1])), Decimal(row[2]), Decimal(row[3]))
    else Sample(ScenarioKey("", 0), 0, 0)
  }

  function Samples(rows: seq<Row>): seq<Sample> { Map(rows, SampleOf) }

  // ----- Samples -----

  function Identity(s: Sample): (ScenarioKey, nat) { (s.key, s.index) }

  function KeyOf(s: Sample): ScenarioKey { s.key }

  function Elapsed(s: Sample): nat { s.elapsed }

  function HasKey(key: ScenarioKey): (p: Sample -> bool)
    ensures forall s :: p(s) == (s.key == key)
  {
    (s: Sample) => s.key == key
  }

  /** The elapsed times recorded for a key, in row order. */
  function Values(samples: seq<Sample>, key: ScenarioKey): seq<nat> {
    Map(Filter(samples, HasKey(key)), Elapsed)
  }

  predicate Expected(s: Sample, inventory: Inventory) { s.key in inventory && s.index < SAMPLE_COUNT }

  /** Every row parses, is expected, and no sample of a key comes twice. */
  predicate Admitted(rows: seq<Row>, inventory: Inventory) {
    && (forall row | row in rows :: Parses(row) && Expected(SampleOf(row), inventory))
    && Distinct(Map(Samples(rows), Identity))
  }

  function Indexes(samples: seq<Sample>, key: ScenarioKey): set<nat> {
    set s | s in samples && s.key == key :: s.index
  }

  function Below(n: nat): (r: set<nat>)
    ensures |r| == n && forall i: nat :: i in r <==> i < n
  {
    if n == 0 then {} else Below(n - 1) + {n - 1}
  }

  /** The checks of one key after all rows are read: ten samples, with the indexes 0 to 9. */
  predicate Complete(samples: seq<Sample>, key: ScenarioKey) {
    |Values(samples, key)| == SAMPLE_COUNT && Indexes(samples, key) == Below(SAMPLE_COUNT)
  }

  predicate Leq(a: nat, b: nat) { a <= b }

  function DatasetOf(samples: seq<Sample>, inventory: Inventory): Dataset {
    map key | key in inventory :: Sort(Values(samples, key), Leq)
  }

  predicate Accepted(rows: seq<Row>, inventory: Inventory) {
    && Admitted(rows, inventory)
    && Elements(Map(Samples(rows), KeyOf)) == Elements(inventory)
    && forall key | key in inventory :: Complete(Samples(rows), key)
  }

  /** The parsed file; its first row is the header. */
  function Parse(table: seq<Row>, inventory: Inventory): Option<Dataset> {
    if table != [] && table[0] == CSV_HEADER && Accepted(table[1..], inventory)
    then Some(DatasetOf(Samples(table[1..]), inventory)) else None
  }

  // ----- Row order -----

  lemma {:induction false} DistinctPermutes<T>(s: seq<T>, t: seq<T>)
    requires multiset(s) == multiset(t)
    ensures Distinct(s) <==> Distinct(t)
  {
    SameMembers(s, t);
    DistinctSize(s);
    DistinctSize(t);
  }

  lemma SameMembers<T>(s: seq<T>, t: seq<T>)
    requires multiset(s) == multiset(t)
    ensures |s| == |t| && Elements(s) == Elements(t)
    ensures forall x :: x in s <==> x in t
  {
    assert |s| == |multiset(s)| == |multiset(t)| == |t|;
    forall x ensures x in s <==> x in t {
      assert x in s <==> x in multiset(s);
      assert x in t <==> x in multiset(t);
    }
  }

  lemma ValuesPermute(s: seq<Sample>, t: seq<Sample>, key: ScenarioKey)
    requires multiset(s) == multiset(t)
    ensures multiset(Values(s, key)) == multiset(Values(t, key))
    ensures Sort(Values(s, key), Leq) == Sort(Values(t, key), Leq)
  {
    hide Filter, Map, Sort;
    FilterPermutes(s, t, HasKey(key));
    MapPermutes(Filter(s, HasKey(key)), Filter(t, HasKey(key)), Elapsed);
    SortSorts(Values(s, key), Leq);
    SortSorts(Values(t, key), Leq);
    SortedIsUnique(Sort(Values(s, key), Leq), Sort(Values(t, key), Leq), Leq);
  }

  lemma CompletePermutes(s: seq<Sample>, t: seq<Sample>, key: ScenarioKey)
    requires multiset(s) == multiset(t)
    ensures Complete(s, key) <==> Complete(t, key)
  {
    hide Values;
    ValuesPermute(s, t, key);
    SameMembers(Values(s, key), Values(t, key));
    SameMembers(s, t);
    assert Indexes(s, key) == Indexes(t, key);
  }

  lemma AdmittedPermutes(rows: seq<Row>, rows': seq<Row>, inventory: Inventory)
    requires multiset(rows) == multiset(rows')
    ensures Admitted(rows, inventory) <==> Admitted(rows', inventory)
    ensures multiset(Samples(rows)) == multiset(Samples(rows'))
  {
    hide Map, Parses, SampleOf, Distinct;
    SameMembers(rows, rows');
    MapPermutes(rows, rows', SampleOf);
    MapPermutes(Samples(rows), Samples(rows'), Identity);
    DistinctPermutes(Map(Samples(rows), Identity), Map(Samples(rows'), Identity));
  }

  lemma AcceptedPermutes(rows: seq<Row>, rows': seq<Row>, inventory: Inventory)
    requires multiset(rows) == multiset(rows')
    ensures Accepted(rows, inventory) <==> Accepted(rows', inventory)
  {
    hide Map, Complete, Admitted, Samples, Elements;
    AdmittedPermutes(rows, rows', inventory);
    var s, t := Samples(rows), Samples(rows');
    MapPermutes(s, t, KeyOf);
    SameMembers(Map(s, KeyOf), Map(t, KeyOf));
    forall key ensures Complete(s, key) <==> Complete(t, key) {
      CompletePermutes(s, t, key);
    }
  }

  lemma DatasetPermutes(s: seq<Sample>, t: seq<Sample>, inventory: Inventory)
    requires multiset(s) == multiset(t)
    ensures DatasetOf(s, inventory) == DatasetOf(t, inventory)
  {
    hide Values, Sort;
    forall key ensures Sort(Values(s, key), Leq) == Sort(Values(t, key), Leq) {
      ValuesPermute(s, t, key);
    }
  }

  /** The parsed dataset, and whether there is one, do not depend on the order of the rows. */
  lemma RowOrderIsIrrelevant(header: Row, rows: seq<Row>, rows': seq<Row>, inventory: Inventory)
    requires multiset(rows) == multiset(rows')
    ensures Parse([header] + rows, inventory) == Parse([header] + rows', inventory)
  {
    hide Accepted, DatasetOf, Samples;
    assert ([header] + rows)[1..] == rows && ([header] + rows')[1..] == rows';
    AcceptedPermutes(rows, rows', inventory);
    AdmittedPermutes(rows, rows', inventory);
    DatasetPermutes(Samples(rows), Samples(rows'), inventory);
  }

  // ----- The recheck of sample indexes -----

  function IndexOf(s: Sample): nat { s.index }

  lemma {:induction false} FilteredIndexes(samples: seq<Sample>, key: ScenarioKey)
    requires Distinct(Map(samples, Identity))
    ensures Distinct(Map(Filter(samples, HasKey(key)), IndexOf))
    ensures Elements(Map(Filter(samples, HasKey(key)), IndexOf)) == Indexes(samples, key)
  {
    hide Map;
    if samples == [] {
      return;
    }
    var n := |samples| - 1;
    var front, x := samples[..n], samples[n];
    assert samples == front + [x];
    forall i, j | 0 <= i < j < n ensures Map(front, Identity)[i] != Map(front, Identity)[j] {
      assert Map(samples, Identity)[i] != Map(samples, Identity)[j];
    }
    FilteredIndexes(front, key);
    var kept := Filter(front, HasKey(key));
    if x.key == key {
      MapSnoc(kept, x, IndexOf);
      forall s | s in front && s.key == key ensures s.index != x.index {
        var i :| 0 <= i < n && front[i] == s;
        assert Map(samples, Identity)[i] != Map(samples, Identity)[n];
      }
      assert x.index !in Indexes(front, key);
      assert Indexes(samples, key) == Indexes(front, key) + {x.index};
      NewIndex(Map(kept, IndexOf), x.index);
    } else {
      assert Indexes(samples, key) == Indexes(front, key) && kept + [] == kept;
    }
  }

  lemma NewIndex(s: seq<nat>, x: nat)
    requires Distinct(s) && x !in Elements(s)
    ensures Distinct(s + [x]) && Elements(s + [x]) == Elements(s) + {x}
  {
    assert forall i | 0 <= i < |s| :: s[i] in Elements(s);
  }

  /** Ten admitted samples of a key have the ten indexes: the last check of the parser cannot fail. */
  lemma RecheckIsImplied(rows: seq<Row>, inventory: Inventory, key: ScenarioKey)
    requires Admitted(rows, inventory)
    ensures Complete(Samples(rows), key) <==> |Values(Samples(rows), key)| == SAMPLE_COUNT
  {
    hide Map, Filter, Parses, SampleOf;
    var samples := Samples(rows);
    FilteredIndexes(samples, key);
    DistinctSize(Map(Filter(samples, HasKey(key)), IndexOf));
    forall i | i in Indexes(samples, key) ensures i < SAMPLE_COUNT {
      var s :| s in samples && s.key == key && s.index == i;
      var j :| 0 <= j < |samples| && samples[j] == s;
      assert rows[j] in rows && samples[j] == SampleOf(rows[j]);
    }
    if |Values(samples, key)| == SAMPLE_COUNT {
      SameSizeSubset(Indexes(samples, key), Below(SAMPLE_COUNT));
    }
  }

  // ----- The parser -----

  lemma {:induction false} AdmittedPrefix(rows: seq<Row>, n: nat, inventory: Inventory)
    requires n <= |rows| && Admitted(rows, inventory)
    ensures Admitted(rows[..n], inventory)
  {
    hide Map, Parses, SampleOf;
    var part, whole := Map(Samples(rows[..n]), Identity), Map(Samples(rows), Identity);
    forall i, j | 0 <= i < j < n ensures part[i] != part[j] {
      assert whole[i] != whole[j];
      assert Samples(rows[..n])[i] == Samples(rows)[i] && Samples(rows[..n])[j] == Samples(rows)[j];
    }
    forall row | row in rows[..n] ensures row in rows {
    }
  }

  lemma AdmittedSnoc(rows: seq<Row>, row: Row, inventory: Inventory)
    requires Admitted(rows, inventory)
    ensures Samples(rows + [row]) == Samples(rows) + [SampleOf(row)]
    ensures Map(Samples(rows + [row]), Identity) == Map(Samples(rows), Identity) + [Identity(SampleOf(row))]
    ensures Admitted(rows + [row], inventory)
       <==> && Parses(row) && Expected(SampleOf(row), inventory)
            && Identity(SampleOf(row)) !in Map(Samples(rows), Identity)
  {
    hide Map, Parses, SampleOf, Expected;
    MapSnoc(rows, row, SampleOf);
    MapSnoc(Samples(rows), SampleOf(row), Identity);
    var ids, id := Map(Samples(rows), Identity), Identity(SampleOf(row));
    DistinctSnoc(ids, id);
    assert row in rows + [row];
    assert forall r | r in rows :: r in rows + [row];
  }

  lemma DistinctSnoc<T>(s: seq<T>, x: T)
    ensures Distinct(s + [x]) <==> Distinct(s) && x !in s
  {
    var t := s + [x];
    if Distinct(t) {
      forall i, j | 0 <= i < j < |s| ensures s[i] != s[j] { assert t[i] != t[j]; }
      forall i | 0 <= i < |s| ensures s[i] != x { assert t[i] != t[|s|]; }
    }
  }

  lemma ValuesSnoc(samples: seq<Sample>, s: Sample, key: ScenarioKey)
    ensures Values(samples + [s], key)
         == if s.key == key then Values(samples, key) + [s.elapsed] else Values(samples, key)
  {
    hide Map;
    assert (samples + [s])[..|samples|] == samples;
    var kept := Filter(samples, HasKey(key));
    if s.key == key {
      MapSnoc(kept, s, Elapsed);
    } else {
      assert kept + [] == kept;
    }
  }

  /** What the loop over the rows has collected. */
  ghost predicate Collected(
    samples: seq<Sample>, seen: set<(ScenarioKey, nat)>, values: map<ScenarioKey, seq<nat>>) {
    && seen == Elements(Map(samples, Identity))
    && (forall key :: key in values <==> key in Map(samples, KeyOf))
    && forall key | key in values :: values[key] == Values(samples, key)
  }

  lemma CollectOne(
    samples: seq<Sample>, seen: set<(ScenarioKey, nat)>, values: map<ScenarioKey, seq<nat>>, s: Sample)
    requires Collected(samples, seen, values)
    ensures Collected(
      samples + [s], seen + {Identity(s)},
      values[s.key := (if s.key in values then values[s.key] else []) + [s.elapsed]])
  {
    hide Map, Values;
    MapSnoc(samples, s, Identity);
    MapSnoc(samples, s, KeyOf);
    forall key ensures Values(samples + [s], key)
      == if s.key == key then Values(samples, key) + [s.elapsed] else Values(samples, key)
    {
      ValuesSnoc(samples, s, key);
    }
    if s.key !in values {
      NoValues(samples, s.key);
    }
  }

  lemma {:induction false} NoValues(samples: seq<Sample>, key: ScenarioKey)
    requires key !in Map(samples, KeyOf)
    ensures Values(samples, key) == []
  {
    if samples != [] {
      hide Map, Values;
      var n := |samples| - 1;
      assert samples == samples[..n] + [samples[n]];
      ValuesSnoc(samples[..n], samples[n], key);
      assert Map(samples, KeyOf)[n] == samples[n].key;
      forall i | 0 <= i < n ensures Map(samples[..n], KeyOf)[i] == Map(samples, KeyOf)[i] {
      }
      NoValues(samples[..n], key);
    }
  }

  /** The checks of one row, in the order in which they are made. */
  datatype Fault = Columns | BadCardinality | BadSample | BadElapsed | UnexpectedKey | SampleTooLarge | RepeatedSample

  /** The first check a row fails after the rows before it. */
  function FaultOf(row: Row, before: seq<Row>, inventory: Inventory): Option<Fault> {
    if |row| != |CSV_HEADER| then Some(Columns)
    else if !IsDecimal(row[1]) then Some(BadCardinality)
    else if !IsDecimal(row[2]) then Some(BadSample)
    else if !IsDecimal(row[3]) then Some(BadElapsed)
    else if SampleOf(row).key !in inventory then Some(UnexpectedKey)
    else if SampleOf(row).index >= SAMPLE_COUNT then Some(SampleTooLarge)
    else if Identity(SampleOf(row)) in Map(Samples(before), Identity) then Some(RepeatedSample)
    else None
  }

  /** The first line, counted from 1 with the header, whose row fails a check, and that check. */
  predicate BreaksAt(table: seq<Row>, inventory: Inventory, line: nat, fault: Fault) {
    && 2 <= line <= |table| && Admitted(table[1..line - 1], inventory) && !Admitted(table[1..line], inventory)
    && FaultOf(table[line - 1], table[1..line - 1], inventory) == Some(fault)
  }

  lemma FaultIffRefused(row: Row, before: seq<Row>, inventory: Inventory)
    ensures FaultOf(row, before, inventory).None?
       <==> && Parses(row) && Expected(SampleOf(row), inventory)
            && Identity(SampleOf(row)) !in Map(Samples(before), Identity)
  {
    hide IsDecimal, SampleOf, Map;
  }

  /** The checks of the loop over the rows. */
  method CheckRow(row: Row, ghost before: seq<Row>, seen: set<(ScenarioKey, nat)>, inventory: Inventory)
    returns (fault: Option<Fault>)
    requires forall id :: id in seen <==> id in Map(Samples(before), Identity)
    ensures fault == FaultOf(row, before, inventory)
  {
    hide Map, SampleOf, IsDecimal;
    if |row| != |CSV_HEADER| { return Some(Columns); }
    if !IsDecimal(row[1]) { return Some(BadCardinality); }
    if !IsDecimal(row[2]) { return Some(BadSample); }
    if !IsDecimal(row[3]) { return Some(BadElapsed); }
    var s := SampleOf(row);
    if s.key !in inventory { return Some(UnexpectedKey); }
    if s.index >= SAMPLE_COUNT { return Some(SampleTooLarge); }
    if Identity(s) in seen { return Some(RepeatedSample); }
    return None;
  }

  method ParseBenchmarkCsv(table: seq<Row>, inventory: Inventory)
    returns (r: Option<Dataset>, bad: Option<(nat, Fault)>)
    ensures r == Parse(table, inventory)
    ensures bad.Some? <==> table != [] && table[0] == CSV_HEADER && !Admitted(table[1..], inventory)
    ensures bad.Some? ==> BreaksAt(table, inventory, bad.value.0, bad.value.1)
  {
    hide Admitted, Map, Parses, SampleOf, Expected, Collected, Complete, DatasetOf, Identity, FaultOf;
    if table == [] || table[0] != CSV_HEADER {
      return None, None;
    }
    var rows := table[1..];
    var values: map<ScenarioKey, seq<nat>> := map[];
    var seen: set<(ScenarioKey, nat)> := {};
    CollectNothing(inventory);
    for i := 0 to |rows|
      invariant Admitted(rows[..i], inventory)
      invariant Collected(Samples(rows[..i]), seen, values)
    {
      var row := rows[i];
      assert rows[..i + 1] == rows[..i] + [row];
      AdmittedSnoc(rows[..i], row, inventory);
      FaultIffRefused(row, rows[..i], inventory);
      SeenIs(Samples(rows[..i]), seen, values);
      var fault := CheckRow(row, rows[..i], seen, inventory);
      if fault.Some? {
        if Admitted(rows, inventory) { AdmittedPrefix(rows, i + 1, inventory); }
        assert rows[..i] == table[1..i + 1] && rows[..i + 1] == table[1..i + 2];
        return None, Some((i + 2, fault.value));
      }
      var s := SampleOf(row);
      CollectOne(Samples(rows[..i]), seen, values, s);
      seen := seen + {Identity(s)};
      values := values[s.key := (if s.key in values then values[s.key] else []) + [s.elapsed]];
    }
    assert rows[..|rows|] == rows;
    CollectedKeys(Samples(rows), seen, values);
    bad := None;
    if values.Keys != Elements(inventory) {
      return None, None;
    }
    r := Normalize(Samples(rows), seen, values, inventory);
  }

  lemma CollectNothing(inventory: Inventory)
    ensures Admitted([], inventory) && Collected(Samples([]), {}, map[])
  {
  }

  lemma SeenIs(samples: seq<Sample>, seen: set<(ScenarioKey, nat)>, values: map<ScenarioKey, seq<nat>>)
    requires Collected(samples, seen, values)
    ensures forall id :: id in seen <==> id in Map(samples, Identity)
  {
  }

  lemma CollectedKeys(samples: seq<Sample>, seen: set<(ScenarioKey, nat)>, values: map<ScenarioKey, seq<nat>>)
    requires Collected(samples, seen, values)
    ensures values.Keys == Elements(Map(samples, KeyOf))
  {
  }

  lemma SeenIndexes(
    samples: seq<Sample>, seen: set<(ScenarioKey, nat)>, values: map<ScenarioKey, seq<nat>>, key: ScenarioKey)
    requires Collected(samples, seen, values)
    ensures (set id | id in seen && id.0 == key :: id.1) == Indexes(samples, key)
  {
    var indexes := set id | id in seen && id.0 == key :: id.1;
    forall i | i in Indexes(samples, key) ensures i in indexes {
      var s :| s in samples && s.key == key && s.index == i;
      var j :| 0 <= j < |samples| && samples[j] == s;
      assert Map(samples, Identity)[j] == (key, i);
      assert (key, i) in seen;
    }
    forall i | i in indexes ensures i in Indexes(samples, key) {
      assert (key, i) in Map(samples, Identity);
      var j :| 0 <= j < |samples| && Map(samples, Identity)[j] == (key, i);
      assert samples[j] in samples;
    }
  }

  lemma CollectedIsComplete(
    samples: seq<Sample>, seen: set<(ScenarioKey, nat)>, values: map<ScenarioKey, seq<nat>>, key: ScenarioKey)
    requires Collected(samples, seen, values) && key in values
    ensures Complete(samples, key)
       <==> |values[key]| == SAMPLE_COUNT && (set id | id in seen && id.0 == key :: id.1) == Below(SAMPLE_COUNT)
    ensures values[key] == Values(samples, key)
  {
    SeenIndexes(samples, seen, values, key);
  }

  lemma DatasetSnoc(samples: seq<Sample>, inventory: Inventory, key: ScenarioKey)
    ensures DatasetOf(samples, inventory + [key])
         == DatasetOf(samples, inventory)[key := Sort(Values(samples, key), Leq)]
  {
    hide Values, Sort;
  }

  /** The checks of every key, and its sorted values. */
  method Normalize(
    ghost samples: seq<Sample>, seen: set<(ScenarioKey, nat)>, values: map<ScenarioKey, seq<nat>>,
    inventory: Inventory) returns (r: Option<Dataset>)
    requires Collected(samples, seen, values) && values.Keys == Elements(inventory)
    ensures r == if forall key | key in inventory :: Complete(samples, key) then Some(DatasetOf(samples, inventory))
                 else None
  {
    hide Collected, Complete, Values, Sort, DatasetOf, Below;
    var normalized: Dataset := map[];
    assert DatasetOf(samples, []) == map[] by { NoDataset(samples); }
    for i := 0 to |inventory|
      invariant forall j | 0 <= j < i :: Complete(samples, inventory[j])
      invariant normalized == DatasetOf(samples, inventory[..i])
    {
      var key := inventory[i];
      assert key in Elements(inventory);
      CollectedIsComplete(samples, seen, values, key);
      var indexes := set id | id in seen && id.0 == key :: id.1;
      if |values[key]| != SAMPLE_COUNT || indexes != Below(SAMPLE_COUNT) {
        return None;
      }
      assert inventory[..i + 1] == inventory[..i] + [key];
      DatasetSnoc(samples, inventory[..i], key);
      normalized := normalized[key := Sort(values[key], Leq)];
    }
    assert inventory[..|inventory|] == inventory;
    return Some(normalized);
  }

  lemma NoDataset(samples: seq<Sample>)
    ensures DatasetOf(samples, []) == map[]
  {
  }

  // ----- Decimal numbers -----

  function DigitChar(d: nat): char
    requires d < 10
  {
    "0123456789"[d]
  }

  /** How a number is written. */
  function Written(n: nat): (s: string)
    ensures |s| > 0
  {
    (if n < 10 then [] else Written(n / 10)) + [DigitChar(n % 10)]
  }

  lemma DigitIs(d: nat)
    requires d < 10
    ensures IsDigit(DigitChar(d)) && DigitChar(d) as int - '0' as int == d
  {
  }

  lemma {:induction false} DecimalReadsWritten(n: nat)
    ensures IsDecimal(Written(n)) && Decimal(Written(n)) == n
  {
    DigitIs(n % 10);
    hide IsDigit, DigitChar;
    if n >= 10 {
      DecimalReadsWritten(n / 10);
      assert Written(n)[..|Written(n)| - 1] == Written(n / 10);
    } else {
      assert Written(n)[..0] == [];
    }
  }

  /** A text of digits is read as the number it writes behind leading zeros; nothing else is read. */
  lemma {:induction false} DecimalIff(s: string, n: nat)
    ensures IsDecimal(s) && Decimal(s) == n <==> exists zeros: nat :: zeros <= |s| && LeadingZeros(s, zeros, n)
    decreases |s|
  {
    if IsDecimal(s) && Decimal(s) == n {
      var zeros := ZerosOf(s);
      assert LeadingZeros(s, zeros, n);
    }
    forall zeros: nat | zeros <= |s| && LeadingZeros(s, zeros, n) ensures IsDecimal(s) && Decimal(s) == n {
      ZerosAreNothing(s, zeros, n);
    }
  }

  predicate LeadingZeros(s: string, zeros: nat, n: nat)
    requires zeros <= |s|
  {
    (forall i | 0 <= i < zeros :: s[i] == '0') && s[zeros..] == Written(n)
  }

  lemma {:induction false} ZerosAreNothing(s: string, zeros: nat, n: nat)
    requires zeros <= |s| && LeadingZeros(s, zeros, n)
    ensures IsDecimal(s) && Decimal(s) == n
    decreases zeros
  {
    if zeros == 0 {
      DecimalReadsWritten(n);
      assert s[0..] == s;
    } else {
      assert s[1..][zeros - 1..] == s[zeros..];
      ZerosAreNothing(s[1..], zeros - 1, n);
      assert s == ['0'] + s[1..];
      LeadingZero(s[1..]);
    }
  }

  lemma {:induction false} LeadingZero(s: string)
    requires IsDecimal(s)
    ensures IsDecimal(['0'] + s) && Decimal(['0'] + s) == Decimal(s)
  {
    var n := |s| - 1;
    var t := ['0'] + s;
    assert t[..|t| - 1] == ['0'] + s[..n];
    assert IsDigit('0');
    if n > 0 {
      LeadingZero(s[..n]);
    } else {
      assert ['0'] + s[..0] == ['0'] && ['0'][..0] == [];
    }
  }

  lemma CharOfDigit(c: char)
    requires IsDigit(c)
    ensures '0' as int <= c as int < '0' as int + 10 && DigitChar(c as int - '0' as int) == c
  {
    hide DigitChar;
    DigitIs(c as int - '0' as int);
  }

  lemma LastDigit(s: string) returns (d: nat)
    requires IsDecimal(s)
    ensures s != [] && d < 10 && s[|s| - 1] == DigitChar(d)
    ensures |s| == 1 ==> Decimal(s) == d
    ensures |s| > 1 ==> IsDecimal(s[..|s| - 1]) && Decimal(s) == 10 * Decimal(s[..|s| - 1]) + d
  {
    CharOfDigit(s[|s| - 1]);
    hide IsDigit, DigitChar;
    d := s[|s| - 1] as int - '0' as int;
  }

  lemma WrittenSnoc(n: nat, d: nat)
    requires d < 10
    ensures Written(10 * n + d) == (if n == 0 then [] else Written(n)) + [DigitChar(d)]
  {
    hide DigitChar;
    assert (10 * n + d) / 10 == n && (10 * n + d) % 10 == d;
  }

  /** One more digit behind a number that is not zero. */
  lemma DigitBehind(s: string, zeros: nat, n: nat, d: nat)
    requires zeros <= |s| - 1 && LeadingZeros(s[..|s| - 1], zeros, n) && n > 0
    requires d < 10 && s[|s| - 1] == DigitChar(d)
    ensures LeadingZeros(s, zeros, 10 * n + d)
  {
    hide Written, DigitChar;
    WrittenSnoc(n, d);
    var last := |s| - 1;
    assert s[zeros..] == s[..last][zeros..] + [s[last]];
    assert forall i | 0 <= i < zeros :: s[i] == s[..last][i];
  }

  /** One more digit behind nothing but zeros. */
  lemma DigitBehindZeros(s: string, d: nat)
    requires s != [] && d < 10 && s[|s| - 1] == DigitChar(d) && forall i | 0 <= i < |s| - 1 :: s[i] == '0'
    ensures LeadingZeros(s, |s| - 1, d)
  {
    hide Written, DigitChar;
    WrittenSnoc(0, d);
    assert s[|s| - 1..] == [s[|s| - 1]];
  }

  lemma WrittenZero(s: string, zeros: nat)
    requires zeros <= |s| && LeadingZeros(s, zeros, 0)
    ensures forall i | 0 <= i < |s| :: s[i] == '0'
  {
    ZeroIsWritten();
    hide Written;
    forall i | 0 <= i < |s| ensures s[i] == '0' {
      if i >= zeros {
        assert s[i] == s[zeros..][i - zeros];
      }
    }
  }

  /** How many zeros lead before the number itself. */
  lemma {:induction false} ZerosOf(s: string) returns (zeros: nat)
    requires IsDecimal(s)
    ensures zeros <= |s| && LeadingZeros(s, zeros, Decimal(s))
    decreases |s|
  {
    var d := LastDigit(s);
    hide IsDecimal, Decimal, DigitChar, LeadingZeros;
    var last := |s| - 1;
    if last == 0 {
      zeros := 0;
      DigitBehindZeros(s, d);
    } else {
      var front := s[..last];
      var before := ZerosOf(front);
      if Decimal(front) > 0 {
        zeros := before;
        DigitBehind(s, before, Decimal(front), d);
      } else {
        zeros := last;
        WrittenZero(front, before);
        assert forall i | 0 <= i < last :: s[i] == front[i];
        DigitBehindZeros(s, d);
      }
    }
  }

  lemma ZeroIsWritten()
    ensures Written(0) == ['0']
  {
  }
}
