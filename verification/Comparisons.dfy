/** Comparing a benchmark dataset with a baseline, and choosing the baseline. */
module Comparisons {
  import opened Commons
  import opened Sums
  import opened Sorting
  import opened Baselines

  datatype Statistics = Statistics(median: nat, p95: nat)
  datatype ComparisonRow = ComparisonRow(key: ScenarioKey, baseline: Statistics, current: Statistics, warning: bool)

  function StatisticsOf(values: seq<nat>): Statistics
    requires values != []
  {
    Statistics(values[|values| / 2], values[|values| - 1])
  }

  predicate Warns(baseline: nat, current: nat) { current * 10 > baseline * 11 }

  /** Values for every key of the inventory, as any parsed dataset has. */
  predicate Covers(d: Dataset, inventory: Inventory) {
    forall key | key in inventory :: key in d && d[key] != []
  }

  predicate Comparable(baseline: Dataset, current: Dataset, inventory: Inventory)
    requires Covers(baseline, inventory)
  {
    && baseline.Keys == current.Keys
    && forall key | key in inventory :: StatisticsOf(baseline[key]).median != 0
  }

  function RowFor(baseline: Dataset, current: Dataset, key: ScenarioKey): ComparisonRow
    requires key in baseline && baseline[key] != [] && key in current && current[key] != []
  {
    var (b, c) := (StatisticsOf(baseline[key]), StatisticsOf(current[key]));
    ComparisonRow(key, b, c, Warns(b.median, c.median))
  }

  method CompareDatasets(baseline: Dataset, current: Dataset, inventory: Inventory)
    returns (r: Option<seq<ComparisonRow>>)
    requires Covers(baseline, inventory) && Covers(current, inventory)
    ensures r.Some? <==> Comparable(baseline, current, inventory)
    ensures r.Some? ==>
      |r.value| == |inventory|
      && forall i | 0 <= i < |inventory| :: r.value[i] == RowFor(baseline, current, inventory[i])
  {
    if baseline.Keys != current.Keys {
      return None;
    }
    var rows := [];
    for i := 0 to |inventory|
      invariant |rows| == i
      invariant forall j | 0 <= j < i :: rows[j] == RowFor(baseline, current, inventory[j])
      invariant forall j | 0 <= j < i :: StatisticsOf(baseline[inventory[j]]).median != 0
    {
      var key := inventory[i];
      if StatisticsOf(baseline[key]).median == 0 {
        return None;
      }
      rows := rows + [RowFor(baseline, current, key)];
    }
    return Some(rows);
  }

  lemma ParsedCovers(table: seq<Row>, inventory: Inventory)
    requires Parse(table, inventory).Some?
    ensures Covers(Parse(table, inventory).value, inventory)
    ensures Parse(table, inventory).value.Keys == Elements(inventory)
    ensures forall key | key in inventory ::
      && |Parse(table, inventory).value[key]| == SAMPLE_COUNT
      && Sorted(Parse(table, inventory).value[key], Leq)
  {
    hide Values, Sort, Samples, Indexes, Admitted;
    var samples := Samples(table[1..]);
    forall key | key in inventory
      ensures |Sort(Values(samples, key), Leq)| == SAMPLE_COUNT && Sorted(Sort(Values(samples, key), Leq), Leq)
    {
      SortSorts(Values(samples, key), Leq);
      SameMembers(Sort(Values(samples, key), Leq), Values(samples, key));
    }
  }

  // ----- Choosing the baseline -----

  /** A listed artifact. `table` holds the rows of its archived samples; it is `None` when its
      metadata, its run, its archive or its manifest was refused. */
  datatype Artifact = Artifact(createdAt: Option<int>, id: Option<int>, table: Option<seq<Row>>)

  predicate Dated(a: Artifact) { a.createdAt.Some? && a.id.Some? && a.id.value > 0 }

  /** The sort key is at least that of `b`: a date beats none, then the later, then the higher ID. */
  predicate NotOlder(a: Artifact, b: Artifact) {
    if !Dated(a) then !Dated(b)
    else
      || !Dated(b) || a.createdAt.value > b.createdAt.value
      || (a.createdAt.value == b.createdAt.value && a.id.value >= b.id.value)
  }

  function Validate(a: Artifact, inventory: Inventory): (r: Option<Dataset>) {
    if !Dated(a) || a.table.None? || Parse(a.table.value, inventory).None? then None
    else
      var d := Parse(a.table.value, inventory).value;
      ParsedCovers(a.table.value, inventory);
      if Comparable(d, d, inventory) then Some(d) else None
  }

  lemma DatesOrder()
    ensures TotalPreorder(NotOlder)
  {
  }

  datatype Selected = Selected(artifact: Artifact, dataset: Dataset)

  /** The newest valid artifact, and the artifacts refused before it was found. */
  method SelectNewestBaseline(artifacts: seq<Artifact>, inventory: Inventory)
    returns (r: Option<Selected>, rejections: seq<Artifact>)
    ensures r.None? <==> forall a | a in artifacts :: Validate(a, inventory).None?
    ensures r.Some? ==> r.value.artifact in artifacts && Validate(r.value.artifact, inventory) == Some(r.value.dataset)
    ensures r.Some? ==> forall a | a in artifacts && Validate(a, inventory).Some? :: NotOlder(r.value.artifact, a)
    ensures forall a | a in rejections :: a in artifacts && Validate(a, inventory).None?
    ensures r.None? ==> multiset(rejections) == multiset(artifacts)
  {
    hide Validate, NotOlder, TotalPreorder, Sort;
    rejections := [];
    DatesOrder();
    SortSorts(artifacts, NotOlder);
    var sorted := Sort(artifacts, NotOlder);
    SameMembers(sorted, artifacts);
    for i := 0 to |sorted|
      invariant rejections == sorted[..i]
      invariant forall a | a in rejections :: Validate(a, inventory).None?
    {
      var dataset := Validate(sorted[i], inventory);
      if dataset.Some? {
        assert forall j | 0 <= j < i :: sorted[j] in rejections;
        forall a | a in artifacts && Validate(a, inventory).Some? ensures NotOlder(sorted[i], a) {
          var j :| 0 <= j < |sorted| && sorted[j] == a;
        }
        return Some(Selected(sorted[i], dataset.value)), rejections;
      }
      rejections := rejections + [sorted[i]];
    }
    assert sorted[..|sorted|] == sorted;
    return None, rejections;
  }

  /** A selected baseline can be compared with every dataset that parses. */
  lemma SelectedCompares(a: Artifact, table: seq<Row>, inventory: Inventory)
    requires Validate(a, inventory).Some? && Parse(table, inventory).Some?
    ensures var (d, current) := (Validate(a, inventory).value, Parse(table, inventory).value);
      Covers(d, inventory) && Covers(current, inventory) && Comparable(d, current, inventory)
  {
    hide Parse, Covers;
    ParsedCovers(a.table.value, inventory);
    ParsedCovers(table, inventory);
  }

  // ----- The displayed percentage -----

  datatype Display = Unavailable | Percent(plus: bool, whole: nat, fractional: nat)

  /** A magnitude rounded half up to hundredths of a percent, with its sign. */
  function PercentageDelta(baseline: nat, current: nat): Display {
    if baseline == 0 then Unavailable
    else
      var magnitude := if current >= baseline then current - baseline else baseline - current;
      var hundredths := (magnitude * 10_000 + baseline / 2) / baseline;
      Percent(current >= baseline, hundredths / 100, hundredths % 100)
  }

  function Hundredths(d: Display): nat
    requires d.Percent?
  {
    100 * d.whole + d.fractional
  }

  lemma Divides(x: nat, d: nat)
    requires d > 0
    ensures d * (x / d) <= x < d * (x / d) + d
  {
  }

  /** How far the current median is off, in hundredths of a percent of the baseline, times it. */
  function Exact(baseline: nat, current: nat): nat {
    10_000 * if current >= baseline then current - baseline else baseline - current
  }

  /** `h` times `b` is as near to `exact` as any multiple, and the greater one on a tie. */
  predicate NearestUp(b: nat, h: nat, exact: nat) {
    2 * (b * h - exact) <= b && 2 * (exact - b * h) < b
  }

  lemma NearestIsUnique(b: nat, g: nat, h: nat, exact: nat)
    requires NearestUp(b, g, exact) && NearestUp(b, h, exact)
    ensures g == h
  {
    if g < h {
      Scales(b, g + 1, h);
    } else if h < g {
      Scales(b, h + 1, g);
    }
  }

  lemma RoundedIsNearest(b: nat, exact: nat)
    requires b > 0
    ensures NearestUp(b, (exact + b / 2) / b, exact)
  {
    Divides(exact + b / 2, b);
  }

  /** The display is the sign and the nearest hundredth of a percent, the greater one on a tie, and
      is determined by that. */
  lemma DisplayIsNearest(baseline: nat, current: nat, h: nat)
    requires baseline > 0
    ensures var d := PercentageDelta(baseline, current);
      && d.Percent? && d.fractional < 100 && d.plus == (current >= baseline)
      && (Hundredths(d) == h <==> NearestUp(baseline, h, Exact(baseline, current)))
  {
    hide NearestUp;
    var exact := Exact(baseline, current);
    var shown := Hundredths(PercentageDelta(baseline, current));
    assert shown == (exact + baseline / 2) / baseline;
    RoundedIsNearest(baseline, exact);
    if NearestUp(baseline, h, exact) {
      NearestIsUnique(baseline, h, shown, exact);
    }
  }

  lemma Scales(b: nat, p: nat, q: nat)
    requires p <= q
    ensures b * p <= b * q
  {
  }

  /** Which values are shown as at least `n` hundredths. */
  lemma ShownAtLeast(b: nat, h: nat, exact: nat, n: nat)
    requires b > 0 && n > 0 && NearestUp(b, h, exact)
    ensures h >= n <==> 2 * exact >= (2 * n - 1) * b
  {
    assert (2 * n - 1) * b == 2 * (b * n) - b;
    if h >= n {
      Scales(b, n, h);
    } else {
      Scales(b, h, n - 1);
      assert b * (n - 1) == b * n - b;
    }
  }

  /** A warning shows at least +10.00%, and whatever shows more than +10.00% is a warning. */
  lemma WarningsAreVisible(baseline: nat, current: nat)
    requires baseline > 0
    ensures var d := PercentageDelta(baseline, current);
      && (Warns(baseline, current) ==> d.plus && d.whole >= 10)
      && (d.plus && Hundredths(d) > 1000 ==> Warns(baseline, current))
  {
    var d := PercentageDelta(baseline, current);
    DisplayIsNearest(baseline, current, Hundredths(d));
    hide PercentageDelta, NearestUp;
    ShownAtLeast(baseline, Hundredths(d), Exact(baseline, current), 1000);
    ShownAtLeast(baseline, Hundredths(d), Exact(baseline, current), 1001);
  }

  /** When the display decides the warning. Reading more than +10.00% as a warning is wrong exactly
      for a warning that is less than 2001 in 20000 above its baseline; reading +10.00% and more as
      one is wrong exactly for no warning that is at least 1999 in 20000 above it. */
  lemma DisplayDecidesIff(baseline: nat, current: nat)
    requires baseline > 0
    ensures var d := PercentageDelta(baseline, current);
      && ((Warns(baseline, current) <==> d.plus && Hundredths(d) > 1000)
          <==> !(Warns(baseline, current) && 20_000 * (current - baseline) < 2001 * baseline))
      && ((Warns(baseline, current) <==> d.plus && Hundredths(d) >= 1000)
          <==> !(!Warns(baseline, current) && 20_000 * (current - baseline) >= 1999 * baseline))
  {
    var d := PercentageDelta(baseline, current);
    DisplayIsNearest(baseline, current, Hundredths(d));
    hide PercentageDelta, NearestUp;
    ShownAtLeast(baseline, Hundredths(d), Exact(baseline, current), 1000);
    ShownAtLeast(baseline, Hundredths(d), Exact(baseline, current), 1001);
  }

  /** Neither reading is always right: +10.00% is shown with a warning and without one. */
  lemma TenPercentIsAmbiguous()
    ensures Warns(100_000, 110_001) && PercentageDelta(100_000, 110_001) == Percent(true, 10, 0)
    ensures !Warns(100_000, 110_000) && PercentageDelta(100_000, 110_000) == Percent(true, 10, 0)
  {
  }

  // ----- What the statistics of a key are -----

  lemma CountPermutes(s: seq<nat>, t: seq<nat>, p: nat -> bool)
    requires multiset(s) == multiset(t)
    ensures |Places(s, p)| == |Places(t, p)|
  {
    var g := (x: nat) => if p(x) then 1 else 0;
    SumPermutes(s, t, g);
    SumCounts(s, g, p);
    SumCounts(t, g, p);
  }

  lemma PlacesBefore(s: seq<nat>, p: nat -> bool, n: nat)
    requires n <= |s| && forall i | n <= i < |s| :: !p(s[i])
    ensures |Places(s, p)| <= n
  {
    assert Places(s, p) <= Below(n);
    SmallerSubset(Places(s, p), Below(n));
  }

  lemma PlacesUpTo(s: seq<nat>, p: nat -> bool, n: nat)
    requires n <= |s| && forall i | 0 <= i < n :: p(s[i])
    ensures |Places(s, p)| >= n
  {
    assert Below(n) <= Places(s, p);
    SmallerSubset(Below(n), Places(s, p));
  }

  lemma {:induction false} SmallerSubset(a: set<nat>, b: set<nat>)
    requires a <= b
    ensures |a| <= |b|
  {
    if a != {} {
      var x :| x in a;
      SmallerSubset(a - {x}, b - {x});
    }
  }

  /** Of the times recorded for a key, in whatever order: the median is the least one that more than
      half of them do not exceed, and the other statistic is the greatest. */
  lemma StatisticsAre(times: seq<nat>)
    requires times != []
    ensures var sorted := Sort(times, Leq);
      && sorted != []
      && var r := StatisticsOf(sorted);
      && r.median in times && r.p95 in times && (forall t | t in times :: t <= r.p95)
      && 2 * |Places(times, (t: nat) => t <= r.median)| > |times|
      && 2 * |Places(times, (t: nat) => t < r.median)| <= |times|
  {
    hide Sort, Places;
    SortSorts(times, Leq);
    var sorted := Sort(times, Leq);
    SameMembers(sorted, times);
    var n := |times|;
    assert |sorted| == |multiset(sorted)| == n;
    var half := n / 2;
    var r := StatisticsOf(sorted);
    assert sorted[half] in sorted && sorted[n - 1] in sorted;
    forall t | t in times ensures t <= r.p95 {
      var i :| 0 <= i < n && sorted[i] == t;
      assert i < n - 1 ==> Leq(sorted[i], sorted[n - 1]);
    }
    forall i | 0 <= i < half + 1 ensures sorted[i] <= r.median {
      assert i < half ==> Leq(sorted[i], sorted[half]);
    }
    forall i | half <= i < n ensures sorted[i] >= r.median {
      assert half < i ==> Leq(sorted[half], sorted[i]);
    }
    PlacesUpTo(sorted, (t: nat) => t <= r.median, half + 1);
    PlacesBefore(sorted, (t: nat) => t < r.median, half);
    CountPermutes(times, sorted, (t: nat) => t <= r.median);
    CountPermutes(times, sorted, (t: nat) => t < r.median);
  }

  /** A warning means more than a tenth above the baseline. */
  lemma WarnsIff(baseline: nat, current: nat)
    ensures Warns(baseline, current) <==> current as real > baseline as real * 1.1
  {
  }
}
