/** Assigning the fixtures of a profile to the providers that own them. */
module Providers {
  import opened Commons
  import opened Cbor
  import opened Sums
  import opened Sorting

  const FIXTURES_PER_PROFILE := 7

  datatype Key = Key(providerId: bytes, contractVersion: bytes, abiMajor: nat, abiMinor: nat)

  datatype Record = Record(caseId: string, family: string)

  /** A provider declaration; `valid` tells whether its own manifest passed its checks. */
  datatype Declaration = Declaration(key: Key, valid: bool, caseIds: seq<string>)

  datatype Owner = Owner(key: Key, fixtures: seq<Record>)

  /** The checks of one fixture that look at nothing but it and its provider. */
  type Check = (Key, Record) -> bool

  // ----- The family contract -----

  /** The canonical family order: exactly seven different names. */
  method FamilyOrder(names: seq<string>) returns (r: Option<seq<string>>)
    ensures r == if |names| == FIXTURES_PER_PROFILE && Distinct(names) then Some(names) else None
  {
    if |names| != FIXTURES_PER_PROFILE {
      return None;
    }
    var declared := {};
    var order := [];
    for i := 0 to |names|
      invariant order == names[..i] && Distinct(order)
      invariant forall name :: name in declared <==> name in order
    {
      if names[i] in declared {
        return None;
      }
      declared := declared + {names[i]};
      order := order + [names[i]];
    }
    assert names[..|names|] == names;
    return Some(order);
  }

  // ----- Provider keys -----

  predicate KeyLess(a: Key, b: Key) {
    || Less(a.providerId, b.providerId)
    || (a.providerId == b.providerId
        && (|| Less(a.contractVersion, b.contractVersion)
            || (a.contractVersion == b.contractVersion
                && (a.abiMajor < b.abiMajor || (a.abiMajor == b.abiMajor && a.abiMinor < b.abiMinor)))))
  }

  predicate KeyLeq(a: Key, b: Key) { a == b || KeyLess(a, b) }

  lemma KeysTransitive(a: Key, b: Key, c: Key)
    requires KeyLeq(a, b) && KeyLeq(b, c)
    ensures KeyLeq(a, c)
  {
    hide Less;
    if Less(a.providerId, b.providerId) && Less(b.providerId, c.providerId) {
      LessTransitive(a.providerId, b.providerId, c.providerId);
    }
    if Less(a.contractVersion, b.contractVersion) && Less(b.contractVersion, c.contractVersion) {
      LessTransitive(a.contractVersion, b.contractVersion, c.contractVersion);
    }
  }

  lemma KeysAreTotal(a: Key, b: Key)
    ensures KeyLeq(a, b) || KeyLeq(b, a)
    ensures !(KeyLess(a, b) && KeyLeq(b, a))
  {
    hide Less;
    LessIsTotal(a.providerId, b.providerId);
    LessIsTotal(a.contractVersion, b.contractVersion);
  }

  lemma KeyOrder()
    ensures TotalPreorder(KeyLeq)
  {
    forall a: Key, b: Key ensures KeyLeq(a, b) || KeyLeq(b, a) {
      KeysAreTotal(a, b);
    }
    forall a: Key, b: Key, c: Key | KeyLeq(a, b) && KeyLeq(b, c) ensures KeyLeq(a, c) {
      KeysTransitive(a, b, c);
    }
  }

  predicate Ascending(keys: seq<Key>) { forall i, j | 0 <= i < j < |keys| :: KeyLess(keys[i], keys[j]) }

  /** Adjacent repetitions removed. */
  function Dedup(keys: seq<Key>): seq<Key> {
    if |keys| <= 1 then keys
    else if keys[0] == keys[1] then Dedup(keys[1..])
    else [keys[0]] + Dedup(keys[1..])
  }

  lemma {:induction false} DedupAscends(keys: seq<Key>)
    requires Sorted(keys, KeyLeq)
    ensures Ascending(Dedup(keys))
    ensures forall x :: x in Dedup(keys) ==> x in keys
  {
    if |keys| > 1 {
      DedupAscends(keys[1..]);
      if keys[0] != keys[1] {
        var rest := Dedup(keys[1..]);
        forall j | 0 <= j < |rest| ensures KeyLess(keys[0], rest[j]) {
          assert rest[j] in keys[1..];
          FirstIsLeast(keys[1..], rest[j], KeyLeq);
          assert KeyLess(keys[0], keys[1]);
          KeysTransitive(keys[0], keys[1], rest[j]);
          KeysAreTotal(keys[0], keys[1]);
        }
      }
    }
  }

  lemma {:induction false} AscendingIsDeduped(keys: seq<Key>)
    requires Ascending(keys)
    ensures Dedup(keys) == keys
  {
    if |keys| > 1 {
      KeysAreTotal(keys[0], keys[1]);
      AscendingIsDeduped(keys[1..]);
      assert keys == [keys[0]] + keys[1..];
    }
  }

  /** Sorting, removing repetitions and comparing accepts exactly the strictly ascending keys. */
  lemma SortedAndDeduped(keys: seq<Key>)
    ensures Dedup(Sort(keys, KeyLeq)) == keys <==> Ascending(keys)
  {
    KeyOrder();
    SortSorts(keys, KeyLeq);
    DedupAscends(Sort(keys, KeyLeq));
    if Ascending(keys) {
      SortedIsFixed(keys, KeyLeq);
      AscendingIsDeduped(keys);
    }
  }

  lemma {:induction false} DedupKeeps(keys: seq<Key>)
    ensures forall x | x in keys :: x in Dedup(keys)
  {
    if |keys| > 1 {
      DedupKeeps(keys[1..]);
    }
  }

  lemma AscendingIsDistinct(keys: seq<Key>)
    ensures Ascending(keys) ==> Distinct(keys)
  {
    forall i, j | Ascending(keys) && 0 <= i < j < |keys| ensures keys[i] != keys[j] {
      KeysAreTotal(keys[i], keys[j]);
    }
  }

  /** Removing repetitions from the sorted keys loses some exactly when they repeat. */
  lemma DedupedSize(keys: seq<Key>)
    ensures |Dedup(Sort(keys, KeyLeq))| == |keys| <==> Distinct(keys)
  {
    hide Dedup, Sort, Ascending, Distinct, TotalPreorder;
    KeyOrder();
    var sorted := Sort(keys, KeyLeq);
    SortSorts(keys, KeyLeq);
    DedupAscends(sorted);
    DedupKeeps(sorted);
    AscendingIsDistinct(Dedup(sorted));
    DistinctSize(Dedup(sorted));
    DistinctSize(keys);
    forall x ensures x in keys <==> x in Dedup(sorted) {
      assert x in keys <==> x in multiset(keys);
      assert x in sorted <==> x in multiset(sorted);
    }
    assert Elements(keys) == Elements(Dedup(sorted));
  }

  // ----- Case IDs -----

  function CaseIds(records: seq<Record>): (ids: seq<string>)
    ensures |ids| == |records| && forall i | 0 <= i < |ids| :: ids[i] == records[i].caseId
  {
    seq(|records|, i requires 0 <= i < |records| => records[i].caseId)
  }

  function ById(records: seq<Record>): map<string, Record> {
    if records == [] then map[] else
      ById(records[..|records| - 1])[records[|records| - 1].caseId := records[|records| - 1]]
  }

  lemma {:induction false} ByIdIs(records: seq<Record>)
    ensures ById(records).Keys == Elements(CaseIds(records))
    ensures forall id | id in ById(records) :: ById(records)[id] in records && ById(records)[id].caseId == id
  {
    if records != [] {
      var n := |records| - 1;
      ByIdIs(records[..n]);
      assert CaseIds(records) == CaseIds(records[..n]) + [records[n].caseId];
    }
  }

  // ----- One provider -----

  function Zipped(families: seq<string>): nat {
    if |families| < FIXTURES_PER_PROFILE then |families| else FIXTURES_PER_PROFILE
  }

  predicate Fit(key: Key, fixture: Record, family: string, check: Check) {
    fixture.family == family && check(key, fixture)
  }

  /** Seven known fixtures; those paired with a canonical family are of that family and pass the
      other checks. */
  predicate Ownable(d: Declaration, byId: map<string, Record>, families: seq<string>, check: Check) {
    && d.valid && |d.caseIds| == FIXTURES_PER_PROFILE
    && (forall i | 0 <= i < FIXTURES_PER_PROFILE :: d.caseIds[i] in byId)
    && forall i | 0 <= i < Zipped(families) :: Fit(d.key, byId[d.caseIds[i]], families[i], check)
  }

  function OwnerOf(d: Declaration, byId: map<string, Record>, families: seq<string>): (o: Owner)
    requires |d.caseIds| == FIXTURES_PER_PROFILE
    requires forall i | 0 <= i < FIXTURES_PER_PROFILE :: d.caseIds[i] in byId
  {
    Owner(d.key, seq(Zipped(families), i requires 0 <= i < Zipped(families) => byId[d.caseIds[i]]))
  }

  predicate OwnedBy(o: Owner, d: Declaration, byId: map<string, Record>, families: seq<string>) {
    && |d.caseIds| == FIXTURES_PER_PROFILE && (forall i | 0 <= i < FIXTURES_PER_PROFILE :: d.caseIds[i] in byId)
    && o == OwnerOf(d, byId, families)
  }

  /** Why one provider is refused; the numbers are places in its list of cases. */
  datatype Objection =
    | BadManifest | WrongCount | TakenCase(place: nat) | UnknownCase(place: nat) | UnfitFixture(place: nat)

  /** Its first cases are known, different and not yet taken. */
  predicate Free(d: Declaration, n: nat, byId: map<string, Record>, taken: set<string>) {
    && n <= |d.caseIds| && Distinct(d.caseIds[..n])
    && forall i | 0 <= i < n :: d.caseIds[i] in byId && d.caseIds[i] !in taken
  }

  /** The check that failed, with all checks before it passed. */
  predicate Objects(
    why: Objection, d: Declaration, byId: map<string, Record>, families: seq<string>, check: Check,
    taken: set<string>) {
    match why
    case BadManifest => !d.valid
    case WrongCount => d.valid && |d.caseIds| != FIXTURES_PER_PROFILE
    case TakenCase(i) =>
      && d.valid && |d.caseIds| == FIXTURES_PER_PROFILE && i < |d.caseIds| && Free(d, i, byId, taken)
      && (d.caseIds[i] in taken || d.caseIds[i] in d.caseIds[..i])
    case UnknownCase(i) =>
      && d.valid && |d.caseIds| == FIXTURES_PER_PROFILE && i < |d.caseIds| && Free(d, i, byId, taken)
      && d.caseIds[i] !in taken && d.caseIds[i] !in d.caseIds[..i] && d.caseIds[i] !in byId
    case UnfitFixture(i) =>
      && d.valid && |d.caseIds| == FIXTURES_PER_PROFILE && Free(d, FIXTURES_PER_PROFILE, byId, taken)
      && i < Zipped(families) && !Fit(d.key, byId[d.caseIds[i]], families[i], check)
      && forall j | 0 <= j < i :: Fit(d.key, byId[d.caseIds[j]], families[j], check)
  }

  datatype Answer = Granted(owner: Owner) | Denied(why: Objection)

  method AssignProvider(
    d: Declaration, byId: map<string, Record>, families: seq<string>, check: Check, taken: set<string>)
    returns (r: Answer, now: set<string>)
    ensures r.Granted? <==> Ownable(d, byId, families, check) && Distinct(d.caseIds) && Elements(d.caseIds) !! taken
    ensures r.Granted? ==> OwnedBy(r.owner, d, byId, families) && now == taken + Elements(d.caseIds)
    ensures r.Denied? ==> Objects(r.why, d, byId, families, check, taken)
  {
    now := taken;
    if !d.valid {
      return Denied(BadManifest), now;
    }
    if |d.caseIds| != FIXTURES_PER_PROFILE {
      return Denied(WrongCount), now;
    }
    var why, fixtures;
    why, fixtures, now := TakeCases(d, byId, taken);
    if why.Some? {
      return Denied(why.value), now;
    }
    assert d.caseIds[..|d.caseIds|] == d.caseIds;
    var fit := CountFit(d.key, fixtures, families, check);
    if fit < Zipped(families) {
      return Denied(UnfitFixture(fit)), now;
    }
    return Granted(Owner(d.key, fixtures[..fit])), now;
  }

  /** Takes the cases one by one and looks up their fixtures. */
  method TakeCases(d: Declaration, byId: map<string, Record>, taken: set<string>)
    returns (why: Option<Objection>, fixtures: seq<Record>, now: set<string>)
    ensures match why
      case None =>
        && Free(d, |d.caseIds|, byId, taken) && now == taken + Elements(d.caseIds) && |fixtures| == |d.caseIds|
        && forall j | 0 <= j < |d.caseIds| :: fixtures[j] == byId[d.caseIds[j]]
      case Some(TakenCase(i)) =>
        i < |d.caseIds| && Free(d, i, byId, taken) && (d.caseIds[i] in taken || d.caseIds[i] in d.caseIds[..i])
      case Some(UnknownCase(i)) =>
        && i < |d.caseIds| && Free(d, i, byId, taken)
        && d.caseIds[i] !in taken && d.caseIds[i] !in d.caseIds[..i] && d.caseIds[i] !in byId
      case _ => false
  {
    now, fixtures := taken, [];
    var ids := d.caseIds;
    for i := 0 to |ids|
      invariant now == taken + Elements(ids[..i]) && Free(d, i, byId, taken)
      invariant |fixtures| == i && forall j | 0 <= j < i :: fixtures[j] == byId[ids[j]]
    {
      assert ids[i] in now <==> ids[i] in taken || ids[i] in ids[..i];
      if ids[i] in now {
        return Some(TakenCase(i)), fixtures, now;
      }
      if ids[i] !in byId {
        return Some(UnknownCase(i)), fixtures, now;
      }
      assert ids[..i + 1] == ids[..i] + [ids[i]];
      now := now + {ids[i]};
      fixtures := fixtures + [byId[ids[i]]];
    }
    assert ids[..|ids|] == ids;
    why := None;
  }

  /** How many fixtures fit the families they are paired with before one does not. */
  method CountFit(key: Key, fixtures: seq<Record>, families: seq<string>, check: Check) returns (n: nat)
    requires |fixtures| == FIXTURES_PER_PROFILE
    ensures n <= Zipped(families) && forall j | 0 <= j < n :: Fit(key, fixtures[j], families[j], check)
    ensures n < Zipped(families) ==> !Fit(key, fixtures[n], families[n], check)
  {
    n := 0;
    while n < Zipped(families) && Fit(key, fixtures[n], families[n], check)
      invariant n <= Zipped(families) && forall j | 0 <= j < n :: Fit(key, fixtures[j], families[j], check)
    {
      n := n + 1;
    }
  }

  // ----- All providers -----

  function Assigned(declarations: seq<Declaration>): seq<string> {
    if declarations == [] then [] else
      Assigned(declarations[..|declarations| - 1]) + declarations[|declarations| - 1].caseIds
  }

  function Keys(declarations: seq<Declaration>): (keys: seq<Key>)
    ensures |keys| == |declarations| && forall i | 0 <= i < |keys| :: keys[i] == declarations[i].key
  {
    seq(|declarations|, i requires 0 <= i < |declarations| => declarations[i].key)
  }

  predicate AllOwnable(ds: seq<Declaration>, byId: map<string, Record>, families: seq<string>, check: Check) {
    forall i | 0 <= i < |ds| :: Ownable(ds[i], byId, families, check)
  }

  predicate Assignable(ds: seq<Declaration>, records: seq<Record>, families: seq<string>, check: Check) {
    && ds != [] && Distinct(CaseIds(records))
    && AllOwnable(ds, ById(records), families, check)
    && Distinct(Assigned(ds)) && |Assigned(ds)| == |records|
    && Ascending(Keys(ds))
  }

  lemma DistinctConcat(a: seq<string>, b: seq<string>)
    ensures Distinct(a + b) <==> Distinct(a) && Distinct(b) && Elements(a) !! Elements(b)
  {
    var c := a + b;
    if Distinct(c) {
      forall i, j | 0 <= i < j < |a| ensures a[i] != a[j] { assert c[i] != c[j]; }
      forall i, j | 0 <= i < j < |b| ensures b[i] != b[j] { assert c[|a| + i] != c[|a| + j]; }
      forall x | x in Elements(a) ensures x !in Elements(b) {
        var i :| 0 <= i < |a| && a[i] == x;
        forall j | 0 <= j < |b| ensures b[j] != x { assert c[i] != c[|a| + j]; }
      }
    }
    if Distinct(a) && Distinct(b) && Elements(a) !! Elements(b) {
      forall i, j | 0 <= i < j < |c| ensures c[i] != c[j] {
        assert i < |a| <= j ==> a[i] in Elements(a) && b[j - |a|] in Elements(b);
      }
    }
  }

  lemma {:induction false} AssignedPrefix(ds: seq<Declaration>, n: nat)
    requires n <= |ds| && Distinct(Assigned(ds))
    ensures Distinct(Assigned(ds[..n]))
    decreases |ds| - n
  {
    if n == |ds| {
      assert ds[..n] == ds;
    } else {
      AssignedPrefix(ds, n + 1);
      assert ds[..n + 1][..n] == ds[..n];
      DistinctConcat(Assigned(ds[..n]), ds[n].caseIds);
    }
  }

  lemma AssignedSnoc(ds: seq<Declaration>, n: nat)
    requires n < |ds|
    ensures Assigned(ds[..n + 1]) == Assigned(ds[..n]) + ds[n].caseIds
    ensures Elements(Assigned(ds[..n + 1])) == Elements(Assigned(ds[..n])) + Elements(ds[n].caseIds)
    ensures Distinct(Assigned(ds[..n + 1]))
       <==> && Distinct(Assigned(ds[..n])) && Distinct(ds[n].caseIds)
            && Elements(Assigned(ds[..n])) !! Elements(ds[n].caseIds)
  {
    assert ds[..n + 1][..n] == ds[..n];
    DistinctConcat(Assigned(ds[..n]), ds[n].caseIds);
  }

  method IndexRecords(records: seq<Record>) returns (byId: map<string, Record>)
    ensures byId == ById(records)
  {
    byId := map[];
    for i := 0 to |records|
      invariant byId == ById(records[..i])
    {
      assert records[..i + 1][..i] == records[..i];
      byId := byId[records[i].caseId := records[i]];
    }
    assert records[..|records|] == records;
  }

  /** The checks of a profile in the order in which they are made. */
  datatype Refusal =
    | NoProviders | RepeatedCase | RefusedProvider(index: nat, objection: Objection)
    | UnownedCase | RepeatedKey | UnorderedKeys

  datatype Outcome = Owned(owners: seq<Owner>) | Refused(why: Refusal)

  /** Every provider so far is accepted, and no case is taken twice. */
  predicate Accepted(ds: seq<Declaration>, byId: map<string, Record>, families: seq<string>, check: Check) {
    AllOwnable(ds, byId, families, check) && Distinct(Assigned(ds))
  }

  /** The check that failed, with all checks before it passed. */
  predicate Explains(
    why: Refusal, ds: seq<Declaration>, records: seq<Record>, families: seq<string>, check: Check) {
    var byId := ById(records);
    if why.NoProviders? then ds == []
    else if why.RepeatedCase? then ds != [] && !Distinct(CaseIds(records))
    else
      && ds != [] && Distinct(CaseIds(records))
      && if why.RefusedProvider? then
           && why.index < |ds| && Accepted(ds[..why.index], byId, families, check)
           && !Accepted(ds[..why.index + 1], byId, families, check)
           && Objects(why.objection, ds[why.index], byId, families, check, Elements(Assigned(ds[..why.index])))
         else
           && Accepted(ds, byId, families, check)
           && match why
              case RepeatedKey => |Assigned(ds)| == |records| && !Distinct(Keys(ds))
              case UnorderedKeys => |Assigned(ds)| == |records| && Distinct(Keys(ds)) && !Ascending(Keys(ds))
              case _ => |Assigned(ds)| != |records|
  }

  method AssignProviders(ds: seq<Declaration>, records: seq<Record>, families: seq<string>, check: Check)
    returns (r: Outcome)
    ensures r.Owned? <==> Assignable(ds, records, families, check)
    ensures r.Refused? ==> Explains(r.why, ds, records, families, check)
    ensures r.Owned? ==>
      |r.owners| == |ds| && forall i | 0 <= i < |ds| :: OwnedBy(r.owners[i], ds[i], ById(records), families)
  {
    hide Ownable, OwnedBy, Objects, Distinct, Ascending, Assigned, Elements, ById;
    if ds == [] {
      return Refused(NoProviders);
    }
    var byId := IndexRecords(records);
    CountById(records);
    if |byId| != |records| {
      return Refused(RepeatedCase);
    }
    var taken, owners := {}, [];
    AssignedNothing(ds);
    for i := 0 to |ds|
      invariant taken == Elements(Assigned(ds[..i])) && Accepted(ds[..i], byId, families, check)
      invariant |owners| == i
      invariant forall j | 0 <= j < i :: OwnedBy(owners[j], ds[j], byId, families)
    {
      AssignedSnoc(ds, i);
      assert ds[..i + 1] == ds[..i] + [ds[i]];
      var answer;
      answer, taken := AssignProvider(ds[i], byId, families, check, taken);
      if answer.Denied? {
        if Distinct(Assigned(ds)) { AssignedPrefix(ds, i + 1); }
        assert ds[..i + 1][i] == ds[i];
        return Refused(RefusedProvider(i, answer.why));
      }
      owners := owners + [answer.owner];
    }
    assert ds[..|ds|] == ds;
    DistinctSize(Assigned(ds));
    if |taken| != |records| {
      return Refused(UnownedCase);
    }
    SortedAndDeduped(Keys(ds));
    DedupedSize(Keys(ds));
    var keys := Dedup(Sort(Keys(ds), KeyLeq));
    if |keys| != |owners| {
      AscendingIsDistinct(Keys(ds));
      return Refused(RepeatedKey);
    }
    if keys != Keys(ds) {
      return Refused(UnorderedKeys);
    }
    return Owned(owners);
  }

  lemma AssignedNothing(ds: seq<Declaration>)
    ensures Elements(Assigned(ds[..0])) == {} && Distinct(Assigned(ds[..0]))
  {
  }

  lemma CountById(records: seq<Record>)
    ensures |ById(records)| == |records| <==> Distinct(CaseIds(records))
  {
    ByIdIs(records);
    DistinctSize(CaseIds(records));
    assert |ById(records)| == |ById(records).Keys|;
  }

  // ----- The assignment is a partition -----

  lemma {:induction false} AssignedAt(ds: seq<Declaration>, p: nat, k: nat)
    requires p < |ds| && k < FIXTURES_PER_PROFILE
    requires forall i | 0 <= i < |ds| :: |ds[i].caseIds| == FIXTURES_PER_PROFILE
    ensures |Assigned(ds)| == FIXTURES_PER_PROFILE * |ds|
    ensures Assigned(ds)[FIXTURES_PER_PROFILE * p + k] == ds[p].caseIds[k]
  {
    var n := |ds| - 1;
    if n > 0 {
      AssignedAt(ds[..n], if p < n then p else 0, k);
    }
  }

  predicate OwnsAt(ds: seq<Declaration>, byId: map<string, Record>, families: seq<string>, r: Record, p: nat, k: nat) {
    && p < |ds| && k < FIXTURES_PER_PROFILE && |ds[p].caseIds| == FIXTURES_PER_PROFILE
    && (forall i | 0 <= i < FIXTURES_PER_PROFILE :: ds[p].caseIds[i] in byId)
    && var fixtures := OwnerOf(ds[p], byId, families).fixtures;
       |fixtures| == FIXTURES_PER_PROFILE && fixtures[k] == r && k < |families| && r.family == families[k]
  }

  lemma EveryCaseIsAssigned(ds: seq<Declaration>, records: seq<Record>, families: seq<string>, check: Check)
    requires Assignable(ds, records, families, check)
    ensures Elements(Assigned(ds)) == Elements(CaseIds(records))
  {
    DistinctSize(Assigned(ds));
    DistinctSize(CaseIds(records));
    ByIdIs(records);
    AssignedAreKnown(ds, ById(records), families, check);
    SameSizeSubset(Elements(Assigned(ds)), Elements(CaseIds(records)));
  }

  lemma {:induction false} AssignedAreKnown(
    ds: seq<Declaration>, byId: map<string, Record>, families: seq<string>, check: Check)
    requires AllOwnable(ds, byId, families, check)
    ensures Elements(Assigned(ds)) <= byId.Keys
  {
    if ds != [] {
      var n := |ds| - 1;
      AssignedAreKnown(ds[..n], byId, families, check);
      assert Ownable(ds[n], byId, families, check);
    }
  }

  lemma RecordById(records: seq<Record>, r: Record)
    requires Distinct(CaseIds(records)) && r in records
    ensures r.caseId in ById(records) && ById(records)[r.caseId] == r
  {
    ByIdIs(records);
    var i :| 0 <= i < |records| && records[i] == r;
    assert CaseIds(records)[i] in Elements(CaseIds(records));
    var s := ById(records)[r.caseId];
    var j :| 0 <= j < |records| && records[j] == s;
    assert CaseIds(records)[i] == CaseIds(records)[j];
  }

  /** Under a contract of seven families, every record is owned by one provider, at the slot of
      its family. */
  lemma EveryRecordIsOwned(
    ds: seq<Declaration>, records: seq<Record>, families: seq<string>, check: Check, r: Record)
    returns (p: nat, k: nat)
    requires Assignable(ds, records, families, check) && |families| == FIXTURES_PER_PROFILE && r in records
    ensures OwnsAt(ds, ById(records), families, r, p, k)
  {
    hide ById, Assigned, Distinct, Ascending;
    RecordById(records, r);
    EveryCaseIsAssigned(ds, records, families, check);
    var i :| 0 <= i < |records| && records[i] == r;
    assert CaseIds(records)[i] in Elements(CaseIds(records));
    assert r.caseId in Elements(Assigned(ds));
    var m :| 0 <= m < |Assigned(ds)| && Assigned(ds)[m] == r.caseId;
    forall i | 0 <= i < |ds| ensures |ds[i].caseIds| == FIXTURES_PER_PROFILE {
      assert Ownable(ds[i], ById(records), families, check);
    }
    AssignedAt(ds, 0, 0);
    p, k := m / FIXTURES_PER_PROFILE, m % FIXTURES_PER_PROFILE;
    AssignedAt(ds, p, k);
    assert Ownable(ds[p], ById(records), families, check);
  }

  /** No slot is shared: what two slots hold alike is one slot, and the seven slots of a provider
      are all filled from the records. */
  lemma SlotsAreDisjoint(
    ds: seq<Declaration>, records: seq<Record>, families: seq<string>, check: Check, p: nat, k: nat, q: nat, j: nat)
    requires Assignable(ds, records, families, check) && |families| == FIXTURES_PER_PROFILE
    requires p < |ds| && q < |ds| && k < FIXTURES_PER_PROFILE && j < FIXTURES_PER_PROFILE
    ensures |records| == FIXTURES_PER_PROFILE * |ds|
    ensures Ownable(ds[p], ById(records), families, check) && Ownable(ds[q], ById(records), families, check)
    ensures var (a, b) := (OwnerOf(ds[p], ById(records), families), OwnerOf(ds[q], ById(records), families));
      && |a.fixtures| == |b.fixtures| == FIXTURES_PER_PROFILE
      && a.fixtures[k] in records && a.fixtures[k].family == families[k]
      && (a.fixtures[k] == b.fixtures[j] ==> p == q && k == j)
      && (p < q ==> KeyLess(a.key, b.key))
  {
    hide ById, Assigned;
    assert Ownable(ds[p], ById(records), families, check) && Ownable(ds[q], ById(records), families, check);
    forall i | 0 <= i < |ds| ensures |ds[i].caseIds| == FIXTURES_PER_PROFILE {
      assert Ownable(ds[i], ById(records), families, check);
    }
    ByIdIs(records);
    AssignedAt(ds, p, k);
    AssignedAt(ds, q, j);
    var m, n := FIXTURES_PER_PROFILE * p + k, FIXTURES_PER_PROFILE * q + j;
    if m != n {
      assert Assigned(ds)[m] != Assigned(ds)[n];
    }
    assert p < q ==> KeyLess(Keys(ds)[p], Keys(ds)[q]);
  }

  // ----- The order of the keys -----

  /** Which of the four parts of `a` come before, or are, those of `b`. */
  predicate PartLess(a: Key, b: Key, i: nat) {
    if i == 0 then Less(a.providerId, b.providerId)
    else if i == 1 then Less(a.contractVersion, b.contractVersion)
    else if i == 2 then a.abiMajor < b.abiMajor
    else a.abiMinor < b.abiMinor
  }

  predicate SameParts(a: Key, b: Key, n: nat) {
    && (n >= 1 ==> a.providerId == b.providerId) && (n >= 2 ==> a.contractVersion == b.contractVersion)
    && (n >= 3 ==> a.abiMajor == b.abiMajor)
  }

  /** The first part in which two keys differ decides. */
  lemma KeyLessIff(a: Key, b: Key)
    ensures KeyLess(a, b) <==> exists i | 0 <= i < 4 :: SameParts(a, b, i) && PartLess(a, b, i)
  {
    hide Less;
    assert SameParts(a, b, 0);
    if KeyLess(a, b) {
      assert exists i | 0 <= i < 4 :: SameParts(a, b, i) && PartLess(a, b, i) by {
        if Less(a.providerId, b.providerId) {
          assert PartLess(a, b, 0);
        } else if Less(a.contractVersion, b.contractVersion) {
          assert SameParts(a, b, 1) && PartLess(a, b, 1);
        } else if a.abiMajor < b.abiMajor {
          assert SameParts(a, b, 2) && PartLess(a, b, 2);
        } else {
          assert SameParts(a, b, 3) && PartLess(a, b, 3);
        }
      }
    }
  }
}
