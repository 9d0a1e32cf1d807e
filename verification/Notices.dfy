/** Third-party notices of the gateway: which crates of the workspace report the release build
    really contains, and that their licence texts survive the selection. */
module Notices {
  import opened Commons

  /** A package of the Cargo metadata; `source` is absent for path packages. */
  datatype Package = Package(name: string, version: string, source: Option<string>, ours: bool)

  /** A unit of the build graph; dependencies are unit indices as the graph gives them. */
  datatype BuildUnit = BuildUnit(package: string, buildMode: bool, dependencies: seq<int>)

  datatype Crate = Crate(id: string, name: string, version: string, source: Option<string>, licence: Option<string>)

  /** A licence text and the crates it covers. */
  datatype Licence = Licence(id: string, blank: bool, usedBy: seq<string>)

  datatype Report = Report(crates: seq<Crate>, licences: seq<Licence>)

  // ----- The report check -----

  datatype ReportError =
    | Empty
    | BlankText(id: string)
    | UnknownLicence(name: string, version: string)
    | NoText(name: string, version: string)

  /** The crates some licence with a text covers. */
  function Covered(licences: seq<Licence>): set<string> {
    if licences == [] then {}
    else
      var n := |licences| - 1;
      Covered(licences[..n]) + (if licences[n].blank then {} else set id | id in licences[n].usedBy)
  }

  predicate Known(licence: Option<string>) {
    licence.Some? && licence.value != "Unknown" && licence.value != ""
  }

  function LicenceErrors(licences: seq<Licence>): seq<ReportError> {
    if licences == [] then []
    else
      var n := |licences| - 1;
      LicenceErrors(licences[..n]) + if licences[n].blank then [BlankText(licences[n].id)] else []
  }

  function CrateError(crate: Crate, covered: set<string>): seq<ReportError> {
    if !Known(crate.licence) then [UnknownLicence(crate.name, crate.version)]
    else if crate.id !in covered then [NoText(crate.name, crate.version)]
    else []
  }

  function CrateErrors(crates: seq<Crate>, covered: set<string>): seq<ReportError> {
    if crates == [] then []
    else CrateErrors(crates[..|crates| - 1], covered) + CrateError(crates[|crates| - 1], covered)
  }

  /** The errors of a report: those of its texts in order, then those of its crates in order. */
  function ReportErrors(report: Report): seq<ReportError> {
    if report.crates == [] || report.licences == [] then [Empty]
    else LicenceErrors(report.licences) + CrateErrors(report.crates, Covered(report.licences))
  }

  method CheckReport(report: Report) returns (errors: seq<ReportError>)
    ensures errors == ReportErrors(report)
    ensures errors == [] <==> Clean(report)
  {
    hide Clean, CrateErrors;
    ErrorsIffUnclean(report);
    if report.crates == [] || report.licences == [] {
      return [Empty];
    }
    errors := [];
    var covered: set<string> := {};
    var licences, crates := report.licences, report.crates;
    for i := 0 to |licences|
      invariant covered == Covered(licences[..i]) && errors == LicenceErrors(licences[..i])
    {
      assert licences[..i + 1][..i] == licences[..i];
      assert errors + [] == errors && covered + {} == covered;
      if licences[i].blank {
        errors := errors + [BlankText(licences[i].id)];
      } else {
        covered := covered + set id | id in licences[i].usedBy;
      }
    }
    assert licences[..|licences|] == licences;
    var more := CheckCrates(crates, covered);
    errors := errors + more;
  }

  method CheckCrates(crates: seq<Crate>, covered: set<string>) returns (errors: seq<ReportError>)
    ensures errors == CrateErrors(crates, covered)
  {
    hide Known;
    errors := [];
    for i := 0 to |crates|
      invariant errors == CrateErrors(crates[..i], covered)
    {
      assert crates[..i + 1][..i] == crates[..i];
      assert errors + [] == errors;
      if !Known(crates[i].licence) {
        errors := errors + [UnknownLicence(crates[i].name, crates[i].version)];
      } else if crates[i].id !in covered {
        errors := errors + [NoText(crates[i].name, crates[i].version)];
      }
    }
    assert crates[..|crates|] == crates;
  }

  lemma {:induction false} NoLicenceErrors(licences: seq<Licence>)
    ensures LicenceErrors(licences) == [] <==> forall k | 0 <= k < |licences| :: !licences[k].blank
  {
    if licences != [] {
      var n := |licences| - 1;
      NoLicenceErrors(licences[..n]);
      assert forall k | 0 <= k < n :: licences[..n][k] == licences[k];
    }
  }

  lemma {:induction false} NoCrateErrors(crates: seq<Crate>, covered: set<string>)
    ensures CrateErrors(crates, covered) == [] <==> forall k | 0 <= k < |crates| :: CrateClean(crates[k], covered)
  {
    hide CrateError, CrateClean;
    if crates != [] {
      var n := |crates| - 1;
      NoCrateErrors(crates[..n], covered);
      NoCrateError(crates[n], covered);
    }
  }

  lemma NoCrateError(crate: Crate, covered: set<string>)
    ensures CrateError(crate, covered) == [] <==> CrateClean(crate, covered)
  {
    hide Known;
  }

  /** There is nothing to report exactly when the report is clean. */
  lemma ErrorsIffUnclean(report: Report)
    ensures ReportErrors(report) == [] <==> Clean(report)
  {
    hide LicenceErrors, CrateErrors, CrateClean, Covered;
    NoLicenceErrors(report.licences);
    NoCrateErrors(report.crates, Covered(report.licences));
  }

  predicate CrateClean(crate: Crate, covered: set<string>) { Known(crate.licence) && crate.id in covered }

  /** Every crate has an accepted licence and a licence text that covers it. */
  predicate Clean(report: Report) {
    && report.crates != [] && report.licences != []
    && (forall k | 0 <= k < |report.licences| :: !report.licences[k].blank)
    && (forall k | 0 <= k < |report.crates| :: CrateClean(report.crates[k], Covered(report.licences)))
  }

  lemma {:induction false} CoveredIs(licences: seq<Licence>, id: string)
    ensures id in Covered(licences)
       <==> exists k | 0 <= k < |licences| :: !licences[k].blank && id in licences[k].usedBy
  {
    if licences != [] {
      var n := |licences| - 1;
      CoveredIs(licences[..n], id);
      if k :| 0 <= k < n && !licences[..n][k].blank && id in licences[..n][k].usedBy {
        assert !licences[k].blank && id in licences[k].usedBy;
      }
      if k :| 0 <= k < |licences| && !licences[k].blank && id in licences[k].usedBy {
        if k < n {
          assert licences[..n][k] == licences[k];
        }
      }
    }
  }

  // ----- The gateway's own report -----

  /** What the selection reads: Cargo's packages and unit graph, the lock file and the report. */
  datatype Build = Build(
    packages: map<string, Package>, units: seq<BuildUnit>, roots: seq<int>,
    locked: set<(string, string, Option<string>)>, report: Report)

  predicate Registry(p: Package) { p.source.Some? && Starts(p.source.value, "registry+") }

  predicate IsUnit(b: Build, i: int) { 0 <= i < |b.units| }

  /** A unit the gateway may contain: built, of a known package, from the registry or ours. */
  predicate UnitGood(b: Build, i: int)
    requires IsUnit(b, i)
  {
    var u := b.units[i];
    u.buildMode && u.package in b.packages && (Registry(b.packages[u.package]) || b.packages[u.package].ours)
  }

  /** A chain of units from the root, each a dependency of the one before it. */
  predicate Chain(b: Build, p: seq<int>) {
    && p != [] && |b.roots| == 1 && p[0] == b.roots[0]
    && forall i | 1 <= i < |p| :: DependsOn(b, p[i - 1], p[i])
  }

  predicate DependsOn(b: Build, i: int, j: int) { IsUnit(b, i) && j in b.units[i].dependencies }

  ghost predicate Reachable(b: Build, i: int) { exists p :: Chain(b, p) && p[|p| - 1] == i }

  lemma RootIsReachable(b: Build)
    requires |b.roots| == 1
    ensures Reachable(b, b.roots[0])
  {
    assert Chain(b, [b.roots[0]]) && [b.roots[0]][0] == b.roots[0];
  }

  lemma ReachableGrows(b: Build, i: int)
    requires Reachable(b, i) && IsUnit(b, i)
    ensures forall j | j in b.units[i].dependencies :: Reachable(b, j)
  {
    var p :| Chain(b, p) && p[|p| - 1] == i;
    forall j | j in b.units[i].dependencies ensures Reachable(b, j) {
      var q := p + [j];
      forall k | 1 <= k < |q| ensures DependsOn(b, q[k - 1], q[k]) {
        if k < |p| {
          assert q[k] == p[k] && q[k - 1] == p[k - 1];
        }
      }
      assert q[|q| - 1] == j;
    }
  }

  lemma {:induction false} ChainStaysInside(b: Build, s: set<int>, p: seq<int>)
    requires Chain(b, p) && p[0] in s
    requires forall i, j | i in s && DependsOn(b, i, j) :: j in s
    ensures p[|p| - 1] in s
    decreases |p|
  {
    var n := |p| - 1;
    if n > 0 {
      ChainStaysInside(b, s, p[..n]);
    }
  }

  function Indices(n: nat): (s: set<int>)
    ensures |s| == n && forall i :: i in s <==> 0 <= i < n
  {
    if n == 0 then {} else Indices(n - 1) + {n - 1}
  }

  function AllUnits(b: Build): set<int> { Indices(|b.units|) }

  /** The registry packages among the packages of `units`. */
  function RegistryIds(b: Build, units: set<int>): set<string> {
    set i | i in units && FromRegistry(b, i) :: b.units[i].package
  }

  predicate FromRegistry(b: Build, i: int) {
    IsUnit(b, i) && b.units[i].package in b.packages && Registry(b.packages[b.units[i].package])
  }

  /** What the worklist keeps: everything met is reachable, everything visited is good, and what a
      visited unit needs is visited or pending. */
  ghost predicate Progress(b: Build, pending: seq<int>, visited: set<int>, selected: set<string>) {
    && |b.roots| == 1
    && (forall i | i in pending || i in visited :: Reachable(b, i))
    && (forall i | i in visited :: IsUnit(b, i) && UnitGood(b, i))
    && (b.roots[0] in visited || b.roots[0] in pending)
    && (forall i, j | i in visited && DependsOn(b, i, j) :: j in visited || j in pending)
    && selected == RegistryIds(b, visited)
  }

  lemma Start(b: Build)
    requires |b.roots| == 1
    ensures Progress(b, b.roots, {}, {})
  {
    RootIsReachable(b);
  }

  lemma Pop(b: Build, pending: seq<int>, index: int, visited: set<int>, selected: set<string>)
    requires Progress(b, pending + [index], visited, selected)
    ensures Reachable(b, index)
    ensures index in visited ==> Progress(b, pending, visited, selected)
  {
    hide Reachable, UnitGood, RegistryIds, DependsOn;
    assert index in pending + [index];
  }

  lemma Visit(b: Build, pending: seq<int>, index: int, visited: set<int>, selected: set<string>)
    requires Progress(b, pending + [index], visited, selected) && IsUnit(b, index) && UnitGood(b, index)
    ensures Progress(b, pending + b.units[index].dependencies, visited + {index},
              if Registry(b.packages[b.units[index].package]) then selected + {b.units[index].package} else selected)
  {
    RegistryGrows(b, visited, index);
    hide Reachable, Registry, RegistryIds;
    assert index in pending + [index];
    ReachableGrows(b, index);
  }

  lemma RegistryGrows(b: Build, visited: set<int>, index: int)
    requires IsUnit(b, index) && UnitGood(b, index)
    ensures RegistryIds(b, visited + {index})
      == if Registry(b.packages[b.units[index].package]) then RegistryIds(b, visited) + {b.units[index].package}
         else RegistryIds(b, visited)
  {
    hide Registry;
  }

  lemma Done(b: Build, visited: set<int>, selected: set<string>)
    requires Progress(b, [], visited, selected)
    ensures forall i :: i in visited <==> Reachable(b, i)
    ensures forall i | i in visited :: IsUnit(b, i) && UnitGood(b, i)
    ensures selected == RegistryIds(b, visited)
  {
    hide Reachable, UnitGood, RegistryIds;
    forall i | Reachable(b, i) ensures i in visited { VisitedIsReachable(b, visited, i); }
  }

  /** The worklist over the unit graph; `None` when it meets a unit it refuses. */
  method SelectUnits(b: Build) returns (r: Option<(set<int>, set<string>)>)
    requires |b.roots| == 1
    ensures r.Some? ==>
      && (forall i :: i in r.value.0 <==> Reachable(b, i))
      && (forall i | i in r.value.0 :: IsUnit(b, i) && UnitGood(b, i))
      && r.value.1 == RegistryIds(b, r.value.0)
    ensures r.None? ==> exists i :: Reachable(b, i) && !(IsUnit(b, i) && UnitGood(b, i))
  {
    hide Reachable, Registry, UnitGood, RegistryIds, Progress;
    var pending := b.roots;
    var visited: set<int> := {};
    var selected: set<string> := {};
    Start(b);
    while pending != []
      invariant Progress(b, pending, visited, selected)
      decreases AllUnits(b) - visited, |pending|
    {
      var n := |pending| - 1;
      var index := pending[n];
      assert pending == pending[..n] + [index];
      pending := pending[..n];
      Pop(b, pending, index, visited, selected);
      if !IsUnit(b, index) { return None; }
      if index !in visited {
        var unit := b.units[index];
        GoodUnitIs(b, index);
        if !unit.buildMode { return None; }
        if unit.package !in b.packages { return None; }
        var package := b.packages[unit.package];
        if !Registry(package) && !package.ours { return None; }
        Visit(b, pending, index, visited, selected);
        if Registry(package) {
          selected := selected + {unit.package};
        }
        assert index in AllUnits(b);
        visited := visited + {index};
        pending := pending + unit.dependencies;
      }
    }
    Done(b, visited, selected);
    return Some((visited, selected));
  }

  lemma GoodUnitIs(b: Build, i: int)
    requires IsUnit(b, i)
    ensures var u := b.units[i];
      UnitGood(b, i)
      <==> u.buildMode && u.package in b.packages && (Registry(b.packages[u.package]) || b.packages[u.package].ours)
  {
  }

  lemma VisitedIsReachable(b: Build, visited: set<int>, i: int)
    requires |b.roots| == 1 && b.roots[0] in visited && Reachable(b, i)
    requires forall i, j | i in visited && DependsOn(b, i, j) :: j in visited
    ensures i in visited
  {
    var p :| Chain(b, p) && p[|p| - 1] == i;
    ChainStaysInside(b, visited, p);
  }

  // ----- From the selection to the report -----

  function Ids(crates: seq<Crate>): set<string> { set i | 0 <= i < |crates| :: crates[i].id }

  /** The crate of the workspace report with the given identity. */
  function CrateOf(crates: seq<Crate>, id: string): Crate
    requires id in Ids(crates)
  {
    if crates[0].id == id then crates[0] else CrateTail(crates, id); CrateOf(crates[1..], id)
  }

  lemma CrateTail(crates: seq<Crate>, id: string)
    requires id in Ids(crates) && crates[0].id != id
    ensures id in Ids(crates[1..])
  {
    var i :| 0 <= i < |crates| && crates[i].id == id;
    assert crates[1..][i - 1] == crates[i];
  }

  lemma {:induction false} CrateOfIs(crates: seq<Crate>, id: string)
    requires id in Ids(crates)
    ensures CrateOf(crates, id).id == id && CrateOf(crates, id) in crates
  {
    if crates[0].id != id {
      CrateTail(crates, id);
      CrateOfIs(crates[1..], id);
    }
  }

  predicate DistinctIds(crates: seq<Crate>) { forall i, j | 0 <= i < j < |crates| :: crates[i].id != crates[j].id }

  /** The package is pinned by the lock file and the report describes the same package. */
  predicate IdentityHolds(b: Build, id: string)
    requires id in b.packages && id in Ids(b.report.crates)
  {
    var p, c := b.packages[id], CrateOf(b.report.crates, id);
    (p.name, p.version, p.source) in b.locked && c.name == p.name && c.version == p.version && c.source == p.source
  }

  /** A licence keeps its selected users; one that loses all of them is dropped. */
  function Narrow(licences: seq<Licence>, selected: set<string>): seq<Licence> {
    if licences == [] then []
    else
      var users := Users(licences[0].usedBy, selected);
      (if users == [] then [] else [licences[0].(usedBy := users)]) + Narrow(licences[1..], selected)
  }

  function Users(usedBy: seq<string>, selected: set<string>): (us: seq<string>)
    ensures forall id :: id in us <==> id in usedBy && id in selected
  {
    if usedBy == [] then []
    else (if usedBy[0] in selected then [usedBy[0]] else []) + Users(usedBy[1..], selected)
  }

  /** How the selected identities are listed; any order without omission or repetition will do. */
  type Order = set<string> -> seq<string>

  ghost predicate Enumerates(order: Order) {
    forall s ::
      (forall x :: x in order(s) <==> x in s) && forall i, j | 0 <= i < j < |order(s)| :: order(s)[i] != order(s)[j]
  }

  function Narrowed(b: Build, order: Order, selected: set<string>): Report
    requires Enumerates(order) && selected <= Ids(b.report.crates)
  {
    var ids := order(selected);
    Report(
      seq(|ids|, i requires 0 <= i < |ids| => CrateOf(b.report.crates, ids[i])), Narrow(b.report.licences, selected))
  }

  /** When the gateway's report can be selected at all. */
  ghost predicate Selectable(b: Build) {
    && |b.roots| == 1
    && (forall i | 0 <= i < |b.units| :: Reachable(b, i) && UnitGood(b, i))
    && (forall i, j | DependsOn(b, i, j) :: IsUnit(b, j)) && IsUnit(b, b.roots[0])
    && RegistryIds(b, AllUnits(b)) != {}
    && DistinctIds(b.report.crates) && RegistryIds(b, AllUnits(b)) <= Ids(b.report.crates)
    && forall id | id in RegistryIds(b, AllUnits(b)) :: id in b.packages && IdentityHolds(b, id)
  }

  lemma AllVisited(b: Build, visited: set<int>)
    requires forall i | i in visited :: IsUnit(b, i)
    ensures |visited| == |b.units| <==> visited == AllUnits(b)
  {
    var rest := AllUnits(b) - visited;
    assert AllUnits(b) == visited + rest;
    if rest == {} {
      assert visited == AllUnits(b);
    }
  }

  lemma UnvisitedUnit(b: Build, visited: set<int>)
    requires (forall i :: i in visited <==> Reachable(b, i)) && (forall i | i in visited :: IsUnit(b, i))
    requires visited != AllUnits(b)
    ensures !Selectable(b)
  {
    hide Reachable, UnitGood, IdentityHolds, RegistryIds, DistinctIds;
    var i :| i in AllUnits(b) && i !in visited;
  }

  /** Selects the units, refuses unrelated ones and mismatched packages, and narrows the report.
      It succeeds exactly on selectable builds and returns exactly their registry packages. */
  method GatewayReport(b: Build, order: Order) returns (r: Option<Report>)
    requires Enumerates(order)
    ensures r.Some? <==> Selectable(b)
    ensures r.Some? ==> r.value == Narrowed(b, order, RegistryIds(b, AllUnits(b)))
  {
    hide Reachable, UnitGood, IdentityHolds, RegistryIds, DistinctIds, Narrowed, Ids;
    if |b.roots| != 1 { return None; }
    if !IsUnit(b, b.roots[0]) { return None; }
    var units := SelectUnits(b);
    if units.None? {
      UnselectableUnit(b);
      return None;
    }
    var (visited, selected) := units.value;
    AllVisited(b, visited);
    if |visited| != |b.units| {
      UnvisitedUnit(b, visited);
      return None;
    }
    if selected == {} { return None; }
    if !DistinctIds(b.report.crates) || !(selected <= Ids(b.report.crates)) { return None; }
    SelectedAreKnown(b);
    if !(forall id | id in selected :: IdentityHolds(b, id)) { return None; }
    forall i, j | DependsOn(b, i, j) ensures IsUnit(b, j) { ReachableGrows(b, i); }
    return Some(Narrowed(b, order, selected));
  }

  lemma SelectedAreKnown(b: Build)
    ensures forall id | id in RegistryIds(b, AllUnits(b)) :: id in b.packages
  {
  }

  /** A refused unit makes the build unselectable. */
  lemma UnselectableUnit(b: Build)
    requires |b.roots| == 1 && exists i :: Reachable(b, i) && !(IsUnit(b, i) && UnitGood(b, i))
    ensures !Selectable(b)
  {
    hide UnitGood, IdentityHolds, RegistryIds, DistinctIds;
    var i :| Reachable(b, i) && !(IsUnit(b, i) && UnitGood(b, i));
    if !IsUnit(b, i) {
      var p :| Chain(b, p) && p[|p| - 1] == i;
      assert |p| > 1 ==> DependsOn(b, p[|p| - 2], i);
    }
  }

  // ----- Licence coverage survives -----

  lemma {:induction false} NarrowKeeps(licences: seq<Licence>, selected: set<string>)
    requires forall k | 0 <= k < |licences| :: !licences[k].blank
    ensures forall k | 0 <= k < |Narrow(licences, selected)| :: !Narrow(licences, selected)[k].blank
    ensures forall id | id in selected && id in Covered(licences) :: id in Covered(Narrow(licences, selected))
    decreases |licences|
  {
    forall id | id in selected && id in Covered(licences) ensures id in Covered(Narrow(licences, selected)) {
      CoveredIs(licences, id);
      var k :| 0 <= k < |licences| && !licences[k].blank && id in licences[k].usedBy;
      NarrowedUse(licences, selected, k, id);
      CoveredIs(Narrow(licences, selected), id);
    }
    NarrowNotBlank(licences, selected);
  }

  lemma {:induction false} NarrowNotBlank(licences: seq<Licence>, selected: set<string>)
    requires forall k | 0 <= k < |licences| :: !licences[k].blank
    ensures forall k | 0 <= k < |Narrow(licences, selected)| :: !Narrow(licences, selected)[k].blank
  {
    if licences != [] {
      NarrowNotBlank(licences[1..], selected);
    }
  }

  lemma {:induction false} NarrowedUse(licences: seq<Licence>, selected: set<string>, k: nat, id: string)
    requires k < |licences| && !licences[k].blank && id in licences[k].usedBy && id in selected
    ensures exists j | 0 <= j < |Narrow(licences, selected)| ::
      !Narrow(licences, selected)[j].blank && id in Narrow(licences, selected)[j].usedBy
    decreases k
  {
    var r := Narrow(licences, selected);
    var users := Users(licences[0].usedBy, selected);
    var tail := Narrow(licences[1..], selected);
    var head := if users == [] then [] else [licences[0].(usedBy := users)];
    assert r == head + tail;
    if k == 0 {
      assert !r[0].blank && id in r[0].usedBy;
    } else {
      NarrowedUse(licences[1..], selected, k - 1, id);
      var j :| 0 <= j < |tail| && !tail[j].blank && id in tail[j].usedBy;
      assert r[|head| + j] == tail[j];
    }
  }

  /** If the workspace report is clean, so is the gateway's: the second check cannot fail. */
  lemma SelectionStaysClean(b: Build, order: Order)
    requires Enumerates(order) && Clean(b.report) && Selectable(b)
    ensures Clean(Narrowed(b, order, RegistryIds(b, AllUnits(b))))
  {
    hide Reachable, UnitGood, IdentityHolds, RegistryIds, Covered, Known, CrateOf, Narrow, Ids;
    var selected := RegistryIds(b, AllUnits(b));
    var r := Narrowed(b, order, selected);
    var ids := order(selected);
    NarrowKeeps(b.report.licences, selected);
    var some :| some in selected;
    assert some in ids;
    forall k | 0 <= k < |r.crates| ensures CrateClean(r.crates[k], Covered(r.licences)) {
      var c := r.crates[k];
      assert ids[k] in selected;
      CrateOfIs(b.report.crates, ids[k]);
      var i :| 0 <= i < |b.report.crates| && b.report.crates[i] == c;
      assert CrateClean(b.report.crates[i], Covered(b.report.licences));
    }
    assert r.crates[0].id in Covered(r.licences);
    CoveredIs(r.licences, r.crates[0].id);
  }

  // ----- What each error means -----

  predicate Blanks(licences: seq<Licence>, id: string) {
    exists k | 0 <= k < |licences| :: licences[k].blank && licences[k].id == id
  }

  /** A licence that is missing, empty or unknown. */
  predicate Unaccepted(crate: Crate) {
    crate.licence == None || crate.licence == Some("") || crate.licence == Some("Unknown")
  }

  predicate HasText(crate: Crate, licences: seq<Licence>) {
    exists k | 0 <= k < |licences| :: !licences[k].blank && crate.id in licences[k].usedBy
  }

  lemma {:induction false} LicenceErrorsAre(licences: seq<Licence>, e: ReportError)
    ensures e in LicenceErrors(licences) <==> e.BlankText? && Blanks(licences, e.id)
  {
    if licences != [] {
      var n := |licences| - 1;
      LicenceErrorsAre(licences[..n], e);
      assert forall k | 0 <= k < n :: licences[..n][k] == licences[k];
    }
  }

  lemma {:induction false} CrateErrorsAre(crates: seq<Crate>, covered: set<string>, e: ReportError)
    ensures e in CrateErrors(crates, covered)
       <==> exists k | 0 <= k < |crates| :: e in CrateError(crates[k], covered)
  {
    hide CrateError;
    if crates != [] {
      var n := |crates| - 1;
      CrateErrorsAre(crates[..n], covered, e);
      assert forall k | 0 <= k < n :: crates[..n][k] == crates[k];
    }
  }

  /** The error of one crate: its licence first, then its text. */
  predicate Explains(e: ReportError, crate: Crate, licences: seq<Licence>) {
    match e
    case UnknownLicence(name, version) => name == crate.name && version == crate.version && Unaccepted(crate)
    case NoText(name, version) =>
      name == crate.name && version == crate.version && !Unaccepted(crate) && !HasText(crate, licences)
    case _ => false
  }

  lemma CrateErrorIs(crate: Crate, licences: seq<Licence>, e: ReportError)
    ensures e in CrateError(crate, Covered(licences)) <==> Explains(e, crate, licences)
  {
    hide Covered;
    CoveredIs(licences, crate.id);
    assert Known(crate.licence) <==> !Unaccepted(crate);
    hide Known, Unaccepted;
    assert crate.id in Covered(licences) <==> HasText(crate, licences);
  }

  /** An error is reported exactly when a text is blank, or a crate has no accepted licence, or has one
      and no text that covers it. */
  lemma ErrorsAre(report: Report, e: ReportError)
    requires report.crates != [] && report.licences != []
    ensures e in ReportErrors(report)
       <==> || (e.BlankText? && Blanks(report.licences, e.id))
            || exists k | 0 <= k < |report.crates| :: Explains(e, report.crates[k], report.licences)
  {
    hide LicenceErrors, CrateErrors, CrateError, Covered, Explains, Blanks;
    LicenceErrorsAre(report.licences, e);
    CrateErrorsAre(report.crates, Covered(report.licences), e);
    forall k | 0 <= k < |report.crates|
      ensures e in CrateError(report.crates[k], Covered(report.licences))
         <==> Explains(e, report.crates[k], report.licences)
    {
      CrateErrorIs(report.crates[k], report.licences, e);
    }
  }
}
