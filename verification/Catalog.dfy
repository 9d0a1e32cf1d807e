/** The generated catalog: fixtures are numbered in one pass and referenced in another, auxiliary
    files are numbered by the first and written by a third. */
module Catalog {
  import opened Cbor
  import opened Sums

  datatype Fixture = Fixture(caseId: string, auxiliary: seq<bytes>)
  datatype Provider = Provider(fixtures: seq<Fixture>)
  datatype Profile = Profile(providers: seq<Provider>)

  /** A `catalog_fixture_<index>` function and the `aux/<i>.bin` files its members include. */
  datatype FixtureFunction = FixtureFunction(index: nat, fixture: Fixture, files: seq<nat>)

  /** A `catalog_profile_<index>` function and the fixture functions each of its providers calls. */
  datatype ProfileFunction = ProfileFunction(index: nat, calls: seq<seq<nat>>)

  // ----- Catalog order -----

  function ProviderFixtures(providers: seq<Provider>): seq<Fixture> {
    if providers == [] then [] else
      ProviderFixtures(providers[..|providers| - 1]) + providers[|providers| - 1].fixtures
  }

  function Fixtures(profiles: seq<Profile>): seq<Fixture> {
    if profiles == [] then [] else
      Fixtures(profiles[..|profiles| - 1]) + ProviderFixtures(profiles[|profiles| - 1].providers)
  }

  function Auxiliary(fixtures: seq<Fixture>): seq<bytes> {
    if fixtures == [] then [] else
      Auxiliary(fixtures[..|fixtures| - 1]) + fixtures[|fixtures| - 1].auxiliary
  }

  /** The numbers `first`, `first + 1`, and so on. */
  function Range(first: nat, count: nat): (r: seq<nat>)
    ensures |r| == count
  {
    seq<nat>(count, i requires 0 <= i < count => first + i)
  }

  // ----- What the passes emit -----

  function FixtureFunctions(fixtures: seq<Fixture>): seq<FixtureFunction> {
    if fixtures == [] then [] else
      var n := |fixtures| - 1;
      FixtureFunctions(fixtures[..n])
      + [FixtureFunction(n, fixtures[n], Range(|Auxiliary(fixtures[..n])|, |fixtures[n].auxiliary|))]
  }

  function Calls(providers: seq<Provider>, first: nat): seq<seq<nat>> {
    if providers == [] then [] else
      var n := |providers| - 1;
      Calls(providers[..n], first)
      + [Range(first + |ProviderFixtures(providers[..n])|, |providers[n].fixtures|)]
  }

  function ProfileFunctions(profiles: seq<Profile>): seq<ProfileFunction> {
    if profiles == [] then [] else
      var n := |profiles| - 1;
      ProfileFunctions(profiles[..n])
      + [ProfileFunction(n, Calls(profiles[n].providers, |Fixtures(profiles[..n])|))]
  }

  /** One more fixture after the ones already emitted. */
  lemma Extends(done: seq<Fixture>, fixture: Fixture)
    ensures FixtureFunctions(done + [fixture])
      == FixtureFunctions(done)
       + [FixtureFunction(|done|, fixture, Range(|Auxiliary(done)|, |fixture.auxiliary|))]
    ensures Auxiliary(done + [fixture]) == Auxiliary(done) + fixture.auxiliary
  {
    assert (done + [fixture])[..|done|] == done;
  }

  method EmitFixtures(profiles: seq<Profile>) returns (functions: seq<FixtureFunction>)
    ensures functions == FixtureFunctions(Fixtures(profiles))
  {
    hide FixtureFunctions, Auxiliary;
    functions := [];
    var fixtureIndex, auxiliaryIndex := 0, 0;
    ghost var done: seq<Fixture> := [];
    assert FixtureFunctions([]) == [] && Auxiliary([]) == [] by { NothingEmitted(); }
    for p := 0 to |profiles|
      invariant done == Fixtures(profiles[..p])
      invariant functions == FixtureFunctions(done)
      invariant fixtureIndex == |done| && auxiliaryIndex == |Auxiliary(done)|
    {
      var providers := profiles[p].providers;
      ghost var before := done;
      assert before + [] == before;
      for q := 0 to |providers|
        invariant done == before + ProviderFixtures(providers[..q])
        invariant functions == FixtureFunctions(done)
        invariant fixtureIndex == |done| && auxiliaryIndex == |Auxiliary(done)|
      {
        var fixtures := providers[q].fixtures;
        ghost var start := done;
        for k := 0 to |fixtures|
          invariant done == start + fixtures[..k]
          invariant functions == FixtureFunctions(done)
          invariant fixtureIndex == |done| && auxiliaryIndex == |Auxiliary(done)|
        {
          Extends(done, fixtures[k]);
          functions := functions
            + [FixtureFunction(fixtureIndex, fixtures[k], Range(auxiliaryIndex, |fixtures[k].auxiliary|))];
          fixtureIndex := fixtureIndex + 1;
          auxiliaryIndex := auxiliaryIndex + |fixtures[k].auxiliary|;
          done := done + [fixtures[k]];
        }
        assert providers[..q + 1][..q] == providers[..q];
        assert fixtures[..|fixtures|] == fixtures;
        assert before + ProviderFixtures(providers[..q]) + fixtures
            == before + (ProviderFixtures(providers[..q]) + fixtures);
      }
      assert providers[..|providers|] == providers;
      assert profiles[..p + 1][..p] == profiles[..p];
    }
    assert profiles[..|profiles|] == profiles;
  }

  lemma NothingEmitted()
    ensures FixtureFunctions([]) == [] && Auxiliary([]) == []
  {
  }

  method EmitProfile(profile: Profile, profileIndex: nat, first: nat) returns (r: ProfileFunction)
    ensures r == ProfileFunction(profileIndex, Calls(profile.providers, first))
  {
    var fixtureIndex, calls := first, [];
    var providers := profile.providers;
    for q := 0 to |providers|
      invariant calls == Calls(providers[..q], first)
      invariant fixtureIndex == first + |ProviderFixtures(providers[..q])|
    {
      assert providers[..q + 1][..q] == providers[..q];
      calls := calls + [Range(fixtureIndex, |providers[q].fixtures|)];
      fixtureIndex := fixtureIndex + |providers[q].fixtures|;
    }
    assert providers[..|providers|] == providers;
    return ProfileFunction(profileIndex, calls);
  }

  method EmitProfiles(profiles: seq<Profile>) returns (functions: seq<ProfileFunction>)
    ensures functions == ProfileFunctions(profiles)
  {
    functions := [];
    var first := 0;
    for p := 0 to |profiles|
      invariant functions == ProfileFunctions(profiles[..p])
      invariant first == |Fixtures(profiles[..p])|
    {
      assert profiles[..p + 1][..p] == profiles[..p];
      var profileFunction := EmitProfile(profiles[p], p, first);
      functions := functions + [profileFunction];
      var total := CountFixtures(profiles[p].providers);
      first := first + total;
    }
    assert profiles[..|profiles|] == profiles;
  }

  method CountFixtures(providers: seq<Provider>) returns (total: nat)
    ensures total == |ProviderFixtures(providers)|
  {
    total := 0;
    for q := 0 to |providers|
      invariant total == |ProviderFixtures(providers[..q])|
    {
      assert providers[..q + 1][..q] == providers[..q];
      total := total + |providers[q].fixtures|;
    }
    assert providers[..|providers|] == providers;
  }

  /** The auxiliary directory: file `i.bin` holds member `i` in catalog order. */
  method WriteAuxiliaryFiles(profiles: seq<Profile>) returns (files: map<nat, bytes>)
    ensures files == Written(Auxiliary(Fixtures(profiles)))
  {
    var members := Auxiliary(Fixtures(profiles));
    files := map[];
    for i := 0 to |members|
      invariant files == Written(members[..i])
    {
      files := files[i := members[i]];
    }
    assert members[..|members|] == members;
  }

  function Written(members: seq<bytes>): map<nat, bytes> {
    map i: nat | i < |members| :: members[i]
  }

  // ----- The passes agree -----

  lemma {:induction false} FunctionIs(fixtures: seq<Fixture>, i: nat)
    requires i < |fixtures|
    ensures |FixtureFunctions(fixtures)| == |fixtures|
    ensures var f := FixtureFunctions(fixtures)[i];
      && f.index == i && f.fixture == fixtures[i] && |f.files| == |fixtures[i].auxiliary|
      && forall j | 0 <= j < |f.files| ::
           f.files[j] < |Auxiliary(fixtures)| && Auxiliary(fixtures)[f.files[j]] == fixtures[i].auxiliary[j]
  {
    var n := |fixtures| - 1;
    FunctionsLength(fixtures[..n]);
    if i < n {
      FunctionIs(fixtures[..n], i);
    }
  }

  lemma {:induction false} FunctionsLength(fixtures: seq<Fixture>)
    ensures |FixtureFunctions(fixtures)| == |fixtures|
  {
    if fixtures != [] {
      FunctionsLength(fixtures[..|fixtures| - 1]);
    }
  }

  lemma {:induction false} CallsAre(providers: seq<Provider>, first: nat, q: nat, k: nat)
    requires q < |providers| && k < |providers[q].fixtures|
    ensures |Calls(providers, first)| == |providers|
    ensures |Calls(providers, first)[q]| == |providers[q].fixtures|
    ensures var i := Calls(providers, first)[q][k] - first;
      0 <= i < |ProviderFixtures(providers)| && ProviderFixtures(providers)[i] == providers[q].fixtures[k]
  {
    hide Range;
    var n := |providers| - 1;
    var front, fixtures := providers[..n], providers[n].fixtures;
    var done := ProviderFixtures(front);
    CallsLength(front, first);
    assert ProviderFixtures(providers) == done + fixtures;
    var last := Range(first + |done|, |fixtures|);
    assert Calls(providers, first) == Calls(front, first) + [last];
    if q < n {
      CallsAre(front, first, q, k);
    } else {
      RangeAt(first + |done|, |fixtures|, k);
      assert (done + fixtures)[|done| + k] == fixtures[k];
    }
  }

  lemma RangeAt(first: nat, count: nat, i: nat)
    requires i < count
    ensures Range(first, count)[i] == first + i
  {
  }

  lemma {:induction false} CallsLength(providers: seq<Provider>, first: nat)
    ensures |Calls(providers, first)| == |providers|
    ensures forall q | 0 <= q < |providers| :: |Calls(providers, first)[q]| == |providers[q].fixtures|
  {
    if providers != [] {
      CallsLength(providers[..|providers| - 1], first);
    }
  }

  lemma {:induction false} ProfilesLength(profiles: seq<Profile>)
    ensures |ProfileFunctions(profiles)| == |profiles|
  {
    if profiles != [] {
      ProfilesLength(profiles[..|profiles| - 1]);
    }
  }

  lemma {:induction false} ProfileCallsAre(profiles: seq<Profile>, p: nat, q: nat, k: nat)
    requires p < |profiles| && q < |profiles[p].providers| && k < |profiles[p].providers[q].fixtures|
    ensures |ProfileFunctions(profiles)| == |profiles|
    ensures var calls := ProfileFunctions(profiles)[p].calls;
      && |calls| == |profiles[p].providers| && |calls[q]| == |profiles[p].providers[q].fixtures|
      && calls[q][k] < |Fixtures(profiles)|
      && Fixtures(profiles)[calls[q][k]] == profiles[p].providers[q].fixtures[k]
  {
    hide Calls, ProviderFixtures;
    var n := |profiles| - 1;
    ProfilesLength(profiles[..n]);
    if p < n {
      ProfileCallsAre(profiles[..n], p, q, k);
    } else {
      var providers, first := profiles[n].providers, |Fixtures(profiles[..n])|;
      CallsAre(providers, first, q, k);
      CallsLength(providers, first);
    }
  }

  /** Every call of a profile reaches the function of its own provider's fixture, and every file
      that function includes holds the bytes of that fixture's member. */
  lemma PassesAgree(profiles: seq<Profile>, p: nat, q: nat, k: nat)
    requires p < |profiles| && q < |profiles[p].providers| && k < |profiles[p].providers[q].fixtures|
    ensures |ProfileFunctions(profiles)| == |profiles|
    ensures var calls := ProfileFunctions(profiles)[p].calls;
      && |calls| == |profiles[p].providers| && |calls[q]| == |profiles[p].providers[q].fixtures|
      && calls[q][k] < |FixtureFunctions(Fixtures(profiles))|
      && var f := FixtureFunctions(Fixtures(profiles))[calls[q][k]];
      && f.index == calls[q][k] && f.fixture == profiles[p].providers[q].fixtures[k]
      && |f.files| == |f.fixture.auxiliary|
      && forall j | 0 <= j < |f.files| ::
           var files := Written(Auxiliary(Fixtures(profiles)));
           f.files[j] in files && files[f.files[j]] == f.fixture.auxiliary[j]
  {
    hide ProfileFunctions, FixtureFunctions, Fixtures, Auxiliary;
    ProfileCallsAre(profiles, p, q, k);
    FunctionIs(Fixtures(profiles), ProfileFunctions(profiles)[p].calls[q][k]);
  }

  // ----- Once each -----

  function AllCalls(functions: seq<ProfileFunction>): seq<nat> {
    if functions == [] then [] else
      AllCalls(functions[..|functions| - 1]) + Concat(functions[|functions| - 1].calls)
  }

  function AllFiles(functions: seq<FixtureFunction>): seq<nat> {
    if functions == [] then [] else
      AllFiles(functions[..|functions| - 1]) + functions[|functions| - 1].files
  }

  lemma {:induction false} ProviderCallsInOrder(providers: seq<Provider>, first: nat)
    ensures Concat(Calls(providers, first)) == Range(first, |ProviderFixtures(providers)|)
  {
    if providers != [] {
      var n := |providers| - 1;
      ProviderCallsInOrder(providers[..n], first);
      var front := Calls(providers[..n], first);
      var last := Range(first + |ProviderFixtures(providers[..n])|, |providers[n].fixtures|);
      assert (front + [last])[..|front|] == front;
    }
  }

  lemma RangesJoin(first: nat, m: nat, n: nat)
    ensures Range(first, m) + Range(first + m, n) == Range(first, m + n)
  {
  }

  lemma AllCallsSnoc(functions: seq<ProfileFunction>, f: ProfileFunction)
    ensures AllCalls(functions + [f]) == AllCalls(functions) + Concat(f.calls)
  {
    hide Concat;
    assert (functions + [f])[..|functions|] == functions;
  }

  /** Each number below the fixture count is called exactly once, in order. */
  lemma {:induction false} CalledOnce(profiles: seq<Profile>)
    ensures AllCalls(ProfileFunctions(profiles)) == Range(0, |Fixtures(profiles)|)
  {
    hide *;
    if profiles == [] {
      assert AllCalls(ProfileFunctions([])) == Range(0, |Fixtures([])|) by { NothingCalled(); }
    } else {
      var n := |profiles| - 1;
      var front, providers := profiles[..n], profiles[n].providers;
      CalledOnce(front);
      CalledOnceStep(profiles);
      ProviderCallsInOrder(providers, |Fixtures(front)|);
      RangesJoin(0, |Fixtures(front)|, |ProviderFixtures(providers)|);
    }
  }

  lemma NothingCalled()
    ensures AllCalls(ProfileFunctions([])) == Range(0, |Fixtures([])|)
  {
  }

  lemma CalledOnceStep(profiles: seq<Profile>)
    requires profiles != []
    ensures var (front, providers) := (profiles[..|profiles| - 1], profiles[|profiles| - 1].providers);
      && AllCalls(ProfileFunctions(profiles))
         == AllCalls(ProfileFunctions(front)) + Concat(Calls(providers, |Fixtures(front)|))
      && |Fixtures(profiles)| == |Fixtures(front)| + |ProviderFixtures(providers)|
  {
    hide Calls, Concat, ProviderFixtures, AllCalls;
    var n := |profiles| - 1;
    AllCallsSnoc(ProfileFunctions(profiles[..n]),
                 ProfileFunction(n, Calls(profiles[n].providers, |Fixtures(profiles[..n])|)));
  }

  /** Each auxiliary file is included exactly once, in order. */
  lemma {:induction false} IncludedOnce(fixtures: seq<Fixture>)
    ensures AllFiles(FixtureFunctions(fixtures)) == Range(0, |Auxiliary(fixtures)|)
  {
    if fixtures != [] {
      var n := |fixtures| - 1;
      IncludedOnce(fixtures[..n]);
      var front := FixtureFunctions(fixtures[..n]);
      var last := FixtureFunction(n, fixtures[n], Range(|Auxiliary(fixtures[..n])|, |fixtures[n].auxiliary|));
      assert (front + [last])[..|front|] == front;
    }
  }
}
