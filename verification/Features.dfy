/** The features a crate enables by default: everything reachable from `default`. */
module Features {
  import opened Commons

  type Table = map<string, seq<string>>

  /** A member that names a feature of the same crate, not a dependency or its feature. */
  predicate IsLocal(member: string) { '/' !in member && !Starts(member, "dep:") }

  function Locals(members: seq<string>): (ls: seq<string>)
    ensures forall m :: m in ls <==> m in members && IsLocal(m)
  {
    if members == [] then []
    else (if IsLocal(members[0]) then [members[0]] else []) + Locals(members[1..])
  }

  function Enabled(features: Table, feature: string): seq<string> {
    if feature in features then Locals(features[feature]) else []
  }

  ghost predicate Closed(features: Table, s: set<string>) {
    forall f, m | f in s && m in Enabled(features, f) :: m in s
  }

  /** Every feature that occurs at all. */
  ghost function Universe(features: Table): set<string> {
    {"default"} + set f, m | f in features && m in features[f] :: m
  }

  /** A chain of features from `default`, each enabled by the one before it. */
  predicate Chain(features: Table, p: seq<string>) {
    p != [] && p[0] == "default" && forall i | 1 <= i < |p| :: p[i] in Enabled(features, p[i - 1])
  }

  ghost predicate Reachable(features: Table, feature: string) {
    exists p :: Chain(features, p) && p[|p| - 1] == feature
  }

  lemma DefaultIsReachable(features: Table)
    ensures Reachable(features, "default")
  {
    assert Chain(features, ["default"]) && ["default"][0] == "default";
  }

  lemma ReachableGrows(features: Table, feature: string)
    requires Reachable(features, feature)
    ensures forall m | m in Enabled(features, feature) :: Reachable(features, m)
  {
    var p :| Chain(features, p) && p[|p| - 1] == feature;
    forall m | m in Enabled(features, feature) ensures Reachable(features, m) {
      var q := p + [m];
      forall i | 1 <= i < |q| ensures q[i] in Enabled(features, q[i - 1]) {
        if i < |p| {
          assert q[i] == p[i] && q[i - 1] == p[i - 1];
        }
      }
      assert q[|q| - 1] == m;
    }
  }

  lemma {:induction false} ChainStaysInside(features: Table, s: set<string>, p: seq<string>)
    requires "default" in s && Closed(features, s) && Chain(features, p)
    ensures p[|p| - 1] in s
    decreases |p|
  {
    hide Enabled;
    var n := |p| - 1;
    if n > 0 {
      ChainStaysInside(features, s, p[..n]);
    }
  }

  /** A feature is reachable exactly when every closed set that holds `default` holds it. */
  lemma ReachableIsLeastClosed(features: Table, feature: string)
    ensures Reachable(features, feature)
       <==> forall s | "default" in s && Closed(features, s) :: feature in s
  {
    hide Enabled;
    if Reachable(features, feature) {
      var p :| Chain(features, p) && p[|p| - 1] == feature;
      forall s | "default" in s && Closed(features, s) ensures feature in s { ChainStaysInside(features, s, p); }
    } else {
      var s := set f | f in Universe(features) && Reachable(features, f);
      DefaultIsReachable(features);
      forall f, m | f in s && m in Enabled(features, f) ensures m in s {
        ReachableGrows(features, f);
        EnabledIsKnown(features, f);
      }
      assert "default" in s && Closed(features, s);
    }
  }

  lemma EnabledIsKnown(features: Table, feature: string)
    ensures forall m | m in Enabled(features, feature) :: m in Universe(features)
  {
  }

  /** The worklist computes the features reachable from `default`, with `default` itself. */
  method DefaultClosure(features: Table) returns (reached: set<string>)
    ensures forall f :: f in reached <==> Reachable(features, f)
  {
    hide Enabled, Chain, Universe, Reachable;
    reached := {};
    var pending := ["default"];
    DefaultIsReachable(features);
    assert "default" in Universe(features) by { DefaultIsKnown(features); }
    while pending != []
      invariant forall f | f in pending || f in reached :: f in Universe(features) && Reachable(features, f)
      invariant "default" in reached || "default" in pending
      invariant forall f, m | f in reached && m in Enabled(features, f) :: m in reached || m in pending
      decreases Universe(features) - reached, |pending|
    {
      var n := |pending| - 1;
      var feature := pending[n];
      assert pending == pending[..n] + [feature];
      pending := pending[..n];
      if feature !in reached {
        ReachableGrows(features, feature);
        EnabledIsKnown(features, feature);
        reached := reached + {feature};
        pending := pending + Enabled(features, feature);
      }
    }
    forall f | Reachable(features, f) ensures f in reached { ReachableIsLeastClosed(features, f); }
  }

  lemma DefaultIsKnown(features: Table)
    ensures "default" in Universe(features)
  {
  }
}
