/** Expansion of systemd syscall groups: a group lists syscalls and other groups. */
module Groups {

  datatype Error = Recursive(name: string) | Unknown(name: string)

  datatype Result<+T> = Ok(value: T) | Err(error: Error) {
    predicate IsFailure() { Err? }
    function PropagateFailure<U>(): Result<U> requires Err? { Err(error) }
    function Extract(): T requires Ok? { value }
  }

  type Table = map<string, seq<string>>

  predicate IsGroup(member: string) { member != [] && member[0] == '@' }

  /** The syscalls of group `name`, in order, groups replaced by their syscalls. */
  function Expand(groups: Table, name: string, ancestors: set<string>): Result<seq<string>>
    decreases groups.Keys - ancestors, 1, 0
  {
    if name in ancestors then Err(Recursive(name))
    else if name !in groups then Err(Unknown(name))
    else
      assert name in groups.Keys - ancestors && name !in groups.Keys - (ancestors + {name});
      ExpandAll(groups, groups[name], ancestors + {name})
  }

  function ExpandAll(groups: Table, members: seq<string>, ancestors: set<string>): Result<seq<string>>
    decreases groups.Keys - ancestors, 2, |members|
  {
    if members == [] then Ok([])
    else
      var first :- if IsGroup(members[0]) then Expand(groups, members[0], ancestors) else Ok([members[0]]);
      var rest :- ExpandAll(groups, members[1..], ancestors);
      Ok(first + rest)
  }

  // ----- What expansion means -----

  predicate Contains(groups: Table, name: string, member: string) { name in groups && member in groups[name] }

  /** A chain of groups, each listed by the one before it. */
  predicate Chain(groups: Table, p: seq<string>) {
    p != [] && (|p| > 1 ==> Contains(groups, p[0], p[1]) && IsGroup(p[1]) && Chain(groups, p[1..]))
  }

  /** The chain ends at an unknown group, or at one already above it. */
  predicate Broken(groups: Table, p: seq<string>, ancestors: set<string>)
    requires p != []
  {
    var last := p[|p| - 1];
    last !in groups || last in ancestors || last in p[..|p| - 1]
  }

  ghost predicate ReachesBroken(groups: Table, name: string, ancestors: set<string>) {
    exists p :: Chain(groups, p) && p[0] == name && Broken(groups, p, ancestors)
  }

  lemma {:induction false} ExpandAllMembers(groups: Table, members: seq<string>, ancestors: set<string>)
    ensures ExpandAll(groups, members, ancestors).Ok?
       <==> forall i | 0 <= i < |members| && IsGroup(members[i]) :: Expand(groups, members[i], ancestors).Ok?
    decreases |members|
  {
    hide Expand;
    if members != [] {
      ExpandAllMembers(groups, members[1..], ancestors);
      assert members == [members[0]] + members[1..];
    }
  }

  /** Expansion that succeeds meets nothing broken. */
  lemma {:induction false} ExpandedChainIsWhole(groups: Table, name: string, ancestors: set<string>, p: seq<string>)
    requires Expand(groups, name, ancestors).Ok? && Chain(groups, p) && p[0] == name
    ensures !Broken(groups, p, ancestors)
    decreases |p|
  {
    if |p| > 1 {
      ExpandAllMembers(groups, groups[name], ancestors + {name});
      var i :| 0 <= i < |groups[name]| && groups[name][i] == p[1];
      var rest := p[1..];
      hide Expand;
      ExpandedChainIsWhole(groups, p[1], ancestors + {name}, rest);
      assert p[..|p| - 1] == [name] + rest[..|rest| - 1];
    }
  }

  /** Expansion that fails has met something broken. */
  lemma {:induction false} FailureHasChain(groups: Table, name: string, ancestors: set<string>) returns (p: seq<string>)
    requires Expand(groups, name, ancestors).Err?
    ensures Chain(groups, p) && p[0] == name && Broken(groups, p, ancestors)
    decreases groups.Keys - ancestors
  {
    p := [name];
    if name !in ancestors && name in groups {
      assert name in groups.Keys - ancestors && name !in groups.Keys - (ancestors + {name});
      ExpandAllMembers(groups, groups[name], ancestors + {name});
      var i :| 0 <= i < |groups[name]| && IsGroup(groups[name][i])
        && Expand(groups, groups[name][i], ancestors + {name}).Err?;
      hide Expand;
      var rest := FailureHasChain(groups, groups[name][i], ancestors + {name});
      p := [name] + rest;
      assert p[1..] == rest;
      assert p[..|p| - 1] == [name] + rest[..|rest| - 1];
    }
  }

  /** Expansion fails exactly when an unknown group or a group inside itself is reachable. */
  lemma FailsIffBroken(groups: Table, name: string, ancestors: set<string>)
    ensures Expand(groups, name, ancestors).Err? <==> ReachesBroken(groups, name, ancestors)
  {
    hide Expand;
    if Expand(groups, name, ancestors).Err? {
      var p := FailureHasChain(groups, name, ancestors);
    } else {
      forall p | Chain(groups, p) && p[0] == name ensures !Broken(groups, p, ancestors) {
        ExpandedChainIsWhole(groups, name, ancestors, p);
      }
    }
  }

  /** The syscall is listed by some group reachable from `name`. */
  ghost predicate Lists(groups: Table, name: string, call: string) {
    !IsGroup(call) && exists p :: Chain(groups, p) && p[0] == name && Contains(groups, p[|p| - 1], call)
  }

  /** Reaching a syscall: directly, or through a group among the members. */
  lemma ListsStep(groups: Table, name: string, call: string)
    requires name in groups
    ensures Lists(groups, name, call)
       <==> !IsGroup(call) && (call in groups[name]
                               || exists m :: m in groups[name] && IsGroup(m) && Lists(groups, m, call))
  {
    if Lists(groups, name, call) {
      var p :| Chain(groups, p) && p[0] == name && Contains(groups, p[|p| - 1], call);
      if |p| > 1 {
        var rest := p[1..];
        assert Chain(groups, rest) && rest[0] == p[1] && rest[|rest| - 1] == p[|p| - 1];
        assert Lists(groups, p[1], call);
      }
    }
    if !IsGroup(call) && call in groups[name] {
      assert Chain(groups, [name]) && Contains(groups, [name][0], call);
    }
    if m :| m in groups[name] && IsGroup(m) && Lists(groups, m, call) {
      var rest :| Chain(groups, rest) && rest[0] == m && Contains(groups, rest[|rest| - 1], call);
      var p := [name] + rest;
      assert p[1..] == rest && p[|p| - 1] == rest[|rest| - 1];
      assert Chain(groups, p);
    }
  }

  /** Expansion lists exactly the syscalls of the reachable groups. */
  lemma {:induction false} ExpandLists(groups: Table, name: string, ancestors: set<string>, call: string)
    requires Expand(groups, name, ancestors).Ok?
    ensures call in Expand(groups, name, ancestors).value <==> Lists(groups, name, call)
    decreases groups.Keys - ancestors, 1, 0
  {
    assert name in groups.Keys - ancestors && name !in groups.Keys - (ancestors + {name});
    hide Lists;
    ExpandAllLists(groups, groups[name], ancestors + {name}, call);
    ListsStep(groups, name, call);
  }

  lemma {:induction false} ExpandAllLists(groups: Table, members: seq<string>, ancestors: set<string>, call: string)
    requires ExpandAll(groups, members, ancestors).Ok?
    ensures call in ExpandAll(groups, members, ancestors).value
       <==> !IsGroup(call) && (call in members || exists m :: m in members && IsGroup(m) && Lists(groups, m, call))
    decreases groups.Keys - ancestors, 2, |members|
  {
    hide Lists, Expand;
    if members != [] {
      var m := members[0];
      assert members == [m] + members[1..];
      if IsGroup(m) {
        ExpandLists(groups, m, ancestors, call);
        ListsNoGroup(groups, m, call);
      }
      ExpandAllLists(groups, members[1..], ancestors, call);
    }
  }

  lemma ListsNoGroup(groups: Table, name: string, call: string)
    ensures Lists(groups, name, call) ==> !IsGroup(call)
  {
  }

  /** The expansion as it runs: members in order, into one growing list. */
  method ExpandGroup(groups: Table, name: string, ancestors: set<string>) returns (r: Result<seq<string>>)
    ensures r == Expand(groups, name, ancestors)
    decreases groups.Keys - ancestors, 0
  {
    if name in ancestors { return Err(Recursive(name)); }
    if name !in groups { return Err(Unknown(name)); }
    assert name in groups.Keys - ancestors && name !in groups.Keys - (ancestors + {name});
    r := ExpandMembers(groups, groups[name], ancestors + {name});
  }

  method ExpandMembers(groups: Table, members: seq<string>, ancestors: set<string>) returns (r: Result<seq<string>>)
    ensures r == ExpandAll(groups, members, ancestors)
    decreases groups.Keys - ancestors, 1
  {
    hide Expand;
    var expanded: seq<string> := [];
    ghost var all := ExpandAll(groups, members, ancestors);
    assert members[0..] == members && (all.Ok? ==> expanded + all.value == all.value);
    for i := 0 to |members|
      invariant Continues(all, expanded, ExpandAll(groups, members[i..], ancestors))
    {
      assert members[i..][0] == members[i] && members[i..][1..] == members[i + 1..];
      var first := [members[i]];
      if IsGroup(members[i]) {
        first :- ExpandGroup(groups, members[i], ancestors);
      }
      ghost var rest := ExpandAll(groups, members[i + 1..], ancestors);
      if rest.Ok? { ConcatAssociates(expanded, first, rest.value); }
      expanded := expanded + first;
    }
    assert expanded + [] == expanded;
    return Ok(expanded);
  }

  /** What is expanded so far, followed by the rest, is the whole. */
  ghost predicate Continues(all: Result<seq<string>>, expanded: seq<string>, rest: Result<seq<string>>) {
    match rest
    case Ok(more) => all == Ok(expanded + more)
    case Err(error) => all == Err(error)
  }

  lemma ConcatAssociates(a: seq<string>, b: seq<string>, c: seq<string>)
    ensures a + (b + c) == (a + b) + c
  {
  }

  /** Expansion keeps the order of the members: it distributes over concatenation, and a syscall
      stands for itself. */
  lemma {:induction false} ExpandKeepsOrder(
    groups: Table, left: seq<string>, right: seq<string>, ancestors: set<string>)
    requires ExpandAll(groups, left, ancestors).Ok? && ExpandAll(groups, right, ancestors).Ok?
    ensures ExpandAll(groups, left + right, ancestors)
         == Ok(ExpandAll(groups, left, ancestors).value + ExpandAll(groups, right, ancestors).value)
    ensures (forall i | 0 <= i < |left| :: !IsGroup(left[i])) ==> ExpandAll(groups, left, ancestors).value == left
    decreases |left|
  {
    hide Expand;
    if left == [] {
      assert left + right == right;
      var r := ExpandAll(groups, right, ancestors).value;
      assert [] + r == r;
    } else {
      assert (left + right)[1..] == left[1..] + right;
      ExpandKeepsOrder(groups, left[1..], right, ancestors);
      var first := if IsGroup(left[0]) then Expand(groups, left[0], ancestors).value else [left[0]];
      ConcatAssociates(first, ExpandAll(groups, left[1..], ancestors).value, ExpandAll(groups, right, ancestors).value);
      assert left == [left[0]] + left[1..];
    }
  }
}
