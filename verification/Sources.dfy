/** Retaining the inventoried source files of the catalog while other processes may change them. */
module Sources {
  import opened Commons
  import opened Cbor
  import opened Sums

  const MAX_SOURCE_FILE_COUNT := 4096
  const MAX_SOURCE_FILE_SIZE := 64 * 1024 * 1024
  const MAX_SOURCE_TOTAL_SIZE := 1024 * 1024 * 1024
  const U64_LIMIT := ARGUMENT_LIMIT

  datatype SourceError =
    | TooManyFiles | Unavailable | FileTooLarge | TotalOverflowed | TotalTooLarge | NotReserved | ChangedSize

  datatype Result<T> = Ok(value: T) | Err(error: SourceError)

  /** What one opening of a file shows: the size it reports, whether memory of that size could be
      reserved, and the bytes it would yield if read. `None` stands for a failing call. Two openings
      of one file need not agree. */
  datatype Opening = Opening(size: Option<int>, reserved: bool, content: Option<bytes>)

  function FileSize(o: Opening): Result<nat> {
    if o.size.None? || o.size.value < 0 then Err(Unavailable)
    else if o.size.value > MAX_SOURCE_FILE_SIZE then Err(FileTooLarge)
    else Ok(o.size.value)
  }

  /** A read stops one byte past the limit, so a file that grew is noticed and not swallowed. */
  function ReadOpened(o: Opening, declared: nat): Result<bytes> {
    if !o.reserved then Err(NotReserved)
    else if o.content.None? then Err(Unavailable)
    else
      var content := o.content.value;
      var read := if |content| <= MAX_SOURCE_FILE_SIZE then content else content[..MAX_SOURCE_FILE_SIZE + 1];
      if |read| > MAX_SOURCE_FILE_SIZE then Err(FileTooLarge)
      else if |read| != declared then Err(ChangedSize)
      else Ok(read)
  }

  /** The running total after one more opening, in 64-bit arithmetic. */
  function Count(total: nat, o: Opening): Result<nat> {
    match FileSize(o)
    case Err(e) => Err(e)
    case Ok(size) =>
      if total + size >= U64_LIMIT then Err(TotalOverflowed)
      else if total + size > MAX_SOURCE_TOTAL_SIZE then Err(TotalTooLarge)
      else Ok(total + size)
  }

  function Declared(openings: seq<Opening>): Result<nat> {
    if openings == [] then Ok(0)
    else
      match Declared(openings[..|openings| - 1])
      case Err(e) => Err(e)
      case Ok(total) => Count(total, openings[|openings| - 1])
  }

  /** The running total and the contents held so far. */
  datatype Held = Held(total: nat, contents: seq<bytes>)

  function Hold(held: Held, o: Opening): Result<Held> {
    match Count(held.total, o)
    case Err(e) => Err(e)
    case Ok(total) =>
      match ReadOpened(o, o.size.value)
      case Err(e) => Err(e)
      case Ok(content) => Ok(Held(total, held.contents + [content]))
  }

  function Retained(openings: seq<Opening>): Result<Held> {
    if openings == [] then Ok(Held(0, []))
    else
      match Retained(openings[..|openings| - 1])
      case Err(e) => Err(e)
      case Ok(held) => Hold(held, openings[|openings| - 1])
  }

  /** Both passes over the inventory. */
  function Inventory(first: seq<Opening>, second: seq<Opening>): Result<Held> {
    if |first| > MAX_SOURCE_FILE_COUNT then Err(TooManyFiles)
    else if Declared(first).Err? then Err(Declared(first).error)
    else Retained(second)
  }

  lemma {:induction false} DeclaredPrefix(openings: seq<Opening>, i: nat)
    requires i <= |openings| && Declared(openings[..i]).Err?
    ensures Declared(openings) == Declared(openings[..i])
    decreases |openings| - i
  {
    if i < |openings| {
      assert openings[..i + 1][..i] == openings[..i];
      DeclaredPrefix(openings, i + 1);
    } else {
      assert openings[..i] == openings;
    }
  }

  lemma {:induction false} RetainedPrefix(openings: seq<Opening>, i: nat)
    requires i <= |openings| && Retained(openings[..i]).Err?
    ensures Retained(openings) == Retained(openings[..i])
    decreases |openings| - i
  {
    if i < |openings| {
      assert openings[..i + 1][..i] == openings[..i];
      RetainedPrefix(openings, i + 1);
    } else {
      assert openings[..i] == openings;
    }
  }

  method InventoriedSources(names: seq<string>, first: seq<Opening>, second: seq<Opening>)
    returns (r: Result<map<string, bytes>>)
    requires Distinct(names) && |first| == |second| == |names|
    ensures r.Ok? <==> Inventory(first, second).Ok?
    ensures r.Err? ==> r.error == Inventory(first, second).error
    ensures r.Ok? ==> var held := Inventory(first, second).value;
      && |held.contents| == |names| && (forall name :: name in r.value <==> name in names)
      && forall i | 0 <= i < |names| :: r.value[names[i]] == held.contents[i]
  {
    hide Count, ReadOpened;
    if |names| > MAX_SOURCE_FILE_COUNT {
      return Err(TooManyFiles);
    }
    var declared := 0;
    for i := 0 to |names|
      invariant Declared(first[..i]) == Ok(declared)
    {
      assert first[..i + 1][..i] == first[..i];
      var next := Count(declared, first[i]);
      if next.Err? {
        DeclaredPrefix(first, i + 1);
        return Err(next.error);
      }
      declared := next.value;
    }
    assert first[..|names|] == first;
    r := RetainSources(names, second);
  }

  method RetainSources(names: seq<string>, second: seq<Opening>) returns (r: Result<map<string, bytes>>)
    requires Distinct(names) && |second| == |names|
    ensures r.Ok? <==> Retained(second).Ok?
    ensures r.Err? ==> r.error == Retained(second).error
    ensures r.Ok? ==> var held := Retained(second).value;
      && |held.contents| == |names| && (forall name :: name in r.value <==> name in names)
      && forall i | 0 <= i < |names| :: r.value[names[i]] == held.contents[i]
  {
    hide Count, ReadOpened, Hold;
    var total, sources := 0, map[];
    ghost var contents: seq<bytes> := [];
    for i := 0 to |names|
      invariant Retained(second[..i]) == Ok(Held(total, contents)) && |contents| == i
      invariant forall name :: name in sources <==> name in names[..i]
      invariant forall j | 0 <= j < i :: sources[names[j]] == contents[j]
    {
      assert second[..i + 1][..i] == second[..i];
      HoldIs(Held(total, contents), second[i]);
      var next := Count(total, second[i]);
      if next.Err? {
        RetainedPrefix(second, i + 1);
        return Err(next.error);
      }
      var content := ReadOpened(second[i], second[i].size.value);
      if content.Err? {
        RetainedPrefix(second, i + 1);
        return Err(content.error);
      }
      total := next.value;
      sources := sources[names[i] := content.value];
      contents := contents + [content.value];
    }
    assert second[..|names|] == second && names[..|names|] == names;
    return Ok(sources);
  }

  lemma HoldIs(held: Held, o: Opening)
    ensures var (total, r) := (Count(held.total, o), Hold(held, o));
      && (total.Err? ==> r == Err(total.error))
      && (total.Ok? ==> o.size.Some? && o.size.value >= 0)
      && (total.Ok? ==> var content := ReadOpened(o, o.size.value);
            r == if content.Err? then Err(content.error) else Ok(Held(total.value, held.contents + [content.value])))
  {
  }

  // ----- What is retained -----

  predicate Sized(o: Opening) { o.size.Some? && 0 <= o.size.value <= MAX_SOURCE_FILE_SIZE }

  /** A file that could be read and had the size it reported. */
  predicate Steady(o: Opening) {
    Sized(o) && o.reserved && o.content.Some? && |o.content.value| == o.size.value
  }

  function Size(o: Opening): nat { if o.size.Some? && o.size.value > 0 then o.size.value else 0 }

  function TotalSize(openings: seq<Opening>): nat {
    if openings == [] then 0 else TotalSize(openings[..|openings| - 1]) + Size(openings[|openings| - 1])
  }

  function TotalBytes(contents: seq<bytes>): nat {
    if contents == [] then 0 else TotalBytes(contents[..|contents| - 1]) + |contents[|contents| - 1]|
  }

  lemma {:induction false} DeclaredIs(openings: seq<Opening>)
    ensures Declared(openings) != Err(TotalOverflowed)
    ensures Declared(openings).Ok?
       <==> (forall i | 0 <= i < |openings| :: Sized(openings[i])) && TotalSize(openings) <= MAX_SOURCE_TOTAL_SIZE
    ensures Declared(openings).Ok? ==> Declared(openings).value == TotalSize(openings)
  {
    if openings != [] {
      DeclaredIs(openings[..|openings| - 1]);
    }
  }

  lemma {:induction false} RetainedIs(openings: seq<Opening>)
    ensures Retained(openings) != Err(TotalOverflowed)
    ensures Retained(openings).Ok?
       <==> (forall i | 0 <= i < |openings| :: Steady(openings[i])) && TotalSize(openings) <= MAX_SOURCE_TOTAL_SIZE
    ensures Retained(openings).Ok? ==> var held := Retained(openings).value;
      && held.total == TotalSize(openings) == TotalBytes(held.contents)
      && |held.contents| == |openings|
      && forall i | 0 <= i < |openings| :: Steady(openings[i]) && held.contents[i] == openings[i].content.value
  {
    hide Hold, Count, ReadOpened, Sized, Size;
    if openings != [] {
      var n := |openings| - 1;
      RetainedIs(openings[..n]);
      if Retained(openings[..n]).Ok? {
        HoldSteady(Retained(openings[..n]).value, openings[n]);
      }
    }
  }

  lemma HoldSteady(held: Held, o: Opening)
    requires held.total <= MAX_SOURCE_TOTAL_SIZE
    ensures Hold(held, o) != Err(TotalOverflowed)
    ensures Hold(held, o).Ok? <==> Steady(o) && held.total + Size(o) <= MAX_SOURCE_TOTAL_SIZE
    ensures Hold(held, o).Ok? ==> Hold(held, o).value == Held(held.total + Size(o), held.contents + [o.content.value])
    ensures Hold(held, o).Ok? ==> TotalBytes(held.contents + [o.content.value]) == TotalBytes(held.contents) + Size(o)
  {
    if Hold(held, o).Ok? {
      assert (held.contents + [o.content.value])[..|held.contents|] == held.contents;
    }
  }

  /** However the files change between the two passes, 64-bit arithmetic never overflows, and
      success means that what is held is at most 1 GiB in at most 4096 files, each of them the
      whole of a file that kept the size it declared at its second opening. */
  lemma RetentionIsBounded(first: seq<Opening>, second: seq<Opening>)
    requires |first| == |second|
    ensures Inventory(first, second) != Err(TotalOverflowed)
    ensures Inventory(first, second).Ok?
       <==> && |first| <= MAX_SOURCE_FILE_COUNT
            && (forall i | 0 <= i < |first| :: Sized(first[i]) && Steady(second[i]))
            && TotalSize(first) <= MAX_SOURCE_TOTAL_SIZE && TotalSize(second) <= MAX_SOURCE_TOTAL_SIZE
    ensures Inventory(first, second).Ok? ==> var contents := Inventory(first, second).value.contents;
      && TotalBytes(contents) <= MAX_SOURCE_TOTAL_SIZE && |contents| == |second| <= MAX_SOURCE_FILE_COUNT
      && forall i | 0 <= i < |contents| ::
           contents[i] == second[i].content.value && |contents[i]| <= MAX_SOURCE_FILE_SIZE
  {
    DeclaredIs(first);
    RetainedIs(second);
  }
}
