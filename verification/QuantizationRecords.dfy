/** `MTQ1` and `MQR1`, the public test records of the quantizer, and their strict decoder. */
module QuantizationRecords {
  import opened Cbor
  import opened Reading
  import MetricInputs
  import Quantization

  const MAX_PATTERNS := 4096
  const MAGIC: bytes := MetricInputs.Ascii("MTQ1")

  const INPUT := Coordinate(Input, [])
  const PATTERNS := Coordinate(Patterns, [])
  const AT_MAGIC := Coordinate(Magic, [])
  const AT_VERSION := Coordinate(Version, [])
  const FIELDS: seq<Field> := [Magic, Version]

  function PatternAt(index: nat): Coordinate { Coordinate(Patterns, [index]) }

  function Values(patterns: seq<nat>): (vs: seq<Value>)
    ensures |vs| == |patterns|
  {
    seq(|patterns|, i requires 0 <= i < |patterns| => Int(patterns[i]))
  }

  predicate Valid(patterns: seq<nat>) {
    1 <= |patterns| <= MAX_PATTERNS && forall i | 0 <= i < |patterns| :: patterns[i] < ARGUMENT_LIMIT
  }

  /** Two header fields and the patterns. */
  datatype Shape = Shape(fields: seq<Value>, patterns: seq<Value>)

  function Root(s: Shape): Value { Arr(s.fields + [Arr(s.patterns)]) }

  function Record(patterns: seq<nat>): Shape { Shape([Text(MAGIC), Int(1)], Values(patterns)) }

  lemma RecordEncodable(patterns: seq<nat>)
    requires Valid(patterns)
    ensures Encodable(Root(Record(patterns)))
  {
    forall i | 0 <= i < |patterns| ensures Encodable(Values(patterns)[i]) { }
    assert Encodable(Arr(Values(patterns)));
  }

  function Mtq1(patterns: seq<nat>): bytes
    requires Valid(patterns)
  {
    RecordEncodable(patterns);
    Enc(Root(Record(patterns)))
  }

  // ----- The structural pass -----

  function ReadShape(data: bytes): Result<Shape> {
    match ReadHead(data, 0)
    case HeadBad => Err(Failure(InvalidEncoding, INPUT))
    case HeadOk(major, length, start) =>
      if major != 4 || length != 3 then Err(Failure(InvalidEncoding, INPUT))
      else
        match ReadItems(data, start, 2, 0, 2)
        case ItemsBad(path) => Err(Failure(InvalidEncoding, Coordinate(FIELDS[path[0]], path[1..])))
        case ItemsOk(fields, next) =>
          match ReadHead(data, next)
          case HeadBad => Err(Failure(InvalidEncoding, PATTERNS))
          case HeadOk(kind, count, first) =>
            if kind != 4 then Err(Failure(InvalidEncoding, PATTERNS))
            else
              match ReadItems(data, first, count, 0, 3)
              case ItemsBad(path) => Err(Failure(InvalidEncoding, Coordinate(Patterns, path)))
              case ItemsOk(patterns, end) =>
                if end != |data| then Err(Failure(InvalidEncoding, Coordinate(Trailing, [])))
                else Ok(Shape(fields, patterns))
  }

  lemma RootPieces(s: Shape)
    requires |s.fields| == 2 && AllEncodable(s.fields) && AllEncodable(s.patterns) && |s.patterns| < ARGUMENT_LIMIT
    ensures Encodable(Root(s))
    ensures Enc(Root(s)) == Head(4, 3) + (EncAll(s.fields) + (Head(4, |s.patterns|) + EncAll(s.patterns)))
  {
    hide Enc, Head;
    var items := s.fields + [Arr(s.patterns)];
    EncAllSplits(items, 2);
    assert items[..2] == s.fields && items[3..] == [];
    assert EncAll(items[3..]) == [];
    MetricInputs.EncArray(s.patterns);
    MetricInputs.EncArray(items);
  }

  /** The structural pass accepts exactly the encodings of a three-field root whose last field is an
      array, nested within the cap. */
  lemma ShapeIsEncoding(data: bytes, s: Shape)
    ensures ReadShape(data) == Ok(s)
       <==> |s.fields| == 2 && Encodable(Root(s)) && Fits(Root(s), 1) && data == Enc(Root(s))
  {
    if ReadShape(data) == Ok(s) {
      ShapeSound(data, s);
    }
    if |s.fields| == 2 && Encodable(Root(s)) && Fits(Root(s), 1) && data == Enc(Root(s)) {
      ShapeComplete(data, s);
    }
  }

  lemma ShapeSound(data: bytes, s: Shape)
    requires ReadShape(data) == Ok(s)
    ensures |s.fields| == 2 && Encodable(Root(s)) && Fits(Root(s), 1) && data == Enc(Root(s))
  {
    hide ReadHead, Head, ReadItems, At, EncAll, Enc, Encodable;
    var start := ReadHead(data, 0).next;
    ReadIsHead(data, 0);
    ReadItemsSound(data, start, 2, 0, 2);
    var next := start + |EncAll(s.fields)|;
    var count := ReadHead(data, next).argument;
    ReadIsHead(data, next);
    var first := next + |Head(4, count)|;
    ReadItemsSound(data, first, count, 0, 3);
    AtConcat(data, next, Head(4, count), EncAll(s.patterns));
    AtConcat(data, start, EncAll(s.fields), Head(4, count) + EncAll(s.patterns));
    AtConcat(data, 0, Head(4, 3), EncAll(s.fields) + (Head(4, count) + EncAll(s.patterns)));
    RootPieces(s);
    AtSlice(data, 0, Enc(Root(s)));
  }

  /** Where the pieces of an encoded record stand. */
  lemma Pieces(data: bytes, s: Shape) returns (start: nat, first: nat)
    requires |s.fields| == 2 && Encodable(Root(s)) && data == Enc(Root(s))
    ensures AllEncodable(s.fields) && AllEncodable(s.patterns) && |s.patterns| < ARGUMENT_LIMIT
    ensures ReadHead(data, 0) == HeadOk(4, 3, start) && At(data, start, EncAll(s.fields))
    ensures ReadHead(data, start + |EncAll(s.fields)|) == HeadOk(4, |s.patterns|, first)
    ensures At(data, first, EncAll(s.patterns)) && first + |EncAll(s.patterns)| == |data|
  {
    hide ReadHead, Head, Enc, EncAll, At;
    var items := s.fields + [Arr(s.patterns)];
    assert items == Root(s).items && items[2] == Arr(s.patterns) && Encodable(items[2]);
    assert forall k | 0 <= k < 2 :: items[k] == s.fields[k];
    RootPieces(s);
    AtSlice(data, 0, data);
    var tail := Head(4, |s.patterns|) + EncAll(s.patterns);
    AtConcat(data, 0, Head(4, 3), EncAll(s.fields) + tail);
    HeadIsRead(data, 0, 4, 3);
    start := |Head(4, 3)|;
    AtConcat(data, start, EncAll(s.fields), tail);
    var next := start + |EncAll(s.fields)|;
    AtConcat(data, next, Head(4, |s.patterns|), EncAll(s.patterns));
    HeadIsRead(data, next, 4, |s.patterns|);
    first := next + |Head(4, |s.patterns|)|;
  }

  lemma ShapeComplete(data: bytes, s: Shape)
    requires |s.fields| == 2 && Encodable(Root(s)) && Fits(Root(s), 1) && data == Enc(Root(s))
    ensures ReadShape(data) == Ok(s)
  {
    hide ReadHead, Enc, EncAll, At, ReadItems;
    var items := s.fields + [Arr(s.patterns)];
    assert items[2] == Arr(s.patterns) && Fits(items[2], 2);
    assert forall k | 0 <= k < 2 :: items[k] == s.fields[k];
    var start, first := Pieces(data, s);
    ReadItemsComplete(data, start, 0, 2, s.fields);
    ReadItemsComplete(data, first, 0, 3, s.patterns);
  }

  // ----- The semantic pass -----

  function InterpretPatterns(patterns: seq<Value>, index: nat): Result<seq<nat>> {
    if patterns == [] then Ok([])
    else
      var first :- AsUint(patterns[0], PatternAt(index));
      var rest :- InterpretPatterns(patterns[1..], index + 1);
      Ok([first] + rest)
  }

  function Interpret(s: Shape): Result<seq<nat>>
    requires |s.fields| == 2
  {
    var magic :- AsText(s.fields[0], AT_MAGIC);
    if magic != MAGIC then Err(Failure(UnsupportedVersion, AT_MAGIC)) else
    var version :- AsUint(s.fields[1], AT_VERSION);
    if version != 1 then Err(Failure(UnsupportedVersion, AT_VERSION)) else
    if |s.patterns| == 0 then Err(Failure(InvalidEncoding, PATTERNS)) else
    if |s.patterns| > MAX_PATTERNS then Err(Failure(ResourceLimit, PATTERNS)) else
    InterpretPatterns(s.patterns, 0)
  }

  function Decode(data: bytes): Result<seq<nat>> {
    match ReadShape(data)
    case Err(failure) => Err(failure)
    case Ok(s) => ShapeIsEncoding(data, s); Interpret(s)
  }

  lemma {:induction false} PatternsIffCanonical(vs: seq<Value>, index: nat, patterns: seq<nat>)
    ensures InterpretPatterns(vs, index) == Ok(patterns) <==> vs == Values(patterns)
    decreases |vs|
  {
    if vs == [] {
      assert patterns == [] ==> Values(patterns) == [];
    } else if patterns != [] {
      PatternsIffCanonical(vs[1..], index + 1, patterns[1..]);
      assert Values(patterns)[1..] == Values(patterns[1..]);
      assert patterns == [patterns[0]] + patterns[1..];
      assert vs == [vs[0]] + vs[1..];
      assert Values(patterns) == [Int(patterns[0])] + Values(patterns[1..]);
    }
  }

  lemma {:induction false} PatternsCoordinate(vs: seq<Value>, index: nat)
    requires InterpretPatterns(vs, index).Err?
    ensures var f := InterpretPatterns(vs, index).failure;
      && f.error == InvalidEncoding && |f.at.indices| == 1 && f.at.field == Patterns
      && index <= f.at.indices[0] < index + |vs|
      && var i := f.at.indices[0] - index;
         AsUint(vs[i], PatternAt(0)).Err? && forall k | 0 <= k < i :: AsUint(vs[k], PatternAt(0)).Ok?
    decreases |vs|
  {
    if AsUint(vs[0], PatternAt(index)).Ok? {
      PatternsCoordinate(vs[1..], index + 1);
      var i := InterpretPatterns(vs, index).failure.at.indices[0] - index;
      forall k | 0 <= k < i ensures AsUint(vs[k], PatternAt(0)).Ok? {
        if k > 0 {
          assert vs[k] == vs[1..][k - 1];
        }
      }
    }
  }

  lemma {:induction false} ValuesInRange(patterns: seq<nat>)
    requires AllEncodable(Values(patterns))
    ensures forall i | 0 <= i < |patterns| :: patterns[i] < ARGUMENT_LIMIT
  {
    forall i | 0 <= i < |patterns| ensures patterns[i] < ARGUMENT_LIMIT {
      assert Encodable(Values(patterns)[i]);
    }
  }

  /** A byte string decodes to `patterns` exactly when it is their encoding and there are 1 to 4096. */
  lemma DecodeIffCanonical(data: bytes, patterns: seq<nat>)
    ensures Decode(data) == Ok(patterns) <==> Valid(patterns) && data == Mtq1(patterns)
  {
    hide ReadShape, Enc, InterpretPatterns, Values;
    if Decode(data) == Ok(patterns) {
      var s := ReadShape(data).value;
      ShapeIsEncoding(data, s);
      PatternsIffCanonical(s.patterns, 0, patterns);
      assert s.fields == [Text(MAGIC), Int(1)];
      assert AllEncodable(s.patterns) by { var start, first := Pieces(data, s); }
      ValuesInRange(patterns);
    }
    if Valid(patterns) && data == Mtq1(patterns) {
      var s := Record(patterns);
      RecordFits(patterns);
      RecordEncodable(patterns);
      ShapeIsEncoding(data, s);
      PatternsIffCanonical(s.patterns, 0, patterns);
    }
  }

  lemma RecordFits(patterns: seq<nat>)
    ensures Fits(Root(Record(patterns)), 1)
  {
    forall i | 0 <= i < |patterns| ensures Fits(Values(patterns)[i], 3) { }
  }

  /** What a failure after a sound structure means, place by place: a field of the wrong type or
      value, no pattern or too many, or a pattern that is not an unsigned integer. */
  predicate SemanticFailure(s: Shape, f: Failure)
    requires |s.fields| == 2
  {
    if f.at == AT_MAGIC then
      f.error == (if s.fields[0].Text? then UnsupportedVersion else InvalidEncoding) && s.fields[0] != Text(MAGIC)
    else if f.at == AT_VERSION then
      f.error == (if IsUint(s.fields[1]) then UnsupportedVersion else InvalidEncoding) && s.fields[1] != Int(1)
    else if f.at == PATTERNS then
      if s.patterns == [] then f.error == InvalidEncoding
      else f.error == ResourceLimit && |s.patterns| > MAX_PATTERNS
    else
      && f.at.field == Patterns && |f.at.indices| == 1 && f.at.indices[0] < |s.patterns|
      && f.error == InvalidEncoding && !IsUint(s.patterns[f.at.indices[0]])
      && forall k | 0 <= k < f.at.indices[0] :: IsUint(s.patterns[k])
  }

  /** Every failure is at an admitted coordinate. One of the structure is `InvalidEncoding`; after a
      sound structure the coordinate and the error tell what is wrong. */
  lemma DecodeFailures(data: bytes)
    requires Decode(data).Err?
    ensures Admitted(Decode(data).failure.at)
    ensures match ReadShape(data)
      case Err(_) => Decode(data).failure.error == InvalidEncoding
      case Ok(s) => |s.fields| == 2 && SemanticFailure(s, Decode(data).failure)
  {
    hide ReadShape, Interpret, SemanticFailure, Admitted;
    match ReadShape(data)
    case Err(_) => ShapeCoordinates(data);
    case Ok(s) =>
      ShapeIsEncoding(data, s);
      InterpretFailures(s);
  }

  lemma InterpretFailures(s: Shape)
    requires |s.fields| == 2 && Interpret(s).Err?
    ensures Admitted(Interpret(s).failure.at) && SemanticFailure(s, Interpret(s).failure)
  {
    hide MAGIC;
    if InterpretPatterns(s.patterns, 0).Err? {
      PatternsCoordinate(s.patterns, 0);
    }
    hide InterpretPatterns;
  }

  lemma ShapeCoordinates(data: bytes)
    requires ReadShape(data).Err?
    ensures ReadShape(data).failure.error == InvalidEncoding && Admitted(ReadShape(data).failure.at)
  {
    hide ReadHead, ReadItems;
    var root := ReadHead(data, 0);
    if root.HeadOk? {
      BadPathsAreShallow(data, root.next, 2, 0, 2);
      var fields := ReadItems(data, root.next, 2, 0, 2);
      if fields.ItemsOk? && ReadHead(data, fields.next).HeadOk? {
        var h := ReadHead(data, fields.next);
        BadPathsAreShallow(data, h.next, h.argument, 0, 3);
      }
    }
  }

  // ----- The two passes as they run -----

  method CheckShape(data: bytes) returns (r: Result<()>)
    ensures match ReadShape(data)
      case Ok(_) => r == Ok(())
      case Err(failure) => r == Err(failure)
  {
    hide ReadHead, ReadItem;
    var reader := new Reader(data);
    var root :- reader.ReadHeadAt(INPUT);
    if root.0 != 4 || root.1 != 3 { return Err(Failure(InvalidEncoding, INPUT)); }
    ghost var fields := ReadItems(data, reader.pos, 2, 0, 2);
    for k := 0 to 2
      invariant SameEnd(fields, ReadItems(data, reader.pos, 2 - k, k, 2))
    {
      MetricInputs.BelowRoot(Coordinate(FIELDS[k], []), k, ReadItem(data, reader.pos, 2));
      var field :- reader.SkipItem(Coordinate(FIELDS[k], []), 2);
    }
    var patterns :- reader.ReadHeadAt(PATTERNS);
    if patterns.0 != 4 { return Err(Failure(InvalidEncoding, PATTERNS)); }
    ghost var all := ReadItems(data, reader.pos, patterns.1, 0, 3);
    for index := 0 to patterns.1
      invariant SameEnd(all, ReadItems(data, reader.pos, patterns.1 - index, index, 3))
    {
      var skipped :- reader.SkipItem(PatternAt(index), 3);
    }
    r := reader.Finish();
  }

  function PassPatterns(data: bytes, pos: nat, count: nat, index: nat): Read<seq<nat>>
    decreases count
  {
    if count == 0 then Got([], pos)
    else
      var (first, next) :- ReadUint(data, pos, PatternAt(index));
      var (rest, end) :- PassPatterns(data, next, count - 1, index + 1);
      Got([first] + rest, end)
  }

  /** The semantic pass reads the bytes again from the start. */
  function Pass(data: bytes): Read<seq<nat>> {
    var (root, p0) :- ReadArray(data, 0, INPUT);
    var (magic, p1) :- ReadText(data, p0, AT_MAGIC);
    if magic != MAGIC then Failed(Failure(UnsupportedVersion, AT_MAGIC)) else
    var (version, p2) :- ReadUint(data, p1, AT_VERSION);
    if version != 1 then Failed(Failure(UnsupportedVersion, AT_VERSION)) else
    var (count, p3) :- ReadArray(data, p2, PATTERNS);
    if count == 0 then Failed(Failure(InvalidEncoding, PATTERNS)) else
    if count > MAX_PATTERNS then Failed(Failure(ResourceLimit, PATTERNS)) else
    var (patterns, end) :- PassPatterns(data, p3, count, 0);
    if end != |data| then Bad(Coordinate(Trailing, [])) else Got(patterns, end)
  }

  lemma {:induction false} PatternsAgree(data: bytes, pos: nat, items: seq<Value>, index: nat)
    requires AllEncodable(items) && At(data, pos, EncAll(items))
    ensures Agrees(PassPatterns(data, pos, |items|, index), InterpretPatterns(items, index), pos + |EncAll(items)|)
    decreases |items|
  {
    hide At, Enc, ReadUint, AsUint;
    if items != [] {
      AtConcat(data, pos, Enc(items[0]), EncAll(items[1..]));
      TypedReadsAgree(data, pos, items[0], PatternAt(index));
      PatternsAgree(data, pos + |Enc(items[0])|, items[1..], index + 1);
    }
  }

  /** After the structural pass has succeeded, reading the bytes again interprets the items it saw. */
  lemma PassRefinesInterpret(data: bytes, s: Shape)
    requires ReadShape(data) == Ok(s)
    ensures |s.fields| == 2 && Agrees(Pass(data), Interpret(s), |data|)
  {
    hide ReadHead, ReadShape, ReadUint, ReadText, At, Enc, EncAll, Offset;
    hide PassPatterns, InterpretPatterns, AsText, AsUint;
    ShapeIsEncoding(data, s);
    var start, first := Pieces(data, s);
    MetricInputs.TextFieldAgrees(data, start, s.fields, 0, AT_MAGIC);
    MetricInputs.UintFieldAgrees(data, start, s.fields, 1, AT_VERSION);
    PatternsAgree(data, first, s.patterns, 0);
  }

  method DecodeFields(data: bytes) returns (r: Result<seq<nat>>)
    ensures match Pass(data)
      case Got(patterns, _) => r == Ok(patterns)
      case Failed(failure) => r == Err(failure)
  {
    hide ReadUint, ReadText, ReadArray;
    var reader := new Reader(data);
    var root :- reader.Array(INPUT);
    var magic :- reader.TextString(AT_MAGIC);
    if magic != MAGIC { return Err(Failure(UnsupportedVersion, AT_MAGIC)); }
    var version :- reader.Uint(AT_VERSION);
    if version != 1 { return Err(Failure(UnsupportedVersion, AT_VERSION)); }
    var count :- reader.Array(PATTERNS);
    if count == 0 { return Err(Failure(InvalidEncoding, PATTERNS)); }
    if count > MAX_PATTERNS { return Err(Failure(ResourceLimit, PATTERNS)); }
    var patterns: seq<nat> := [];
    ghost var all := PassPatterns(data, reader.pos, count, 0);
    assert all.Got? ==> patterns + all.value == all.value;
    for index := 0 to count
      invariant match PassPatterns(data, reader.pos, count - index, index)
        case Got(rest, next) => all == Got(patterns + rest, next)
        case Failed(failure) => all == Failed(failure)
    {
      var pattern :- reader.Uint(PatternAt(index));
      ghost var rest := PassPatterns(data, reader.pos, count - index - 1, index + 1);
      assert rest.Got? ==> patterns + ([pattern] + rest.value) == patterns + [pattern] + rest.value;
      patterns := patterns + [pattern];
    }
    assert patterns + [] == patterns;
    var end :- reader.Finish();
    return Ok(patterns);
  }

  /** The structural pass, then the fields in order over the same bytes. */
  method DecodeMtq1(data: bytes) returns (r: Result<seq<nat>>)
    ensures r == Decode(data)
  {
    hide ReadShape, Pass, Interpret;
    var sound :- CheckShape(data);
    PassRefinesInterpret(data, ReadShape(data).value);
    r := DecodeFields(data);
  }

  // ----- The result record -----

  /** An invalid probability is the one-item array of its error code, so it is never a result. */
  function ResultEntry(bits: nat): (v: Value)
    requires bits < ARGUMENT_LIMIT
  {
    match Quantization.Quantize(bits)
    case None => Arr([Int(5)])
    case Some(micros) => Int(micros)
  }

  lemma ResultEntryMeaning(bits: nat)
    requires bits < ARGUMENT_LIMIT
    ensures ResultEntry(bits).Arr? <==> !(bits <= Quantization.ONE_BITS || bits == Quantization.SIGN_BIT)
    ensures ResultEntry(bits).Int? ==> 0 <= ResultEntry(bits).i <= 1_000_000
  {
    Quantization.AcceptedPatterns(bits);
    if bits <= Quantization.ONE_BITS {
      Quantization.QuantizesToNearest(bits);
    } else if bits == Quantization.SIGN_BIT {
      Quantization.SignedBits(bits);
    }
  }
}
