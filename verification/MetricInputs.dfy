/** `MTI1`, the metric input record: its canonical encoding and the strict two-pass decoder. */
module MetricInputs {
  import opened Commons
  import opened Cbor
  import opened Reading

  const D := 1_000_000
  const MAX_RECORDS := 262_144
  const MAX_IDENTIFIER_BYTES := 64

  const OBSERVED := 0
  const PENDING := 1
  const REDACTED := 2
  const UNAVAILABLE := 3

  function Ascii(s: string): (r: bytes)
    ensures |r| == |s|
  {
    seq(|s|, i requires 0 <= i < |s| => s[i] as int % 256)
  }

  const INPUT_MAGIC: bytes := Ascii("MTI1")
  const ALGORITHM_ID: bytes := Ascii("pigloros.metric.binary-calibration")

  /** Identifiers are kept as their UTF-8 bytes. */
  datatype Rec = Rec(
    predictionId: bytes, entityId: bytes, probability: nat, state: nat, outcome: Option<nat>, supplied: bool)

  datatype MetricInput = MetricInput(minimum: nat, records: seq<Rec>)

  // ----- What a valid input is -----

  predicate Continuation(b: byte) { 0x80 <= b <= 0xBF }

  /** The length of the well-formed UTF-8 sequence `s` starts with, 0 if there is none. */
  function Utf8Step(s: bytes): (n: nat)
    ensures n <= |s|
  {
    if |s| >= 1 && s[0] <= 0x7F then 1
    else if |s| >= 2 && 0xC2 <= s[0] <= 0xDF && Continuation(s[1]) then 2
    else if |s| >= 3 && Continuation(s[1]) && Continuation(s[2])
      && 0xE0 <= s[0] <= 0xEF && (s[0] == 0xE0 ==> s[1] >= 0xA0) && (s[0] == 0xED ==> s[1] <= 0x9F) then 3
    else if |s| >= 4 && Continuation(s[1]) && Continuation(s[2]) && Continuation(s[3])
      && 0xF0 <= s[0] <= 0xF4 && (s[0] == 0xF0 ==> s[1] >= 0x90) && (s[0] == 0xF4 ==> s[1] <= 0x8F) then 4
    else 0
  }

  /** Strict UTF-8: no overlong form, no surrogate, nothing above U+10FFFF. */
  predicate Utf8(s: bytes) {
    s == [] || (Utf8Step(s) > 0 && Utf8(s[Utf8Step(s)..]))
  }

  predicate ValidIdentifier(s: bytes) { Utf8(s) && 1 <= |s| <= MAX_IDENTIFIER_BYTES }

  predicate ValidRecord(r: Rec) {
    && ValidIdentifier(r.predictionId) && ValidIdentifier(r.entityId)
    && r.probability <= D && r.state <= UNAVAILABLE
    && (r.state == OBSERVED ==> r.outcome == Some(0) || r.outcome == Some(1))
    && (r.state != OBSERVED ==> r.outcome == None && !r.supplied)
  }

  /** Records sort strictly by prediction identifier. */
  predicate Ascending(records: seq<Rec>) {
    forall i | 0 < i < |records| :: Less(records[i - 1].predictionId, records[i].predictionId)
  }

  predicate ValidInput(m: MetricInput) {
    && 1 <= m.minimum <= MAX_RECORDS && |m.records| <= MAX_RECORDS
    && (forall i | 0 <= i < |m.records| :: ValidRecord(m.records[i]))
    && Ascending(m.records)
  }

  // ----- The canonical encoding -----

  function RecordValue(r: Rec): (v: Value)
    ensures ValidRecord(r) ==> Encodable(v)
  {
    Arr([Text(r.predictionId), Text(r.entityId), Int(r.probability), Int(r.state),
         if r.outcome.Some? then Int(r.outcome.value) else Null, Bool(r.supplied)])
  }

  function RecordValues(records: seq<Rec>): (vs: seq<Value>)
    ensures |vs| == |records|
  {
    seq(|records|, i requires 0 <= i < |records| => RecordValue(records[i]))
  }

  function HeaderValues(minimum: nat, count: nat): seq<Value> {
    [Text(INPUT_MAGIC), Int(1), Text(ALGORITHM_ID), Int(1), Int(0), Int(minimum), Int(count)]
  }

  function InputValue(m: MetricInput): (v: Value)
    ensures ValidInput(m) ==> Encodable(v)
  {
    Root(Structure(HeaderValues(m.minimum, |m.records|), RecordValues(m.records)))
  }

  function Mti1(m: MetricInput): bytes
    requires ValidInput(m)
  {
    Enc(InputValue(m))
  }

  // ----- The structural pass -----

  /** A structurally sound input: seven header fields and the records. */
  datatype Structure = Structure(fields: seq<Value>, records: seq<Value>)

  function Root(s: Structure): Value { Arr(s.fields + [Arr(s.records)]) }

  predicate IsRecord(v: Value) { v.Arr? && |v.items| == 6 }

  predicate Shaped(s: Structure) {
    |s.fields| == 7 && forall i | 0 <= i < |s.records| :: IsRecord(s.records[i])
  }

  const HEADER_FIELDS: seq<Field> :=
    [Magic, Version, AlgorithmId, AlgorithmMajor, Binning, MinimumScoredRecords, RecordCount]

  const INPUT := Coordinate(Input, [])
  const RECORDS := Coordinate(Records, [])

  function RecordAt(index: nat): Coordinate { Coordinate(Records, [index]) }

  function StructureError<T>(at: Coordinate): Result<T> { Err(Failure(InvalidEncoding, at)) }

  function ReadRecords(data: bytes, pos: nat, count: nat, index: nat): (r: Read<seq<Value>>)
    ensures r.Got? ==> |r.value| == count && pos <= r.next
    decreases count
  {
    if count == 0 then Got([], pos)
    else
      match ReadHead(data, pos)
      case HeadBad => Bad(RecordAt(index))
      case HeadOk(major, length, next) =>
        if major != 4 || length != 6 then Bad(RecordAt(index))
        else
          match ReadItems(data, next, 6, 0, 4)
          case ItemsBad(path) => Bad(RecordAt(index).Below(path))
          case ItemsOk(items, end) =>
            var (rest, last) :- ReadRecords(data, end, count - 1, index + 1);
            Got([Arr(items)] + rest, last)
  }

  function ReadStructure(data: bytes): Result<Structure> {
    match ReadHead(data, 0)
    case HeadBad => StructureError(INPUT)
    case HeadOk(major, length, start) =>
      if major != 4 || length != 8 then StructureError(INPUT)
      else
        match ReadItems(data, start, 7, 0, 2)
        case ItemsBad(path) => StructureError(Coordinate(HEADER_FIELDS[path[0]], path[1..]))
        case ItemsOk(fields, next) =>
          match ReadHead(data, next)
          case HeadBad => StructureError(RECORDS)
          case HeadOk(kind, count, first) =>
            if kind != 4 then StructureError(RECORDS)
            else
              match ReadRecords(data, first, count, 0)
              case Failed(failure) => Err(failure)
              case Got(records, end) =>
                if end != |data| then StructureError(Coordinate(Trailing, []))
                else Ok(Structure(fields, records))
  }

  lemma {:induction false} ReadRecordsSound(data: bytes, pos: nat, count: nat, index: nat)
    requires pos <= |data| && ReadRecords(data, pos, count, index).Got?
    ensures var r := ReadRecords(data, pos, count, index);
      && AllEncodable(r.value) && AllFit(r.value, 3) && (forall i | 0 <= i < count :: IsRecord(r.value[i]))
      && At(data, pos, EncAll(r.value)) && r.next == pos + |EncAll(r.value)|
    decreases count
  {
    hide ReadHead, Head, ReadItems;
    if count > 0 {
      var next := ReadHead(data, pos).next;
      ReadIsHead(data, pos);
      ReadItemsSound(data, next, 6, 0, 4);
      var items := ReadItems(data, next, 6, 0, 4).values;
      AtConcat(data, pos, Head(4, 6), EncAll(items));
      var end := ReadItems(data, next, 6, 0, 4).next;
      ReadRecordsSound(data, end, count - 1, index + 1);
      var rest := ReadRecords(data, end, count - 1, index + 1).value;
      assert ReadRecords(data, pos, count, index).value[1..] == rest;
      AtConcat(data, pos, Enc(Arr(items)), EncAll(rest));
    }
  }

  lemma {:induction false} ReadRecordsComplete(data: bytes, pos: nat, index: nat, records: seq<Value>)
    requires AllEncodable(records) && AllFit(records, 3) && forall i | 0 <= i < |records| :: IsRecord(records[i])
    requires At(data, pos, EncAll(records))
    ensures ReadRecords(data, pos, |records|, index) == Got(records, pos + |EncAll(records)|)
    decreases |records|
  {
    hide ReadHead, Head, ReadItems, At;
    if records != [] {
      var items := records[0].items;
      AtConcat(data, pos, Enc(records[0]), EncAll(records[1..]));
      AtConcat(data, pos, Head(4, 6), EncAll(items));
      HeadIsRead(data, pos, 4, 6);
      ReadItemsComplete(data, pos + |Head(4, 6)|, 0, 4, items);
      ReadRecordsComplete(data, pos + |Enc(records[0])|, index + 1, records[1..]);
      assert records == [records[0]] + records[1..];
    }
  }

  /** The structural pass accepts exactly the encodings of an eight-field root whose last field
      lists six-field records, nested within the cap; and it tells which. */
  lemma StructureIsEncoding(data: bytes, s: Structure)
    ensures ReadStructure(data) == Ok(s)
       <==> Shaped(s) && Encodable(Root(s)) && Fits(Root(s), 1) && data == Enc(Root(s))
  {
    if ReadStructure(data) == Ok(s) {
      StructureSound(data, s);
    }
    if Shaped(s) && Encodable(Root(s)) && Fits(Root(s), 1) && data == Enc(Root(s)) {
      StructureComplete(data, s);
    }
  }

  /** The root encoding, piece by piece. */
  lemma RootPieces(s: Structure)
    requires Shaped(s) && AllEncodable(s.fields) && AllEncodable(s.records) && |s.records| < ARGUMENT_LIMIT
    ensures Encodable(Root(s))
    ensures Enc(Root(s)) == Head(4, 8) + (EncAll(s.fields) + (Head(4, |s.records|) + EncAll(s.records)))
  {
    hide Enc, Head;
    var items := s.fields + [Arr(s.records)];
    EncAllSplits(items, 7);
    assert items[..7] == s.fields && items[8..] == [];
    assert EncAll(items[8..]) == [];
    assert Enc(Arr(s.records)) == Head(4, |s.records|) + EncAll(s.records) by { EncArray(s.records); }
    EncArray(items);
  }

  lemma EncArray(items: seq<Value>)
    requires Encodable(Arr(items))
    ensures Enc(Arr(items)) == Head(4, |items|) + EncAll(items)
  {
  }

  lemma StructureSound(data: bytes, s: Structure)
    requires ReadStructure(data) == Ok(s)
    ensures Shaped(s) && Encodable(Root(s)) && Fits(Root(s), 1) && data == Enc(Root(s))
  {
    hide ReadHead, Head, ReadItems, ReadRecords, At, EncAll, Enc, Encodable;
    var start := ReadHead(data, 0).next;
    ReadIsHead(data, 0);
    ReadItemsSound(data, start, 7, 0, 2);
    var next := start + |EncAll(s.fields)|;
    var count := ReadHead(data, next).argument;
    ReadIsHead(data, next);
    var first := next + |Head(4, count)|;
    ReadRecordsSound(data, first, count, 0);
    AtConcat(data, next, Head(4, count), EncAll(s.records));
    AtConcat(data, start, EncAll(s.fields), Head(4, count) + EncAll(s.records));
    AtConcat(data, 0, Head(4, 8), EncAll(s.fields) + (Head(4, count) + EncAll(s.records)));
    RootPieces(s);
    AtSlice(data, 0, Enc(Root(s)));
  }

  lemma StructureComplete(data: bytes, s: Structure)
    requires Shaped(s) && Encodable(Root(s)) && Fits(Root(s), 1) && data == Enc(Root(s))
    ensures ReadStructure(data) == Ok(s)
  {
    hide ReadHead, Head, ReadItems, ReadRecords, Enc, EncAll, At;
    var items := s.fields + [Arr(s.records)];
    assert items == Root(s).items && items[7] == Arr(s.records);
    assert forall k | 0 <= k < 7 :: items[k] == s.fields[k];
    assert Encodable(items[7]) && Fits(items[7], 2);
    RootPieces(s);
    AtSlice(data, 0, data);
    var count := |s.records|;
    AtConcat(data, 0, Head(4, 8), EncAll(s.fields) + (Head(4, count) + EncAll(s.records)));
    HeadIsRead(data, 0, 4, 8);
    var start := |Head(4, 8)|;
    AtConcat(data, start, EncAll(s.fields), Head(4, count) + EncAll(s.records));
    ReadItemsComplete(data, start, 0, 2, s.fields);
    var next := start + |EncAll(s.fields)|;
    AtConcat(data, next, Head(4, count), EncAll(s.records));
    HeadIsRead(data, next, 4, count);
    ReadRecordsComplete(data, next + |Head(4, count)|, 0, s.records);
  }

  // ----- The semantic pass, on the items the structural pass saw -----

  function AsIdentifier(v: Value, where: Coordinate): Result<bytes> {
    var raw :- AsText(v, where);
    if ValidIdentifier(raw) then Ok(raw) else Err(Failure(InvalidIdentifier, where))
  }

  /** Header fields in index order; the first failure wins. */
  function InterpretHeader(fields: seq<Value>, total: nat): Result<nat>
    requires |fields| == 7
  {
    var magic :- AsText(fields[0], Coordinate(Magic, []));
    if magic != INPUT_MAGIC then Err(Failure(UnsupportedVersion, Coordinate(Magic, []))) else
    var version :- AsUint(fields[1], Coordinate(Version, []));
    if version != 1 then Err(Failure(UnsupportedVersion, Coordinate(Version, []))) else
    var algorithm :- AsText(fields[2], Coordinate(AlgorithmId, []));
    if algorithm != ALGORITHM_ID then Err(Failure(UnsupportedAlgorithm, Coordinate(AlgorithmId, []))) else
    var major :- AsUint(fields[3], Coordinate(AlgorithmMajor, []));
    if major != 1 then Err(Failure(UnsupportedAlgorithm, Coordinate(AlgorithmMajor, []))) else
    var binning :- AsUint(fields[4], Coordinate(Binning, []));
    if binning != 0 then Err(Failure(InvalidBinning, Coordinate(Binning, []))) else
    var minimum :- AsUint(fields[5], Coordinate(MinimumScoredRecords, []));
    if !(1 <= minimum <= MAX_RECORDS) then Err(Failure(InvalidMinimum, Coordinate(MinimumScoredRecords, []))) else
    var count :- AsUint(fields[6], Coordinate(RecordCount, []));
    if count > MAX_RECORDS then Err(Failure(ResourceLimit, Coordinate(RecordCount, []))) else
    if total != count then Err(Failure(InconsistentLength, RECORDS)) else
    Ok(minimum)
  }

  function FieldAt(index: nat, field: nat): Coordinate { Coordinate(Records, [index, field]) }

  /** The order of a prediction identifier against the previous record's. */
  function CheckOrder(previous: Option<bytes>, id: bytes, where: Coordinate): Result<()> {
    if previous == Some(id) then Err(Failure(DuplicatePrediction, where))
    else if previous.Some? && Less(id, previous.value) then Err(Failure(NonCanonicalOrder, where))
    else Ok(())
  }

  function CheckOutcome(state: nat, outcome: Option<nat>, where: Coordinate): Result<()> {
    if state == OBSERVED && (outcome == None || outcome.value > 1) then Err(Failure(InvalidOutcome, where))
    else if state != OBSERVED && outcome != None then Err(Failure(InvalidOutcome, where))
    else Ok(())
  }

  /** Record fields in index order; the first failure wins. */
  function InterpretRecord(items: seq<Value>, index: nat, previous: Option<bytes>): Result<Rec>
    requires |items| == 6
  {
    var predictionId :- AsIdentifier(items[0], FieldAt(index, 0));
    var ordered :- CheckOrder(previous, predictionId, FieldAt(index, 0));
    var entityId :- AsIdentifier(items[1], FieldAt(index, 1));
    var probability :- AsUint(items[2], FieldAt(index, 2));
    if probability > D then Err(Failure(InvalidProbability, FieldAt(index, 2))) else
    var state :- AsUint(items[3], FieldAt(index, 3));
    if state > UNAVAILABLE then Err(Failure(InvalidOutcome, FieldAt(index, 3))) else
    var outcome :- AsUintOrNull(items[4], FieldAt(index, 4));
    var consistent :- CheckOutcome(state, outcome, FieldAt(index, 4));
    var supplied :- AsBoolean(items[5], FieldAt(index, 5));
    if supplied && state != OBSERVED then Err(Failure(InvalidOutcome, FieldAt(index, 5))) else
    Ok(Rec(predictionId, entityId, probability, state, outcome, supplied))
  }

  function InterpretRecords(records: seq<Value>, index: nat, previous: Option<bytes>): Result<seq<Rec>>
    requires forall i | 0 <= i < |records| :: IsRecord(records[i])
  {
    if records == [] then Ok([])
    else
      assert IsRecord(records[0]);
      var first :- InterpretRecord(records[0].items, index, previous);
      var rest :- InterpretRecords(records[1..], index + 1, Some(first.predictionId));
      Ok([first] + rest)
  }

  function Interpret(s: Structure): Result<MetricInput>
    requires Shaped(s)
  {
    var minimum :- InterpretHeader(s.fields, |s.records|);
    var records :- InterpretRecords(s.records, 0, None);
    Ok(MetricInput(minimum, records))
  }

  /** The decoder: structure first, then the meaning of the structure. */
  function Decode(data: bytes): Result<MetricInput> {
    match ReadStructure(data)
    case Err(failure) => Err(failure)
    case Ok(s) => StructureIsEncoding(data, s); Interpret(s)
  }

  // ----- The decoder inverts the encoder -----

  predicate Follows(previous: Option<bytes>, id: bytes) { previous == None || Less(previous.value, id) }

  lemma RecordIffCanonical(items: seq<Value>, index: nat, previous: Option<bytes>, r: Rec)
    requires |items| == 6
    ensures InterpretRecord(items, index, previous) == Ok(r)
       <==> ValidRecord(r) && Follows(previous, r.predictionId) && Arr(items) == RecordValue(r)
  {
    hide Utf8, Less;
    if previous.Some? && items[0].Text? {
      LessIsTotal(previous.value, items[0].content);
    }
    if previous.Some? {
      LessIsTotal(previous.value, r.predictionId);
    }
    if InterpretRecord(items, index, previous) == Ok(r) {
      assert items == RecordValue(r).items;
    }
  }

  /** The identifiers ascend, starting above `previous`. */
  predicate Chained(previous: Option<bytes>, records: seq<Rec>) {
    (records != [] ==> Follows(previous, records[0].predictionId)) && Ascending(records)
  }

  lemma {:induction false} RecordsIffCanonical(
    records: seq<Value>, index: nat, previous: Option<bytes>, rs: seq<Rec>)
    requires forall i | 0 <= i < |records| :: IsRecord(records[i])
    ensures InterpretRecords(records, index, previous) == Ok(rs)
       <==> (forall i | 0 <= i < |rs| :: ValidRecord(rs[i])) && Chained(previous, rs) && records == RecordValues(rs)
    decreases |records|
  {
    hide ValidRecord, InterpretRecord, RecordValue, Less;
    if records == [] {
      if rs == [] {
        assert RecordValues(rs) == [];
      }
    } else if rs != [] {
      var first, id := rs[0], rs[0].predictionId;
      assert records[0] == Arr(records[0].items);
      RecordIffCanonical(records[0].items, index, previous, first);
      RecordsIffCanonical(records[1..], index + 1, Some(id), rs[1..]);
      assert rs == [first] + rs[1..];
      ChainedSplits(previous, rs);
      RecordValuesSplits(records, rs);
    }
  }

  lemma ChainedSplits(previous: Option<bytes>, rs: seq<Rec>)
    requires rs != []
    ensures Chained(previous, rs)
       <==> Follows(previous, rs[0].predictionId) && Chained(Some(rs[0].predictionId), rs[1..])
  {
    hide Less;
    var rest := rs[1..];
    if Follows(previous, rs[0].predictionId) && Chained(Some(rs[0].predictionId), rest) {
      forall i | 0 < i < |rs| ensures Less(rs[i - 1].predictionId, rs[i].predictionId) {
        if i > 1 {
          assert rs[i - 1] == rest[i - 2] && rs[i] == rest[i - 1];
        }
      }
    }
    if Chained(previous, rs) {
      forall i | 0 < i < |rest| ensures Less(rest[i - 1].predictionId, rest[i].predictionId) {
        assert rs[i + 1 - 1] == rest[i - 1] && rs[i + 1] == rest[i];
      }
    }
  }

  lemma RecordValuesSplits(records: seq<Value>, rs: seq<Rec>)
    requires records != [] && rs != []
    ensures records == RecordValues(rs) <==> records[0] == RecordValue(rs[0]) && records[1..] == RecordValues(rs[1..])
  {
    hide RecordValue;
    assert RecordValues(rs)[1..] == RecordValues(rs[1..]);
    assert RecordValues(rs) == [RecordValue(rs[0])] + RecordValues(rs)[1..];
    assert records == [records[0]] + records[1..];
  }

  lemma HeaderIffCanonical(fields: seq<Value>, total: nat, minimum: nat)
    requires |fields| == 7
    ensures InterpretHeader(fields, total) == Ok(minimum)
       <==> 1 <= minimum <= MAX_RECORDS && total <= MAX_RECORDS && fields == HeaderValues(minimum, total)
  {
    if InterpretHeader(fields, total) == Ok(minimum) {
      assert fields == HeaderValues(minimum, total);
    }
  }

  /** A byte string decodes to `m` exactly when `m` is a valid input and the bytes are its encoding:
      the decoder inverts the encoder, and accepts no second spelling of anything. */
  lemma DecodeIffCanonical(data: bytes, m: MetricInput)
    ensures Decode(data) == Ok(m) <==> ValidInput(m) && data == Mti1(m)
  {
    hide ReadStructure, Enc, InterpretHeader, InterpretRecords, HeaderValues, RecordValues;
    if Decode(data).Ok? {
      var s := ReadStructure(data).value;
      StructureIsEncoding(data, s);
      var d := Decode(data).value;
      HeaderIffCanonical(s.fields, |s.records|, d.minimum);
      RecordsIffCanonical(s.records, 0, None, d.records);
      assert s == Structure(HeaderValues(d.minimum, |d.records|), RecordValues(d.records));
    }
    if ValidInput(m) && data == Mti1(m) {
      var s := Structure(HeaderValues(m.minimum, |m.records|), RecordValues(m.records));
      CanonicalFits(m);
      StructureIsEncoding(data, s);
      HeaderIffCanonical(s.fields, |s.records|, m.minimum);
      RecordsIffCanonical(s.records, 0, None, m.records);
    }
  }

  lemma CanonicalFits(m: MetricInput)
    requires ValidInput(m)
    ensures Fits(InputValue(m), 1)
    ensures Shaped(Structure(HeaderValues(m.minimum, |m.records|), RecordValues(m.records)))
  {
    forall i | 0 <= i < |m.records| ensures Fits(RecordValues(m.records)[i], 3) {
      assert RecordValues(m.records)[i] == RecordValue(m.records[i]);
    }
  }

  // ----- The semantic pass, on bytes -----

  function ReadIdentifier(data: bytes, pos: nat, where: Coordinate): Read<bytes> {
    var (raw, next) :- ReadText(data, pos, where);
    if ValidIdentifier(raw) then Got(raw, next) else Failed(Failure(InvalidIdentifier, where))
  }

  function PassHeader(data: bytes): Read<(nat, nat)> {
    var (length, p0) :- ReadArray(data, 0, INPUT);
    if length != 8 then Bad(INPUT) else
    var (magic, p1) :- ReadText(data, p0, Coordinate(Magic, []));
    if magic != INPUT_MAGIC then Failed(Failure(UnsupportedVersion, Coordinate(Magic, []))) else
    var (version, p2) :- ReadUint(data, p1, Coordinate(Version, []));
    if version != 1 then Failed(Failure(UnsupportedVersion, Coordinate(Version, []))) else
    var (algorithm, p3) :- ReadText(data, p2, Coordinate(AlgorithmId, []));
    if algorithm != ALGORITHM_ID then Failed(Failure(UnsupportedAlgorithm, Coordinate(AlgorithmId, []))) else
    var (major, p4) :- ReadUint(data, p3, Coordinate(AlgorithmMajor, []));
    if major != 1 then Failed(Failure(UnsupportedAlgorithm, Coordinate(AlgorithmMajor, []))) else
    var (binning, p5) :- ReadUint(data, p4, Coordinate(Binning, []));
    if binning != 0 then Failed(Failure(InvalidBinning, Coordinate(Binning, []))) else
    var (minimum, p6) :- ReadUint(data, p5, Coordinate(MinimumScoredRecords, []));
    if !(1 <= minimum <= MAX_RECORDS) then Failed(Failure(InvalidMinimum, Coordinate(MinimumScoredRecords, []))) else
    var (count, p7) :- ReadUint(data, p6, Coordinate(RecordCount, []));
    if count > MAX_RECORDS then Failed(Failure(ResourceLimit, Coordinate(RecordCount, []))) else
    var (total, p8) :- ReadArray(data, p7, RECORDS);
    if total != count then Failed(Failure(InconsistentLength, RECORDS)) else
    Got((minimum, count), p8)
  }

  function PassRecord(data: bytes, pos: nat, index: nat, previous: Option<bytes>): Read<Rec> {
    var (length, p0) :- ReadArray(data, pos, RecordAt(index));
    if length != 6 then Bad(RecordAt(index)) else
    var (predictionId, p1) :- ReadIdentifier(data, p0, FieldAt(index, 0));
    var order := CheckOrder(previous, predictionId, FieldAt(index, 0));
    if order.Err? then Failed(order.failure) else
    var (entityId, p2) :- ReadIdentifier(data, p1, FieldAt(index, 1));
    var (probability, p3) :- ReadUint(data, p2, FieldAt(index, 2));
    if probability > D then Failed(Failure(InvalidProbability, FieldAt(index, 2))) else
    var (state, p4) :- ReadUint(data, p3, FieldAt(index, 3));
    if state > UNAVAILABLE then Failed(Failure(InvalidOutcome, FieldAt(index, 3))) else
    var (outcome, p5) :- ReadUintOrNull(data, p4, FieldAt(index, 4));
    var consistent := CheckOutcome(state, outcome, FieldAt(index, 4));
    if consistent.Err? then Failed(consistent.failure) else
    var (supplied, p6) :- ReadBoolean(data, p5, FieldAt(index, 5));
    if supplied && state != OBSERVED then Failed(Failure(InvalidOutcome, FieldAt(index, 5))) else
    Got(Rec(predictionId, entityId, probability, state, outcome, supplied), p6)
  }

  function PassRecords(data: bytes, pos: nat, count: nat, index: nat, previous: Option<bytes>): Read<seq<Rec>>
    decreases count
  {
    if count == 0 then Got([], pos)
    else
      var (first, next) :- PassRecord(data, pos, index, previous);
      var (rest, end) :- PassRecords(data, next, count - 1, index + 1, Some(first.predictionId));
      Got([first] + rest, end)
  }

  /** The semantic pass reads the bytes again from the start. */
  function Pass(data: bytes): Result<MetricInput> {
    match PassHeader(data)
    case Failed(failure) => Err(failure)
    case Got((minimum, count), first) =>
      match PassRecords(data, first, count, 0, None)
      case Failed(failure) => Err(failure)
      case Got(records, end) =>
        if end != |data| then StructureError(Coordinate(Trailing, [])) else Ok(MetricInput(minimum, records))
  }

  lemma UintFieldAgrees(data: bytes, pos: nat, items: seq<Value>, k: nat, where: Coordinate)
    requires k < |items| && AllEncodable(items) && At(data, pos, EncAll(items))
    ensures Agrees(ReadUint(data, pos + Offset(items, k), where), AsUint(items[k], where), pos + Offset(items, k + 1))
    ensures Offset(items, 0) == 0 && Offset(items, |items|) == |EncAll(items)|
  {
    hide At, Enc, EncAll, ReadUint, ReadText, ReadUintOrNull, ReadBoolean, AsUint, AsText, AsUintOrNull, AsBoolean,
      Offset;
    ItemAtOffset(data, pos, items, k);
    TypedReadsAgree(data, pos + Offset(items, k), items[k], where);
  }

  lemma TextFieldAgrees(data: bytes, pos: nat, items: seq<Value>, k: nat, where: Coordinate)
    requires k < |items| && AllEncodable(items) && At(data, pos, EncAll(items))
    ensures Agrees(ReadText(data, pos + Offset(items, k), where), AsText(items[k], where), pos + Offset(items, k + 1))
    ensures Offset(items, 0) == 0 && Offset(items, |items|) == |EncAll(items)|
  {
    hide At, Enc, EncAll, ReadUint, ReadText, ReadUintOrNull, ReadBoolean, AsUint, AsText, AsUintOrNull, AsBoolean,
      Offset;
    ItemAtOffset(data, pos, items, k);
    TypedReadsAgree(data, pos + Offset(items, k), items[k], where);
  }

  lemma UintOrNullFieldAgrees(data: bytes, pos: nat, items: seq<Value>, k: nat, where: Coordinate)
    requires k < |items| && AllEncodable(items) && At(data, pos, EncAll(items))
    ensures Agrees(
      ReadUintOrNull(data, pos + Offset(items, k), where), AsUintOrNull(items[k], where), pos + Offset(items, k + 1))
    ensures Offset(items, 0) == 0 && Offset(items, |items|) == |EncAll(items)|
  {
    hide At, Enc, EncAll, ReadUint, ReadText, ReadUintOrNull, ReadBoolean, AsUint, AsText, AsUintOrNull, AsBoolean,
      Offset;
    ItemAtOffset(data, pos, items, k);
    TypedReadsAgree(data, pos + Offset(items, k), items[k], where);
  }

  lemma BooleanFieldAgrees(data: bytes, pos: nat, items: seq<Value>, k: nat, where: Coordinate)
    requires k < |items| && AllEncodable(items) && At(data, pos, EncAll(items))
    ensures Agrees(
      ReadBoolean(data, pos + Offset(items, k), where), AsBoolean(items[k], where), pos + Offset(items, k + 1))
    ensures Offset(items, 0) == 0 && Offset(items, |items|) == |EncAll(items)|
  {
    hide At, Enc, EncAll, ReadUint, ReadText, ReadUintOrNull, ReadBoolean, AsUint, AsText, AsUintOrNull, AsBoolean,
      Offset;
    ItemAtOffset(data, pos, items, k);
    TypedReadsAgree(data, pos + Offset(items, k), items[k], where);
  }

  lemma RecordAgrees(data: bytes, pos: nat, items: seq<Value>, index: nat, previous: Option<bytes>)
    requires |items| == 6 && Encodable(Arr(items)) && At(data, pos, Enc(Arr(items)))
    ensures Agrees(PassRecord(data, pos, index, previous), InterpretRecord(items, index, previous),
                   pos + |Enc(Arr(items))|)
  {
    hide At, ReadUint, ReadText, ReadArray, ReadUintOrNull, ReadBoolean, CheckOrder, CheckOutcome,
      ValidIdentifier, Offset, AsUint, AsText, AsUintOrNull, AsBoolean, EncAll, Head;
    ArrayReadAgrees(data, pos, items, RecordAt(index));
    var p := pos + |Head(4, |items|)|;
    TextFieldAgrees(data, p, items, 0, FieldAt(index, 0));
    TextFieldAgrees(data, p, items, 1, FieldAt(index, 1));
    UintFieldAgrees(data, p, items, 2, FieldAt(index, 2));
    UintFieldAgrees(data, p, items, 3, FieldAt(index, 3));
    UintOrNullFieldAgrees(data, p, items, 4, FieldAt(index, 4));
    BooleanFieldAgrees(data, p, items, 5, FieldAt(index, 5));
  }

  lemma {:induction false} RecordsAgree(
    data: bytes, pos: nat, records: seq<Value>, index: nat, previous: Option<bytes>)
    requires AllEncodable(records) && forall i | 0 <= i < |records| :: IsRecord(records[i])
    requires At(data, pos, EncAll(records))
    ensures Agrees(PassRecords(data, pos, |records|, index, previous), InterpretRecords(records, index, previous),
                   pos + |EncAll(records)|)
    decreases |records|
  {
    hide At, PassRecord, InterpretRecord, Enc;
    if records != [] {
      AtConcat(data, pos, Enc(records[0]), EncAll(records[1..]));
      var items := records[0].items;
      RecordAgrees(data, pos, items, index, previous);
      var first := InterpretRecord(items, index, previous);
      if first.Ok? {
        RecordsAgree(data, pos + |Enc(records[0])|, records[1..], index + 1, Some(first.value.predictionId));
      }
    }
  }

  lemma HeaderAgrees(data: bytes, s: Structure) returns (first: nat)
    requires Shaped(s) && Encodable(Root(s)) && data == Enc(Root(s))
    ensures AllEncodable(s.records) && first + |EncAll(s.records)| == |data| && At(data, first, EncAll(s.records))
    ensures match InterpretHeader(s.fields, |s.records|)
      case Ok(minimum) => PassHeader(data) == Got((minimum, |s.records|), first)
      case Err(failure) => PassHeader(data) == Failed(failure)
  {
    hide At, ReadUint, ReadText, ReadArray, ReadUintOrNull, ReadBoolean,
      Offset, AsUint, AsText, AsUintOrNull, AsBoolean, EncAll, Enc, Head;
    var p: nat;
    p, first := HeaderPieces(data, s);
    TextFieldAgrees(data, p, s.fields, 0, Coordinate(Magic, []));
    UintFieldAgrees(data, p, s.fields, 1, Coordinate(Version, []));
    TextFieldAgrees(data, p, s.fields, 2, Coordinate(AlgorithmId, []));
    UintFieldAgrees(data, p, s.fields, 3, Coordinate(AlgorithmMajor, []));
    UintFieldAgrees(data, p, s.fields, 4, Coordinate(Binning, []));
    UintFieldAgrees(data, p, s.fields, 5, Coordinate(MinimumScoredRecords, []));
    UintFieldAgrees(data, p, s.fields, 6, Coordinate(RecordCount, []));
  }

  lemma HeaderPieces(data: bytes, s: Structure) returns (p: nat, first: nat)
    requires Shaped(s) && Encodable(Root(s)) && data == Enc(Root(s))
    ensures AllEncodable(s.fields) && AllEncodable(s.records)
    ensures ReadArray(data, 0, INPUT) == Got(8, p) && At(data, p, EncAll(s.fields))
    ensures ReadArray(data, p + |EncAll(s.fields)|, RECORDS) == Got(|s.records|, first)
    ensures first + |EncAll(s.records)| == |data| && At(data, first, EncAll(s.records))
  {
    hide At, Enc, Head, ReadHead, EncAll;
    var items := s.fields + [Arr(s.records)];
    assert items == Root(s).items && items[7] == Arr(s.records) && Encodable(items[7]);
    assert forall k | 0 <= k < 7 :: items[k] == s.fields[k];
    RootPieces(s);
    AtSlice(data, 0, data);
    var tail := Head(4, |s.records|) + EncAll(s.records);
    AtConcat(data, 0, Head(4, 8), EncAll(s.fields) + tail);
    HeadIsRead(data, 0, 4, 8);
    p := |Head(4, 8)|;
    AtConcat(data, p, EncAll(s.fields), tail);
    var next := p + |EncAll(s.fields)|;
    AtConcat(data, next, Head(4, |s.records|), EncAll(s.records));
    HeadIsRead(data, next, 4, |s.records|);
    first := next + |Head(4, |s.records|)|;
  }

  /** After the structural pass has succeeded, reading the bytes again interprets the items it
      saw: no field is misaligned, nothing is truncated, and nothing trails. */
  lemma PassRefinesInterpret(data: bytes, s: Structure)
    requires ReadStructure(data) == Ok(s)
    ensures Shaped(s) && Pass(data) == Interpret(s)
  {
    hide ReadStructure, PassHeader, PassRecords, InterpretHeader, InterpretRecords, At, Enc;
    StructureIsEncoding(data, s);
    var first := HeaderAgrees(data, s);
    RecordsAgree(data, first, s.records, 0, None);
  }

  // ----- What the decoder reports -----

  /** Where the semantic pass can fail: at a header field, at `records`, or at a record field; and
      `InvalidEncoding` only for an item of the wrong type. */
  predicate SemanticFailure(s: Structure, f: Failure)
    requires Shaped(s)
  {
    match f.at.field
    case Records =>
      if f.at.indices == [] then f.error == InconsistentLength
      else
        && |f.at.indices| == 2 && f.at.indices[0] < |s.records| && f.at.indices[1] <= 5
        && (f.error == InvalidEncoding ==> !FieldTyped(s.records[f.at.indices[0]], f.at.indices[1]))
    case _ =>
      && f.at.indices == [] && f.at.field in HEADER_FIELDS
      && (f.error == InvalidEncoding ==>
            exists k | 0 <= k < 7 :: f.at.field == HEADER_FIELDS[k] && !HeaderTyped(s.fields[k], k))
  }

  predicate HeaderTyped(v: Value, k: nat) {
    if k == 0 || k == 2 then v.Text? else IsUint(v)
  }

  predicate FieldTyped(record: Value, j: nat)
    requires IsRecord(record) && j <= 5
  {
    var v := record.items[j];
    if j <= 1 then v.Text? else if j <= 3 then IsUint(v) else if j == 4 then IsUint(v) || v.Null? else v.Bool?
  }

  lemma HeaderFailures(s: Structure)
    requires Shaped(s) && InterpretHeader(s.fields, |s.records|).Err?
    ensures SemanticFailure(s, InterpretHeader(s.fields, |s.records|).failure)
  {
    var f := InterpretHeader(s.fields, |s.records|).failure;
    assert HEADER_FIELDS[0] == Magic && HEADER_FIELDS[1] == Version && HEADER_FIELDS[2] == AlgorithmId
      && HEADER_FIELDS[3] == AlgorithmMajor && HEADER_FIELDS[4] == Binning
      && HEADER_FIELDS[5] == MinimumScoredRecords && HEADER_FIELDS[6] == RecordCount;
    if f.error == InvalidEncoding {
      var k :=
        if f.at.field == Magic then 0 else if f.at.field == Version then 1 else if f.at.field == AlgorithmId then 2
        else if f.at.field == AlgorithmMajor then 3 else if f.at.field == Binning then 4
        else if f.at.field == MinimumScoredRecords then 5 else 6;
      assert f.at.field == HEADER_FIELDS[k] && !HeaderTyped(s.fields[k], k);
    }
  }

  lemma {:induction false} RecordFailures(s: Structure, index: nat, previous: Option<bytes>)
    requires Shaped(s) && index <= |s.records|
    ensures InterpretRecords(s.records[index..], index, previous).Err?
        ==> SemanticFailure(s, InterpretRecords(s.records[index..], index, previous).failure)
    decreases |s.records| - index
  {
    hide ValidIdentifier, Less;
    if index < |s.records| {
      var items := s.records[index].items;
      assert s.records[index..][0] == s.records[index] && s.records[index..][1..] == s.records[index + 1..];
      var first := InterpretRecord(items, index, previous);
      if first.Ok? {
        RecordFailures(s, index + 1, Some(first.value.predictionId));
      } else {
        assert first.failure.at.indices[0] == index;
      }
    }
  }

  /** What header field `k` must hold, whatever the other fields hold. */
  predicate HeaderFieldOk(v: Value, k: nat) {
    match k
    case 0 => v == Text(INPUT_MAGIC)
    case 1 => v == Int(1)
    case 2 => v == Text(ALGORITHM_ID)
    case 3 => v == Int(1)
    case 4 => v == Int(0)
    case 5 => v.Int? && 1 <= v.i <= MAX_RECORDS
    case _ => v.Int? && 0 <= v.i <= MAX_RECORDS
  }

  function HeaderError(v: Value, k: nat): MetricError {
    if !HeaderTyped(v, k) then InvalidEncoding
    else if k <= 1 then UnsupportedVersion
    else if k <= 3 then UnsupportedAlgorithm
    else if k == 4 then InvalidBinning
    else if k == 5 then InvalidMinimum
    else ResourceLimit
  }

  /** The first failure wins: the header fails at field `k` exactly when every field before it is
      as it must be and field `k` is not; and the error is the one of that field. */
  lemma HeaderFirstFailure(fields: seq<Value>, total: nat, k: nat)
    requires |fields| == 7 && k < 7
    ensures InterpretHeader(fields, total) == Err(Failure(HeaderError(fields[k], k), Coordinate(HEADER_FIELDS[k], [])))
       <==> (forall j | 0 <= j < k :: HeaderFieldOk(fields[j], j)) && !HeaderFieldOk(fields[k], k)
    ensures InterpretHeader(fields, total).Err? && InterpretHeader(fields, total).failure.at == RECORDS
       <==> (forall j | 0 <= j < 7 :: HeaderFieldOk(fields[j], j)) && fields[6].i != total
  {
    HeaderFieldsAre(fields, k);
    HeaderFieldsAre(fields, 7);
  }

  lemma HeaderFieldsAre(fields: seq<Value>, k: nat)
    requires |fields| == 7 && k <= 7
    ensures (forall j | 0 <= j < k :: HeaderFieldOk(fields[j], j))
       <==> && (k > 0 ==> HeaderFieldOk(fields[0], 0)) && (k > 1 ==> HeaderFieldOk(fields[1], 1))
            && (k > 2 ==> HeaderFieldOk(fields[2], 2)) && (k > 3 ==> HeaderFieldOk(fields[3], 3))
            && (k > 4 ==> HeaderFieldOk(fields[4], 4)) && (k > 5 ==> HeaderFieldOk(fields[5], 5))
            && (k > 6 ==> HeaderFieldOk(fields[6], 6))
  {
    hide HeaderFieldOk;
  }

  predicate IdentifierItem(v: Value) { v.Text? && ValidIdentifier(v.content) }

  /** What record field `j` must hold, given the fields before it are as they must be. */
  predicate RecordFieldOk(items: seq<Value>, j: nat, previous: Option<bytes>)
    requires |items| == 6
  {
    var observed := items[3] == Int(OBSERVED);
    match j
    case 0 => IdentifierItem(items[0]) && Follows(previous, items[0].content)
    case 1 => IdentifierItem(items[1])
    case 2 => items[2].Int? && 0 <= items[2].i <= D
    case 3 => items[3].Int? && 0 <= items[3].i <= UNAVAILABLE
    case 4 => if observed then items[4] == Int(0) || items[4] == Int(1) else items[4] == Null
    case _ => items[5].Bool? && (items[5].b ==> observed)
  }

  function RecordError(items: seq<Value>, j: nat, previous: Option<bytes>): MetricError
    requires |items| == 6 && j <= 5
  {
    if !FieldTyped(Arr(items), j) then InvalidEncoding
    else if j <= 1 && !IdentifierItem(items[j]) then InvalidIdentifier
    else if j == 0 && previous == Some(items[0].content) then DuplicatePrediction
    else if j == 0 then NonCanonicalOrder
    else if j == 2 then InvalidProbability
    else InvalidOutcome
  }

  lemma RecordFirstFailure(items: seq<Value>, index: nat, previous: Option<bytes>, j: nat)
    requires |items| == 6 && j <= 5
    ensures InterpretRecord(items, index, previous) == Err(Failure(RecordError(items, j, previous), FieldAt(index, j)))
       <==> (forall i | 0 <= i < j :: RecordFieldOk(items, i, previous)) && !RecordFieldOk(items, j, previous)
  {
    hide ValidIdentifier, Less;
    RecordFieldsAre(items, previous, j);
    if previous.Some? && items[0].Text? {
      LessIsTotal(previous.value, items[0].content);
    }
  }

  lemma RecordFieldsAre(items: seq<Value>, previous: Option<bytes>, j: nat)
    requires |items| == 6 && j <= 5
    ensures (forall i | 0 <= i < j :: RecordFieldOk(items, i, previous))
       <==> && (j > 0 ==> RecordFieldOk(items, 0, previous)) && (j > 1 ==> RecordFieldOk(items, 1, previous))
            && (j > 2 ==> RecordFieldOk(items, 2, previous)) && (j > 3 ==> RecordFieldOk(items, 3, previous))
            && (j > 4 ==> RecordFieldOk(items, 4, previous))
  {
    hide RecordFieldOk;
  }

  /** The previous identifier record `i` is compared with. */
  function PreviousId(records: seq<Value>, i: nat): Option<bytes>
    requires i <= |records| && forall k | 0 <= k < |records| :: IsRecord(records[k])
  {
    if i == 0 then None
    else
      assert IsRecord(records[i - 1]);
      var id := records[i - 1].items[0];
      if id.Text? then Some(id.content) else None
  }

  predicate RecordOk(records: seq<Value>, i: nat)
    requires i < |records| && forall k | 0 <= k < |records| :: IsRecord(records[k])
  {
    assert IsRecord(records[i]);
    InterpretRecord(records[i].items, i, PreviousId(records, i)).Ok?
  }

  /** Records are read in order: the failure reported is the one of the first bad record, and there
      is none when every record is good. */
  lemma {:induction false} RecordsFirstFailure(records: seq<Value>, from: nat)
    requires from <= |records| && forall k | 0 <= k < |records| :: IsRecord(records[k])
    ensures match InterpretRecords(records[from..], from, PreviousId(records, from))
      case Ok(_) => forall i | from <= i < |records| :: RecordOk(records, i)
      case Err(f) => exists i | from <= i < |records| ::
        && InterpretRecord(records[i].items, i, PreviousId(records, i)) == Err(f)
        && forall k | from <= k < i :: RecordOk(records, k)
    decreases |records| - from
  {
    hide InterpretRecord;
    if from < |records| {
      var rest := records[from..];
      assert rest[0] == records[from] && rest[1..] == records[from + 1..];
      var first := InterpretRecord(records[from].items, from, PreviousId(records, from));
      if first.Ok? {
        RecordIffCanonical(records[from].items, from, PreviousId(records, from), first.value);
        assert PreviousId(records, from + 1) == Some(first.value.predictionId);
        RecordsFirstFailure(records, from + 1);
        var after := InterpretRecords(rest[1..], from + 1, PreviousId(records, from + 1));
        if after.Err? {
          var i :| from + 1 <= i < |records|
            && InterpretRecord(records[i].items, i, PreviousId(records, i)) == Err(after.failure)
            && forall k | from + 1 <= k < i :: RecordOk(records, k);
          assert forall k | from <= k < i :: RecordOk(records, k);
        }
      } else {
        assert InterpretRecord(records[from].items, from, PreviousId(records, from)) == Err(first.failure);
      }
    }
  }

  lemma StructureCoordinates(data: bytes)
    requires ReadStructure(data).Err?
    ensures ReadStructure(data).failure.error == InvalidEncoding && Admitted(ReadStructure(data).failure.at)
  {
    hide ReadHead, ReadItems, ReadRecords;
    var start := ReadHead(data, 0);
    if start.HeadOk? {
      var fields := ReadItems(data, start.next, 7, 0, 2);
      BadPathsAreShallow(data, start.next, 7, 0, 2);
      if fields.ItemsOk? && ReadHead(data, fields.next).HeadOk? {
        var h := ReadHead(data, fields.next);
        if ReadRecords(data, h.next, h.argument, 0).Failed? {
          RecordCoordinates(data, h.next, h.argument, 0);
        }
      }
    }
  }

  lemma {:induction false} RecordCoordinates(data: bytes, pos: nat, count: nat, index: nat)
    requires ReadRecords(data, pos, count, index).Failed?
    ensures var f := ReadRecords(data, pos, count, index).failure;
      f.error == InvalidEncoding && Admitted(f.at)
    decreases count
  {
    hide ReadHead, ReadItems;
    var h := ReadHead(data, pos);
    if h.HeadOk? && h.major == 4 && h.argument == 6 {
      BadPathsAreShallow(data, h.next, 6, 0, 4);
      var items := ReadItems(data, h.next, 6, 0, 4);
      if items.ItemsOk? {
        RecordCoordinates(data, items.next, count - 1, index + 1);
      }
    }
  }

  /** Every failure is at a coordinate the case schema admits. Structure failures are all
      `InvalidEncoding`; once the structure is sound, a failure is never at the root, at a whole
      record or at trailing bytes, and `InvalidEncoding` means a field of the wrong type. */
  lemma DecodeFailures(data: bytes)
    requires Decode(data).Err?
    ensures Admitted(Decode(data).failure.at)
    ensures ReadStructure(data).Err? ==> Decode(data).failure.error == InvalidEncoding
    ensures ReadStructure(data).Ok? ==>
      Shaped(ReadStructure(data).value) && SemanticFailure(ReadStructure(data).value, Decode(data).failure)
  {
    hide ReadStructure, InterpretHeader, InterpretRecords;
    if ReadStructure(data).Err? {
      StructureCoordinates(data);
    } else {
      var s := ReadStructure(data).value;
      StructureIsEncoding(data, s);
      if InterpretHeader(s.fields, |s.records|).Err? {
        HeaderFailures(s);
      } else {
        assert s.records[0..] == s.records;
        RecordFailures(s, 0, None);
      }
    }
  }

  // ----- The two passes as they run -----

  method SkipHeader(reader: Reader) returns (r: Result<()>)
    modifies reader`pos
    ensures match ReadItems(reader.data, old(reader.pos), 7, 0, 2)
      case ItemsOk(_, next) => r == Ok(()) && reader.pos == next
      case ItemsBad(path) => r == Err(Failure(InvalidEncoding, Coordinate(HEADER_FIELDS[path[0]], path[1..])))
  {
    hide ReadItem;
    ghost var fields := ReadItems(reader.data, reader.pos, 7, 0, 2);
    for k := 0 to 7
      invariant SameEnd(fields, ReadItems(reader.data, reader.pos, 7 - k, k, 2))
    {
      var name := Coordinate(HEADER_FIELDS[k], []);
      BelowRoot(name, k, ReadItem(reader.data, reader.pos, 2));
      var field :- reader.SkipItem(name, 2);
    }
    return Ok(());
  }

  method SkipRecord(reader: Reader, index: nat) returns (r: Result<()>)
    modifies reader`pos
    ensures match ReadItems(reader.data, old(reader.pos), 6, 0, 4)
      case ItemsOk(_, next) => r == Ok(()) && reader.pos == next
      case ItemsBad(path) => r == Err(Failure(InvalidEncoding, RecordAt(index).Below(path)))
  {
    hide ReadItem;
    ghost var items := ReadItems(reader.data, reader.pos, 6, 0, 4);
    for j := 0 to 6
      invariant SameEnd(items, ReadItems(reader.data, reader.pos, 6 - j, j, 4))
    {
      BelowTwice(RecordAt(index), j, ReadItem(reader.data, reader.pos, 4));
      var field :- reader.SkipItem(RecordAt(index).Below([j]), 4);
    }
    return Ok(());
  }

  /** One walk over the bytes that keeps nothing but the cursor. */
  method CheckStructure(data: bytes) returns (r: Result<()>)
    ensures match ReadStructure(data)
      case Ok(_) => r == Ok(())
      case Err(failure) => r == Err(failure)
  {
    hide ReadHead, ReadItems;
    var reader := new Reader(data);
    var root :- reader.ReadHeadAt(INPUT);
    if root.0 != 4 || root.1 != 8 { return Err(Failure(InvalidEncoding, INPUT)); }
    var header :- SkipHeader(reader);
    var records :- reader.ReadHeadAt(RECORDS);
    if records.0 != 4 { return Err(Failure(InvalidEncoding, RECORDS)); }
    ghost var all := ReadRecords(data, reader.pos, records.1, 0);
    for index := 0 to records.1
      invariant SameLast(all, ReadRecords(data, reader.pos, records.1 - index, index))
    {
      var record :- reader.ReadHeadAt(RecordAt(index));
      if record.0 != 4 || record.1 != 6 { return Err(Failure(InvalidEncoding, RecordAt(index))); }
      var fields :- SkipRecord(reader, index);
    }
    r := reader.Finish();
  }

  lemma BelowRoot(name: Coordinate, k: nat, item: ItemRead)
    requires name.indices == []
    ensures item.ItemBad? ==> name.Below(item.path) == Coordinate(name.field, ([k] + item.path)[1..])
  {
  }

  /** The two reads fail alike, or both succeed and stop at the same place. */
  ghost predicate SameLast(whole: Read<seq<Value>>, rest: Read<seq<Value>>) {
    match rest
    case Got(_, next) => whole.Got? && whole.next == next
    case Failed(_) => whole == rest
  }

  method Identifier(reader: Reader, where: Coordinate) returns (r: Result<bytes>)
    modifies reader`pos
    ensures Does(ReadIdentifier(reader.data, old(reader.pos), where), r, reader.pos)
  {
    hide ReadText, Utf8;
    var raw :- reader.TextString(where);
    if !Utf8(raw) { return Err(Failure(InvalidIdentifier, where)); }
    if !(1 <= |raw| <= MAX_IDENTIFIER_BYTES) { return Err(Failure(InvalidIdentifier, where)); }
    return Ok(raw);
  }

  method DecodeHeader(reader: Reader) returns (r: Result<(nat, nat)>)
    requires reader.pos == 0
    modifies reader`pos
    ensures Does(PassHeader(reader.data), r, reader.pos)
  {
    hide ReadArray, ReadText, ReadUint;
    var length :- reader.Array(INPUT);
    if length != 8 { return Err(Failure(InvalidEncoding, INPUT)); }
    var magic :- reader.TextString(Coordinate(Magic, []));
    if magic != INPUT_MAGIC { return Err(Failure(UnsupportedVersion, Coordinate(Magic, []))); }
    var version :- reader.Uint(Coordinate(Version, []));
    if version != 1 { return Err(Failure(UnsupportedVersion, Coordinate(Version, []))); }
    var algorithm :- reader.TextString(Coordinate(AlgorithmId, []));
    if algorithm != ALGORITHM_ID { return Err(Failure(UnsupportedAlgorithm, Coordinate(AlgorithmId, []))); }
    var major :- reader.Uint(Coordinate(AlgorithmMajor, []));
    if major != 1 { return Err(Failure(UnsupportedAlgorithm, Coordinate(AlgorithmMajor, []))); }
    var binning :- reader.Uint(Coordinate(Binning, []));
    if binning != 0 { return Err(Failure(InvalidBinning, Coordinate(Binning, []))); }
    var minimum :- reader.Uint(Coordinate(MinimumScoredRecords, []));
    if !(1 <= minimum <= MAX_RECORDS) { return Err(Failure(InvalidMinimum, Coordinate(MinimumScoredRecords, []))); }
    var count :- reader.Uint(Coordinate(RecordCount, []));
    if count > MAX_RECORDS { return Err(Failure(ResourceLimit, Coordinate(RecordCount, []))); }
    var total :- reader.Array(RECORDS);
    if total != count { return Err(Failure(InconsistentLength, RECORDS)); }
    return Ok((minimum, count));
  }

  method DecodeRecord(reader: Reader, index: nat, previous: Option<bytes>) returns (r: Result<Rec>)
    modifies reader`pos
    ensures Does(PassRecord(reader.data, old(reader.pos), index, previous), r, reader.pos)
  {
    hide ReadArray, ReadIdentifier, ReadUint, ReadUintOrNull, ReadBoolean, Less;
    var length :- reader.Array(RecordAt(index));
    if length != 6 { return Err(Failure(InvalidEncoding, RecordAt(index))); }
    var predictionId :- Identifier(reader, FieldAt(index, 0));
    if previous == Some(predictionId) { return Err(Failure(DuplicatePrediction, FieldAt(index, 0))); }
    if previous.Some? && Less(predictionId, previous.value) {
      return Err(Failure(NonCanonicalOrder, FieldAt(index, 0)));
    }
    var entityId :- Identifier(reader, FieldAt(index, 1));
    var probability :- reader.Uint(FieldAt(index, 2));
    if probability > D { return Err(Failure(InvalidProbability, FieldAt(index, 2))); }
    var state :- reader.Uint(FieldAt(index, 3));
    if state > UNAVAILABLE { return Err(Failure(InvalidOutcome, FieldAt(index, 3))); }
    var outcome :- reader.UintOrNull(FieldAt(index, 4));
    if state == OBSERVED && (outcome == None || outcome.value > 1) {
      return Err(Failure(InvalidOutcome, FieldAt(index, 4)));
    }
    if state != OBSERVED && outcome != None { return Err(Failure(InvalidOutcome, FieldAt(index, 4))); }
    var supplied :- reader.Boolean(FieldAt(index, 5));
    if supplied && state != OBSERVED { return Err(Failure(InvalidOutcome, FieldAt(index, 5))); }
    return Ok(Rec(predictionId, entityId, probability, state, outcome, supplied));
  }

  method DecodeFields(data: bytes) returns (r: Result<MetricInput>)
    ensures r == Pass(data)
  {
    hide PassHeader, PassRecord;
    var reader := new Reader(data);
    var header :- DecodeHeader(reader);
    var previous: Option<bytes> := None;
    var records: seq<Rec> := [];
    ghost var all := PassRecords(data, reader.pos, header.1, 0, None);
    assert all.Got? ==> records + all.value == all.value;
    for index := 0 to header.1
      invariant match PassRecords(data, reader.pos, header.1 - index, index, previous)
        case Got(rest, next) => all == Got(records + rest, next)
        case Failed(failure) => all == Failed(failure)
    {
      var record :- DecodeRecord(reader, index, previous);
      previous := Some(record.predictionId);
      ghost var rest := PassRecords(data, reader.pos, header.1 - index - 1, index + 1, previous);
      assert rest.Got? ==> records + ([record] + rest.value) == records + [record] + rest.value;
      records := records + [record];
    }
    assert records + [] == records;
    var end :- reader.Finish();
    return Ok(MetricInput(header.0, records));
  }

  /** The structural pass, then the semantic pass over the same bytes. */
  method DecodeMti1(data: bytes) returns (r: Result<MetricInput>)
    ensures r == Decode(data)
    ensures r.Ok? ==> ValidInput(r.value) && data == Mti1(r.value)
    ensures (exists m :: ValidInput(m) && data == Mti1(m)) ==> r.Ok?
  {
    hide ReadStructure, Pass, Interpret, Mti1, ValidInput;
    forall m ensures Decode(data) == Ok(m) <==> ValidInput(m) && data == Mti1(m) {
      DecodeIffCanonical(data, m);
    }
    var sound :- CheckStructure(data);
    PassRefinesInterpret(data, ReadStructure(data).value);
    r := DecodeFields(data);
  }
}
