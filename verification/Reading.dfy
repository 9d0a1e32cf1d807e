/** The strict reader of the metric records: a cursor over the input bytes that reads one
    deterministic-CBOR item at a time and names the coordinate of the first failure. */
module Reading {
  import opened Commons
  import opened Cbor

  datatype MetricError =
    | InvalidEncoding | UnsupportedVersion | UnsupportedAlgorithm | InvalidBinning
    | InconsistentLength | InvalidProbability | InvalidOutcome | InvalidIdentifier
    | DuplicatePrediction | NonCanonicalOrder | InvalidMinimum | ResourceLimit

  datatype Field =
    | Input | Trailing
    | Magic | Version | AlgorithmId | AlgorithmMajor | Binning | MinimumScoredRecords | RecordCount
    | Records | Patterns

  /** A field name followed by zero-based indices, written `records/17/2` in reports. */
  datatype Coordinate = Coordinate(field: Field, indices: seq<nat>) {
    function Below(path: seq<nat>): Coordinate { Coordinate(field, indices + path) }
  }

  /** The coordinates the published case schema admits: a header field takes at most 15 nested
      indices, a pattern 14 and a record field 13. */
  predicate Admitted(c: Coordinate) {
    match c.field
    case Input => c.indices == []
    case Trailing => c.indices == []
    case Patterns => |c.indices| <= 1 + 14
    case Records => |c.indices| <= 2 + 13 && (|c.indices| >= 2 ==> c.indices[1] <= 5)
    case _ => |c.indices| <= 15
  }

  datatype Failure = Failure(error: MetricError, at: Coordinate)

  datatype Result<+T> = Ok(value: T) | Err(failure: Failure) {
    predicate IsFailure() { Err? }
    function PropagateFailure<U>(): Result<U> requires Err? { Err(failure) }
    function Extract(): T requires Ok? { value }
  }

  /** What a read at a position yields: a value and the position after it, or a failure. */
  datatype Read<+T> = Got(value: T, next: nat) | Failed(failure: Failure) {
    predicate IsFailure() { Failed? }
    function PropagateFailure<U>(): Read<U> requires Failed? { Failed(failure) }
    function Extract(): (T, nat) requires Got? { (value, next) }
  }

  function Bad<T>(where: Coordinate): Read<T> { Failed(Failure(InvalidEncoding, where)) }

  // ----- Typed reads -----

  function ReadUint(data: bytes, pos: nat, where: Coordinate): Read<nat> {
    match ReadHead(data, pos)
    case HeadOk(major, argument, next) => if major == 0 then Got(argument, next) else Bad(where)
    case HeadBad => Bad(where)
  }

  function ReadText(data: bytes, pos: nat, where: Coordinate): Read<bytes> {
    match ReadHead(data, pos)
    case HeadOk(major, length, next) =>
      if major == 3 && next + length <= |data| then Got(data[next..next + length], next + length)
      else Bad(where)
    case HeadBad => Bad(where)
  }

  function ReadArray(data: bytes, pos: nat, where: Coordinate): Read<nat> {
    match ReadHead(data, pos)
    case HeadOk(major, length, next) => if major == 4 then Got(length, next) else Bad(where)
    case HeadBad => Bad(where)
  }

  function ReadUintOrNull(data: bytes, pos: nat, where: Coordinate): Read<Option<nat>> {
    match ReadHead(data, pos)
    case HeadOk(major, value, next) =>
      if major == 0 then Got(Some(value), next)
      else if major == 7 && value == 22 then Got(None, next)
      else Bad(where)
    case HeadBad => Bad(where)
  }

  function ReadBoolean(data: bytes, pos: nat, where: Coordinate): Read<bool> {
    match ReadHead(data, pos)
    case HeadOk(major, value, next) =>
      if major == 7 && (value == 20 || value == 21) then Got(value == 21, next) else Bad(where)
    case HeadBad => Bad(where)
  }

  predicate IsUint(v: Value) { v.Int? && v.i >= 0 }

  /** The values a typed read accepts, as a view of the item itself. */
  function AsUint(v: Value, where: Coordinate): Result<nat> {
    if IsUint(v) then Ok(v.i) else Err(Failure(InvalidEncoding, where))
  }

  function AsText(v: Value, where: Coordinate): Result<bytes> {
    if v.Text? then Ok(v.content) else Err(Failure(InvalidEncoding, where))
  }

  function AsUintOrNull(v: Value, where: Coordinate): Result<Option<nat>> {
    if v.Int? && v.i >= 0 then Ok(Some(v.i))
    else if v.Null? then Ok(None)
    else Err(Failure(InvalidEncoding, where))
  }

  function AsBoolean(v: Value, where: Coordinate): Result<bool> {
    if v.Bool? then Ok(v.b) else Err(Failure(InvalidEncoding, where))
  }

  /** A read at `pos` that agrees with a view of the item standing there. */
  predicate Agrees<T(==)>(read: Read<T>, view: Result<T>, next: nat) {
    match view
    case Ok(value) => read == Got(value, next)
    case Err(failure) => read == Failed(failure)
  }

  /** Reading a typed field where an encoded item stands is viewing that item. */
  lemma TypedReadsAgree(data: bytes, pos: nat, v: Value, where: Coordinate)
    requires Encodable(v) && At(data, pos, Enc(v))
    ensures Agrees(ReadUint(data, pos, where), AsUint(v, where), pos + |Enc(v)|)
    ensures Agrees(ReadText(data, pos, where), AsText(v, where), pos + |Enc(v)|)
    ensures Agrees(ReadUintOrNull(data, pos, where), AsUintOrNull(v, where), pos + |Enc(v)|)
    ensures Agrees(ReadBoolean(data, pos, where), AsBoolean(v, where), pos + |Enc(v)|)
  {
    hide ReadHead, Enc, At, Encodable;
    ValueHeadIsRead(data, pos, v);
    AtSlice(data, ReadHead(data, pos).next, Content(v));
  }

  lemma ArrayReadAgrees(data: bytes, pos: nat, items: seq<Value>, where: Coordinate)
    requires Encodable(Arr(items)) && At(data, pos, Enc(Arr(items)))
    ensures ReadArray(data, pos, where) == Got(|items|, pos + |Head(4, |items|)|)
    ensures At(data, pos + |Head(4, |items|)|, EncAll(items))
  {
    AtConcat(data, pos, Head(4, |items|), EncAll(items));
    HeadIsRead(data, pos, 4, |items|);
  }

  /** Where item `k` of a run of encoded items starts. */
  function Offset(items: seq<Value>, k: nat): nat
    requires k <= |items| && AllEncodable(items)
  {
    |EncAll(items[..k])|
  }

  lemma {:induction false} EncAllSplits(items: seq<Value>, k: nat)
    requires k < |items| && AllEncodable(items)
    ensures EncAll(items) == EncAll(items[..k]) + (Enc(items[k]) + EncAll(items[k + 1..]))
    ensures EncAll(items[..k + 1]) == EncAll(items[..k]) + Enc(items[k])
  {
    hide Enc, Encodable;
    if k == 0 {
      assert items[..0] == [] && items[..1] == [items[0]] && items[..1][1..] == [];
    } else {
      var rest := items[1..];
      EncAllSplits(rest, k - 1);
      assert items[..k][1..] == rest[..k - 1];
      assert items[..k + 1][1..] == rest[..k];
      assert items[k + 1..] == rest[k..];
    }
  }

  lemma OffsetEnds(items: seq<Value>)
    requires AllEncodable(items)
    ensures Offset(items, 0) == 0 && Offset(items, |items|) == |EncAll(items)|
  {
    hide Enc, Encodable;
    assert items[..|items|] == items;
  }

  lemma PieceAt(data: bytes, pos: nat, before: bytes, piece: bytes, after: bytes)
    requires At(data, pos, before + (piece + after))
    ensures At(data, pos + |before|, piece)
  {
    hide At;
    AtConcat(data, pos, before, piece + after);
    AtConcat(data, pos + |before|, piece, after);
  }

  lemma ItemAtOffset(data: bytes, pos: nat, items: seq<Value>, k: nat)
    requires k < |items| && AllEncodable(items) && At(data, pos, EncAll(items))
    ensures At(data, pos + Offset(items, k), Enc(items[k]))
    ensures Offset(items, k + 1) == Offset(items, k) + |Enc(items[k])|
    ensures Offset(items, 0) == 0 && Offset(items, |items|) == |EncAll(items)|
  {
    hide EncAll, Enc, At, Encodable;
    OffsetEnds(items);
    EncAllSplits(items, k);
    PieceAt(data, pos, EncAll(items[..k]), Enc(items[k]), EncAll(items[k + 1..]));
  }

  // ----- The cursor -----

  /** A method's outcome and the cursor it leaves are what the read specifies. */
  ghost predicate Does<T(!new)>(read: Read<T>, outcome: Result<T>, pos: nat) {
    match read
    case Got(value, next) => outcome == Ok(value) && pos == next
    case Failed(failure) => outcome == Err(failure)
  }

  class Reader {
    const data: bytes
    var pos: nat

    constructor (data: bytes)
      ensures this.data == data && pos == 0
    {
      this.data, pos := data, 0;
    }

    method Take(count: nat, where: Coordinate) returns (r: Result<bytes>)
      modifies this`pos
      ensures old(pos) + count <= |data| ==> r == Ok(data[old(pos)..old(pos) + count]) && pos == old(pos) + count
      ensures old(pos) + count > |data| ==> r == Err(Failure(InvalidEncoding, where)) && pos == old(pos)
    {
      if pos + count > |data| { return Err(Failure(InvalidEncoding, where)); }
      r := Ok(data[pos..pos + count]);
      pos := pos + count;
    }

    method ReadHeadAt(where: Coordinate) returns (r: Result<(nat, nat)>)
      modifies this`pos
      ensures match ReadHead(data, old(pos))
        case HeadOk(major, argument, next) => r == Ok((major, argument)) && pos == next
        case HeadBad => r == Err(Failure(InvalidEncoding, where))
    {
      var first := Take(1, where);
      if first.Err? { return Err(first.failure); }
      var initial := first.value[0];
      var major, info := initial / 32, initial % 32;
      if major == 7 {
        if info == 20 || info == 21 || info == 22 { return Ok((7, info)); }
        return Err(Failure(InvalidEncoding, where));
      }
      if major == 5 || major == 6 || info > 27 { return Err(Failure(InvalidEncoding, where)); }
      if info < 24 { return Ok((major, info)); }
      var width := InfoWidth(info);
      var rest := Take(width, where);
      if rest.Err? { return Err(rest.failure); }
      var value := FromBigEndian(rest.value);
      if value < LeastPreferred(width) { return Err(Failure(InvalidEncoding, where)); }
      return Ok((major, value));
    }

    method Uint(where: Coordinate) returns (r: Result<nat>)
      modifies this`pos
      ensures Does(ReadUint(data, old(pos), where), r, pos)
    {
      var h :- ReadHeadAt(where);
      if h.0 != 0 { return Err(Failure(InvalidEncoding, where)); }
      return Ok(h.1);
    }

    method TextString(where: Coordinate) returns (r: Result<bytes>)
      modifies this`pos
      ensures Does(ReadText(data, old(pos), where), r, pos)
    {
      var h :- ReadHeadAt(where);
      if h.0 != 3 { return Err(Failure(InvalidEncoding, where)); }
      r := Take(h.1, where);
    }

    method Array(where: Coordinate) returns (r: Result<nat>)
      modifies this`pos
      ensures Does(ReadArray(data, old(pos), where), r, pos)
    {
      var h :- ReadHeadAt(where);
      if h.0 != 4 { return Err(Failure(InvalidEncoding, where)); }
      return Ok(h.1);
    }

    method UintOrNull(where: Coordinate) returns (r: Result<Option<nat>>)
      modifies this`pos
      ensures Does(ReadUintOrNull(data, old(pos), where), r, pos)
    {
      var h :- ReadHeadAt(where);
      if h.0 == 0 { return Ok(Some(h.1)); }
      if h.0 == 7 && h.1 == 22 { return Ok(None); }
      return Err(Failure(InvalidEncoding, where));
    }

    method Boolean(where: Coordinate) returns (r: Result<bool>)
      modifies this`pos
      ensures Does(ReadBoolean(data, old(pos), where), r, pos)
    {
      var h :- ReadHeadAt(where);
      if h.0 == 7 && (h.1 == 20 || h.1 == 21) { return Ok(h.1 == 21); }
      return Err(Failure(InvalidEncoding, where));
    }

    method Finish() returns (r: Result<()>)
      ensures r == if pos == |data| then Ok(()) else Err(Failure(InvalidEncoding, Coordinate(Trailing, [])))
    {
      if pos != |data| { return Err(Failure(InvalidEncoding, Coordinate(Trailing, []))); }
      return Ok(());
    }

    /** Consumes one item at nesting `level` and everything inside it, keeping nothing. */
    method SkipItem(where: Coordinate, level: nat) returns (r: Result<()>)
      modifies this`pos
      ensures match ReadItem(data, old(pos), level)
        case ItemOk(_, next) => r == Ok(()) && pos == next
        case ItemBad(path) => r == Err(Failure(InvalidEncoding, where.Below(path)))
      decreases |data| - pos
    {
      hide ReadHead;
      assert where.Below([]) == where;
      var h :- ReadHeadAt(where);
      if h.0 == 2 || h.0 == 3 {
        var content :- Take(h.1, where);
      } else if h.0 == 4 {
        if level > MAX_NESTING_DEPTH { return Err(Failure(InvalidEncoding, where)); }
        ghost var whole := ReadItems(data, pos, h.1, 0, level + 1);
        for index := 0 to h.1
          invariant old(pos) < pos
          invariant SameEnd(whole, ReadItems(data, pos, h.1 - index, index, level + 1))
        {
          BelowTwice(where, index, ReadItem(data, pos, level + 1));
          var skipped :- SkipItem(where.Below([index]), level + 1);
        }
      }
      return Ok(());
    }
  }

  lemma BelowTwice(where: Coordinate, index: nat, item: ItemRead)
    ensures item.ItemBad? ==> where.Below([index]).Below(item.path) == where.Below([index] + item.path)
  {
    if item.ItemBad? {
      assert where.indices + [index] + item.path == where.indices + ([index] + item.path);
    }
  }

  /** The two reads fail alike, or both succeed and stop at the same place. */
  ghost predicate SameEnd(whole: ItemsRead, rest: ItemsRead) {
    match rest
    case ItemsOk(_, next) => whole.ItemsOk? && whole.next == next
    case ItemsBad(_) => whole == rest
  }
}
