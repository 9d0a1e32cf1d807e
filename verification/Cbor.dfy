/** Deterministic CBOR (section 4.2.1 of RFC 8949) without maps, tags and floats: the encoder
    the fixture generators write with, and the strict reader they check it against. */
module Cbor {
  type byte = n: int | 0 <= n < 256
  type bytes = seq<byte>

  /** The first argument a head cannot hold. */
  const ARGUMENT_LIMIT := 0x1_0000_0000_0000_0000

  /** The deepest level at which an array may open; the root item is level 1. */
  const MAX_NESTING_DEPTH := 16

  // ----- Byte strings -----

  /** Bytewise lexicographic order. */
  predicate Less(a: bytes, b: bytes) {
    if b == [] then false
    else if a == [] then true
    else a[0] < b[0] || (a[0] == b[0] && Less(a[1..], b[1..]))
  }

  lemma {:induction false} LessIsTotal(a: bytes, b: bytes)
    ensures a == b || Less(a, b) || Less(b, a)
    ensures !(Less(a, b) && (a == b || Less(b, a)))
  {
    if a != [] && b != [] && a[0] == b[0] {
      LessIsTotal(a[1..], b[1..]);
      assert a == [a[0]] + a[1..] && b == [b[0]] + b[1..];
    }
  }

  lemma {:induction false} LessTransitive(a: bytes, b: bytes, c: bytes)
    requires Less(a, b) && Less(b, c)
    ensures Less(a, c)
  {
    if a != [] && a[0] == b[0] && b[0] == c[0] {
      LessTransitive(a[1..], b[1..], c[1..]);
    }
  }

  /** A hash of byte strings; no format here depends on which. */
  type Hash = bytes -> bytes

  ghost predicate Digests(hash: Hash) { forall x :: |hash(x)| == 32 }

  // ----- Big-endian integers -----

  function Pow256(width: nat): nat {
    if width == 0 then 1 else 256 * Pow256(width - 1)
  }

  function BigEndian(value: nat, width: nat): (s: bytes)
    ensures |s| == width
  {
    if width == 0 then [] else BigEndian(value / 256, width - 1) + [value % 256]
  }

  function FromBigEndian(s: bytes): nat {
    if s == [] then 0 else 256 * FromBigEndian(s[..|s| - 1]) + s[|s| - 1]
  }

  lemma Pow256Values()
    ensures Pow256(1) == 0x100
    ensures Pow256(2) == 0x1_0000
    ensures Pow256(4) == 0x1_0000_0000
    ensures Pow256(8) == ARGUMENT_LIMIT
  {
    assert Pow256(3) == 0x100_0000;
    assert Pow256(5) == 0x100_0000_0000;
    assert Pow256(6) == 0x1_0000_0000_0000;
    assert Pow256(7) == 0x100_0000_0000_0000;
  }

  lemma {:induction false} FromToBigEndian(value: nat, width: nat)
    requires value < Pow256(width)
    ensures FromBigEndian(BigEndian(value, width)) == value
  {
    if width > 0 {
      var s := BigEndian(value, width);
      assert s[..|s| - 1] == BigEndian(value / 256, width - 1);
      FromToBigEndian(value / 256, width - 1);
    }
  }

  lemma {:induction false} ToFromBigEndian(s: bytes)
    ensures FromBigEndian(s) < Pow256(|s|)
    ensures BigEndian(FromBigEndian(s), |s|) == s
  {
    if s != [] {
      ToFromBigEndian(s[..|s| - 1]);
      assert s == s[..|s| - 1] + [s[|s| - 1]];
    }
  }

  // ----- Heads -----

  /** The width code of the shortest head for `value`; 0 when the argument is in the first byte. */
  function Width(value: nat): nat
    requires value < ARGUMENT_LIMIT
  {
    if value < 24 then 0
    else if value < 0x100 then 1
    else if value < 0x1_0000 then 2
    else if value < 0x1_0000_0000 then 4
    else 8
  }

  /** The `info` bits that announce an argument of `width` bytes. */
  function WidthInfo(width: nat): (info: nat)
    ensures 24 <= info < 28
  {
    if width == 1 then 24 else if width == 2 then 25 else if width == 4 then 26 else 27
  }

  function InfoWidth(info: nat): (width: nat)
    ensures width == 1 || width == 2 || width == 4 || width == 8
  {
    if info == 24 then 1 else if info == 25 then 2 else if info == 26 then 4 else 8
  }

  /** The least argument for which `width` bytes are the preferred width. */
  function LeastPreferred(width: nat): nat {
    if width == 1 then 24 else if width == 2 then 0x100 else if width == 4 then 0x1_0000 else 0x1_0000_0000
  }

  lemma PreferredWidth(value: nat, width: nat)
    requires width == 1 || width == 2 || width == 4 || width == 8
    ensures LeastPreferred(width) <= value < Pow256(width)
       <==> value < ARGUMENT_LIMIT && Width(value) == width
    ensures InfoWidth(WidthInfo(width)) == width
  {
    Pow256Values();
  }

  /** The head the encoder writes: the argument stands in the first byte if it fits there, and
      otherwise in as few bytes after it as hold it. */
  function Head(major: nat, value: nat): (r: bytes)
    requires major < 8 && value < ARGUMENT_LIMIT
    ensures 1 <= |r| <= 9
  {
    var width := Width(value);
    if width == 0 then [32 * major + value]
    else [32 * major + WidthInfo(width)] + BigEndian(value, width)
  }

  datatype HeadRead = HeadOk(major: nat, argument: nat, next: nat) | HeadBad

  /** Reads the head at `pos`. It is good only if it is whole and as short as its argument allows,
      and announces an integer, a string, an array, a boolean or null; the argument of the last two
      is their info. */
  function ReadHead(data: bytes, pos: nat): (r: HeadRead)
    ensures r.HeadOk? ==> pos < r.next <= |data|
    ensures r.HeadOk? ==> r.major <= 4 || r.major == 7
  {
    if pos + 1 > |data| then HeadBad
    else
      var major, info := data[pos] / 32, data[pos] % 32;
      if major == 7 then
        if info == 20 || info == 21 || info == 22 then HeadOk(7, info, pos + 1) else HeadBad
      else if major == 5 || major == 6 || info > 27 then HeadBad
      else if info < 24 then HeadOk(major, info, pos + 1)
      else
        var width := InfoWidth(info);
        if pos + 1 + width > |data| then HeadBad
        else
          var value := FromBigEndian(data[pos + 1..pos + 1 + width]);
          if value < LeastPreferred(width) then HeadBad else HeadOk(major, value, pos + 1 + width)
  }

  /** `piece` stands in `data` at `pos`. */
  predicate At(data: bytes, pos: nat, piece: bytes) {
    pos + |piece| <= |data| && forall k | 0 <= k < |piece| :: data[pos + k] == piece[k]
  }

  lemma AtSlice(data: bytes, pos: nat, piece: bytes)
    ensures At(data, pos, piece) <==> pos + |piece| <= |data| && data[pos..pos + |piece|] == piece
  {
    if pos + |piece| <= |data| && data[pos..pos + |piece|] == piece {
      forall k | 0 <= k < |piece| ensures data[pos + k] == piece[k] {
        assert data[pos..pos + |piece|][k] == piece[k];
      }
    }
  }

  lemma AtConcat(data: bytes, pos: nat, left: bytes, right: bytes)
    ensures At(data, pos, left + right) <==> At(data, pos, left) && At(data, pos + |left|, right)
  {
    var both := left + right;
    if At(data, pos, both) {
      forall k | 0 <= k < |left| ensures data[pos + k] == left[k] { assert both[k] == left[k]; }
      forall k | 0 <= k < |right| ensures data[pos + |left| + k] == right[k] {
        assert both[|left| + k] == right[k];
      }
    }
  }

  lemma HeadIsRead(data: bytes, pos: nat, major: nat, value: nat)
    requires major <= 4 && value < ARGUMENT_LIMIT
    requires At(data, pos, Head(major, value))
    ensures ReadHead(data, pos) == HeadOk(major, value, pos + |Head(major, value)|)
  {
    hide BigEndian, FromBigEndian, Pow256;
    var width := Width(value);
    assert data[pos] == Head(major, value)[0];
    if width != 0 {
      PreferredWidth(value, width);
      FromToBigEndian(value, width);
      AtConcat(data, pos, [32 * major + WidthInfo(width)], BigEndian(value, width));
      AtSlice(data, pos + 1, BigEndian(value, width));
    }
  }

  lemma ReadIsHead(data: bytes, pos: nat)
    requires ReadHead(data, pos).HeadOk? && ReadHead(data, pos).major != 7
    ensures var r := ReadHead(data, pos);
      r.argument < ARGUMENT_LIMIT && At(data, pos, Head(r.major, r.argument))
      && r.next == pos + |Head(r.major, r.argument)|
  {
    hide BigEndian, FromBigEndian, Pow256;
    var r := ReadHead(data, pos);
    var info := data[pos] % 32;
    if info >= 24 {
      var width := InfoWidth(info);
      var tail := data[pos + 1..pos + 1 + width];
      ToFromBigEndian(tail);
      PreferredWidth(r.argument, width);
      AtSlice(data, pos + 1, tail);
      AtConcat(data, pos, [data[pos]], tail);
    }
  }

  // ----- Values -----

  /** A data item; the content of a text string is its raw UTF-8 bytes. */
  datatype Value =
    | Null
    | Bool(b: bool)
    | Int(i: int)
    | Bytes(content: bytes)
    | Text(content: bytes)
    | Arr(items: seq<Value>)

  /** The values the encoder accepts: every argument fits 64 bits. */
  predicate Encodable(v: Value) {
    match v
    case Int(i) => -ARGUMENT_LIMIT <= i < ARGUMENT_LIMIT
    case Bytes(c) => |c| < ARGUMENT_LIMIT
    case Text(c) => |c| < ARGUMENT_LIMIT
    case Arr(items) => |items| < ARGUMENT_LIMIT && forall k | 0 <= k < |items| :: Encodable(items[k])
    case _ => true
  }

  function Enc(v: Value): (r: bytes)
    requires Encodable(v)
    ensures |r| >= 1
    decreases v, 1
  {
    match v
    case Null => [0xf6]
    case Bool(b) => if b then [0xf5] else [0xf4]
    case Int(i) => if i >= 0 then Head(0, i) else Head(1, -1 - i)
    case Bytes(c) => Head(2, |c|) + c
    case Text(c) => Head(3, |c|) + c
    case Arr(items) => Head(4, |items|) + EncAll(items)
  }

  function EncAll(items: seq<Value>): bytes
    requires forall k | 0 <= k < |items| :: Encodable(items[k])
    decreases items, 0
  {
    if items == [] then [] else Enc(items[0]) + EncAll(items[1..])
  }

  /** Every array of `v`, read at nesting `level`, opens within the cap. */
  predicate Fits(v: Value, level: nat) {
    v.Arr? ==> level <= MAX_NESTING_DEPTH && forall k | 0 <= k < |v.items| :: Fits(v.items[k], level + 1)
  }

  // ----- Reading one item -----

  datatype ItemRead = ItemOk(value: Value, next: nat) | ItemBad(path: seq<nat>)

  /** Reads the item at `pos`, nesting `level`. A failure names the item it happened at by the
      array indices that lead to it. */
  function ReadItem(data: bytes, pos: nat, level: nat): (r: ItemRead)
    ensures r.ItemOk? ==> pos < r.next <= |data|
    decreases |data| - pos, 0
  {
    match ReadHead(data, pos)
    case HeadBad => ItemBad([])
    case HeadOk(major, argument, next) =>
      if major == 0 then ItemOk(Int(argument), next)
      else if major == 1 then ItemOk(Int(-1 - argument), next)
      else if major == 2 || major == 3 then
        if next + argument > |data| then ItemBad([])
        else
          var content := data[next..next + argument];
          ItemOk(if major == 2 then Bytes(content) else Text(content), next + argument)
      else if major == 4 then
        if level > MAX_NESTING_DEPTH then ItemBad([])
        else
          match ReadItems(data, next, argument, 0, level + 1)
          case ItemsOk(values, end) => ItemOk(Arr(values), end)
          case ItemsBad(path) => ItemBad(path)
      else ItemOk(if argument == 22 then Null else Bool(argument == 21), next)
  }

  datatype ItemsRead = ItemsOk(values: seq<Value>, next: nat) | ItemsBad(path: seq<nat>)

  /** Reads `count` items in a row; the first is number `index` of its array. */
  function ReadItems(data: bytes, pos: nat, count: nat, index: nat, level: nat): (r: ItemsRead)
    ensures r.ItemsOk? ==> pos <= r.next && (pos <= |data| ==> r.next <= |data|) && |r.values| == count
    ensures r.ItemsBad? ==> r.path != [] && index <= r.path[0] < index + count
    decreases |data| - pos, 1
  {
    if count == 0 then ItemsOk([], pos)
    else
      match ReadItem(data, pos, level)
      case ItemBad(path) => ItemsBad([index] + path)
      case ItemOk(value, next) =>
        match ReadItems(data, next, count - 1, index + 1, level)
        case ItemsBad(path) => ItemsBad(path)
        case ItemsOk(values, end) => ItemsOk([value] + values, end)
  }

  predicate AllEncodable(items: seq<Value>) { forall k | 0 <= k < |items| :: Encodable(items[k]) }
  predicate AllFit(items: seq<Value>, level: nat) { forall k | 0 <= k < |items| :: Fits(items[k], level) }

  lemma ReadScalarSound(data: bytes, pos: nat, level: nat)
    requires ReadHead(data, pos).HeadOk? && ReadHead(data, pos).major != 4
    requires ReadItem(data, pos, level).ItemOk?
    ensures var r := ReadItem(data, pos, level);
      && !r.value.Arr? && Encodable(r.value)
      && At(data, pos, Enc(r.value)) && r.next == pos + |Enc(r.value)|
  {
    hide Head, BigEndian, FromBigEndian;
    var h := ReadHead(data, pos);
    if h.major != 7 {
      ReadIsHead(data, pos);
      if h.major == 2 || h.major == 3 {
        AtSlice(data, h.next, data[h.next..h.next + h.argument]);
        AtConcat(data, pos, Head(h.major, h.argument), data[h.next..h.next + h.argument]);
      }
    }
  }

  /** What is read is an encoding: the reader accepts nothing but the output of the encoder. */
  lemma {:induction false} ReadItemSound(data: bytes, pos: nat, level: nat)
    requires ReadItem(data, pos, level).ItemOk?
    ensures var r := ReadItem(data, pos, level);
      && Encodable(r.value) && Fits(r.value, level)
      && At(data, pos, Enc(r.value)) && r.next == pos + |Enc(r.value)|
    decreases |data| - pos, 0
  {
    hide ReadHead, Head, At;
    var h := ReadHead(data, pos);
    if h.major == 4 {
      ReadIsHead(data, pos);
      ReadItemsSound(data, h.next, h.argument, 0, level + 1);
      var values := ReadItems(data, h.next, h.argument, 0, level + 1).values;
      AtConcat(data, pos, Head(4, |values|), EncAll(values));
    } else {
      ReadScalarSound(data, pos, level);
    }
  }

  lemma {:induction false} ReadItemsSound(data: bytes, pos: nat, count: nat, index: nat, level: nat)
    requires pos <= |data|
    requires ReadItems(data, pos, count, index, level).ItemsOk?
    ensures var r := ReadItems(data, pos, count, index, level);
      && AllEncodable(r.values) && AllFit(r.values, level)
      && At(data, pos, EncAll(r.values)) && r.next == pos + |EncAll(r.values)|
    decreases |data| - pos, 1
  {
    hide ReadHead, Head, Enc, ReadItem, Encodable, Fits;
    if count > 0 {
      ReadItemSound(data, pos, level);
      var item := ReadItem(data, pos, level);
      ReadItemsSound(data, item.next, count - 1, index + 1, level);
      var rest := ReadItems(data, item.next, count - 1, index + 1, level).values;
      var values := ReadItems(data, pos, count, index, level).values;
      assert values[1..] == rest;
      AtConcat(data, pos, Enc(item.value), EncAll(rest));
    }
  }

  lemma ReadScalarComplete(data: bytes, pos: nat, level: nat, v: Value)
    requires !v.Arr? && Encodable(v) && At(data, pos, Enc(v))
    ensures ReadItem(data, pos, level) == ItemOk(v, pos + |Enc(v)|)
  {
    match v
    case Null => assert data[pos] == Enc(v)[0];
    case Bool(_) => assert data[pos] == Enc(v)[0];
    case Int(i) => HeadIsRead(data, pos, if i >= 0 then 0 else 1, if i >= 0 then i else -1 - i);
    case Bytes(c) => ReadStringComplete(data, pos, level, 2, c);
    case Text(c) => ReadStringComplete(data, pos, level, 3, c);
  }

  lemma ReadStringComplete(data: bytes, pos: nat, level: nat, major: nat, c: bytes)
    requires (major == 2 || major == 3) && |c| < ARGUMENT_LIMIT && At(data, pos, Head(major, |c|) + c)
    ensures ReadItem(data, pos, level)
         == ItemOk(if major == 2 then Bytes(c) else Text(c), pos + |Head(major, |c|) + c|)
  {
    AtConcat(data, pos, Head(major, |c|), c);
    HeadIsRead(data, pos, major, |c|);
    AtSlice(data, pos + |Head(major, |c|)|, c);
  }

  /** Every encoding within the nesting cap is read back, whatever follows it. */
  lemma {:induction false} ReadItemComplete(data: bytes, pos: nat, level: nat, v: Value)
    requires Encodable(v) && Fits(v, level) && At(data, pos, Enc(v))
    ensures ReadItem(data, pos, level) == ItemOk(v, pos + |Enc(v)|)
    decreases v, 1
  {
    hide ReadHead, Head, At;
    if v.Arr? {
      AtConcat(data, pos, Head(4, |v.items|), EncAll(v.items));
      HeadIsRead(data, pos, 4, |v.items|);
      ReadItemsComplete(data, pos + |Head(4, |v.items|)|, 0, level + 1, v.items);
    } else {
      ReadScalarComplete(data, pos, level, v);
    }
  }

  lemma {:induction false} ReadItemsComplete(data: bytes, pos: nat, index: nat, level: nat, items: seq<Value>)
    requires AllEncodable(items) && AllFit(items, level) && At(data, pos, EncAll(items))
    ensures ReadItems(data, pos, |items|, index, level) == ItemsOk(items, pos + |EncAll(items)|)
    decreases items, 0
  {
    hide ReadHead, Head, At, Enc, ReadItem, Encodable, Fits;
    if items != [] {
      AtConcat(data, pos, Enc(items[0]), EncAll(items[1..]));
      ReadItemComplete(data, pos, level, items[0]);
      ReadItemsComplete(data, pos + |Enc(items[0])|, index + 1, level, items[1..]);
      assert items == [items[0]] + items[1..];
    }
  }

  /** The reader consumes a span exactly when the span is the encoding of some value whose arrays
      stay within the cap. */
  lemma SpanIsReadIffEncoding(data: bytes, pos: nat, end: nat, level: nat)
    ensures (ReadItem(data, pos, level).ItemOk? && ReadItem(data, pos, level).next == end)
       <==> exists v :: Encodable(v) && Fits(v, level) && pos + |Enc(v)| == end && At(data, pos, Enc(v))
  {
    if ReadItem(data, pos, level).ItemOk? {
      ReadItemSound(data, pos, level);
    }
    if v :| Encodable(v) && Fits(v, level) && pos + |Enc(v)| == end && At(data, pos, Enc(v)) {
      ReadItemComplete(data, pos, level, v);
    }
  }

  /** The head a value starts with: its major type and argument. */
  function Major(v: Value): nat {
    match v
    case Int(i) => if i >= 0 then 0 else 1
    case Bytes(_) => 2
    case Text(_) => 3
    case Arr(_) => 4
    case _ => 7
  }

  function Argument(v: Value): nat {
    match v
    case Null => 22
    case Bool(b) => if b then 21 else 20
    case Int(i) => if i >= 0 then i else -1 - i
    case Bytes(c) => |c|
    case Text(c) => |c|
    case Arr(items) => |items|
  }

  /** The bytes a head is followed by inside its own item, unless the item is an array. */
  function Content(v: Value): bytes {
    if v.Bytes? || v.Text? then v.content else []
  }

  lemma ValueHeadIsRead(data: bytes, pos: nat, v: Value)
    requires Encodable(v) && At(data, pos, Enc(v))
    ensures var r := ReadHead(data, pos);
      && r.HeadOk? && r.major == Major(v) && r.argument == Argument(v)
      && (!v.Arr? ==> At(data, r.next, Content(v)) && r.next + |Content(v)| == pos + |Enc(v)|)
  {
    hide ReadHead, Head, At;
    if v.Null? || v.Bool? {
      SimpleHeadIsRead(data, pos, v);
    } else {
      var h := Head(Major(v), Argument(v));
      var rest := if v.Arr? then EncAll(v.items) else Content(v);
      assert Enc(v) == h + rest;
      AtConcat(data, pos, h, rest);
      HeadIsRead(data, pos, Major(v), Argument(v));
    }
  }

  lemma SimpleHeadIsRead(data: bytes, pos: nat, v: Value)
    requires (v.Null? || v.Bool?) && At(data, pos, Enc(v))
    ensures ReadHead(data, pos) == HeadOk(7, Argument(v), pos + 1) && At(data, pos + 1, [])
  {
    assert data[pos] == Enc(v)[0];
  }

  lemma SameSplit(a: bytes, b: bytes, x: bytes, y: bytes)
    requires |a| == |b| && a + x == b + y
    ensures a == b && x == y
  {
    assert a == (a + x)[..|a|] && b == (b + y)[..|b|];
    assert x == (a + x)[|a|..] && y == (b + y)[|b|..];
  }

  /** The head at the front of an encoding tells the type and the argument. */
  lemma SameHeads(v: Value, w: Value, x: bytes, y: bytes)
    requires Encodable(v) && Encodable(w) && Enc(v) + x == Enc(w) + y
    ensures Major(v) == Major(w) && Argument(v) == Argument(w)
  {
    hide Enc, ReadHead;
    var data := Enc(v) + x;
    AtSlice(data, 0, data);
    AtConcat(data, 0, Enc(v), x);
    AtConcat(data, 0, Enc(w), y);
    ValueHeadIsRead(data, 0, v);
    ValueHeadIsRead(data, 0, w);
  }

  /** Encodings are self-delimiting: no encoding is a prefix of another value's encoding. */
  lemma {:induction false} EncodingsAreSelfDelimiting(v: Value, w: Value, x: bytes, y: bytes)
    requires Encodable(v) && Encodable(w) && Enc(v) + x == Enc(w) + y
    ensures v == w && x == y
    decreases v, 1
  {
    SameHeads(v, w, x, y);
    if v.Arr? {
      hide Head;
      var n := |v.items|;
      assert Enc(v) + x == Head(4, n) + (EncAll(v.items) + x);
      assert Enc(w) + y == Head(4, n) + (EncAll(w.items) + y);
      SameSplit(Head(4, n), Head(4, n), EncAll(v.items) + x, EncAll(w.items) + y);
      ItemsAreSelfDelimiting(v.items, w.items, x, y);
    } else {
      SameSplit(Enc(v), Enc(w), x, y);
      ScalarInjective(v, w);
    }
  }

  lemma ScalarInjective(v: Value, w: Value)
    requires Encodable(v) && Encodable(w) && !v.Arr? && Enc(v) == Enc(w)
    requires Major(v) == Major(w) && Argument(v) == Argument(w)
    ensures v == w
  {
    hide Head;
    if v.Bytes? || v.Text? {
      var head := Head(Major(v), Argument(v));
      SameSplit(head, head, v.content, w.content);
    }
  }

  lemma {:induction false} ItemsAreSelfDelimiting(vs: seq<Value>, ws: seq<Value>, x: bytes, y: bytes)
    requires AllEncodable(vs) && AllEncodable(ws) && |vs| == |ws| && EncAll(vs) + x == EncAll(ws) + y
    ensures vs == ws && x == y
    decreases vs, 0
  {
    hide Enc, Encodable;
    if vs == [] {
      assert EncAll(vs) + x == x && EncAll(ws) + y == y;
    } else {
      var a, b := EncAll(vs[1..]) + x, EncAll(ws[1..]) + y;
      assert EncAll(vs) + x == Enc(vs[0]) + a && EncAll(ws) + y == Enc(ws[0]) + b;
      EncodingsAreSelfDelimiting(vs[0], ws[0], a, b);
      ItemsAreSelfDelimiting(vs[1..], ws[1..], x, y);
      assert vs == [vs[0]] + vs[1..] && ws == [ws[0]] + ws[1..];
    }
  }

  /** A failure path never leads below the cap: the level of the item it names is at most 17. */
  lemma {:induction false} BadPathIsShallow(data: bytes, pos: nat, level: nat)
    requires level <= MAX_NESTING_DEPTH + 1
    ensures var r := ReadItem(data, pos, level);
      r.ItemBad? ==> level + |r.path| <= MAX_NESTING_DEPTH + 1
    decreases |data| - pos, 0
  {
    var h := ReadHead(data, pos);
    if h.HeadOk? && h.major == 4 && level <= MAX_NESTING_DEPTH {
      BadPathsAreShallow(data, h.next, h.argument, 0, level + 1);
    }
  }

  lemma {:induction false} BadPathsAreShallow(data: bytes, pos: nat, count: nat, index: nat, level: nat)
    requires level <= MAX_NESTING_DEPTH + 1
    ensures var r := ReadItems(data, pos, count, index, level);
      r.ItemsBad? ==> level + |r.path| <= MAX_NESTING_DEPTH + 2
    decreases |data| - pos, 1
  {
    if count > 0 {
      BadPathIsShallow(data, pos, level);
      var item := ReadItem(data, pos, level);
      if item.ItemOk? {
        BadPathsAreShallow(data, item.next, count - 1, index + 1, level);
      }
    }
  }
}
