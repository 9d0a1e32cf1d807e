/** The lenient decoder the generators test themselves with: a head need not be the shortest, and
    only the end of the whole string is compared with the end of the data. */
module LooseDecoder {
  import opened Commons
  import opened Cbor

  datatype Loose<T> = Decoded(value: T, next: nat) | Raised

  /** Which bytes are text. */
  type Utf8 = bytes -> bool

  /** A slice as far as the data goes. */
  function Clip(data: bytes, pos: nat, length: nat): bytes {
    if pos >= |data| then [] else if pos + length > |data| then data[pos..] else data[pos..pos + length]
  }

  function Width(info: nat): nat
    requires 24 <= info < 32
  {
    if info == 24 then 1 else 2 * Width(info - 1)
  }

  function LooseHead(data: bytes, pos: nat): (r: Loose<(nat, nat)>)
    ensures r.Decoded? ==> pos < |data| && pos < r.next
  {
    if pos >= |data| then Raised
    else
      var major, info := data[pos] / 32, data[pos] % 32;
      if major == 7 || info < 24 then Decoded((major, info), pos + 1)
      else Decoded((major, FromBigEndian(Clip(data, pos + 1, Width(info)))), pos + 1 + Width(info))
  }

  function LooseItem(utf8: Utf8, data: bytes, pos: nat, level: nat): (r: Loose<Value>)
    ensures r.Decoded? ==> pos < |data| && pos < r.next
    decreases |data| - pos, 0
  {
    var head := LooseHead(data, pos);
    if head.Raised? then Raised
    else
      var (major, argument) := head.value;
      if major == 7 then
        if argument == 20 || argument == 21 then Decoded(Bool(argument == 21), head.next)
        else if argument == 22 then Decoded(Null, head.next)
        else Raised
      else if major == 0 then Decoded(Int(argument), head.next)
      else if major == 1 then Decoded(Int(-1 - argument), head.next)
      else if major == 2 then Decoded(Bytes(Clip(data, head.next, argument)), head.next + argument)
      else if major == 3 then
        var content := Clip(data, head.next, argument);
        if utf8(content) then Decoded(Text(content), head.next + argument) else Raised
      else if major == 4 && level <= MAX_NESTING_DEPTH then
        var items := LooseItems(utf8, data, head.next, argument, level + 1);
        if items.Raised? then Raised else Decoded(Arr(items.value), items.next)
      else Raised
  }

  function LooseItems(utf8: Utf8, data: bytes, pos: nat, count: nat, level: nat): (r: Loose<seq<Value>>)
    ensures r.Decoded? ==> pos <= r.next
    decreases |data| - pos, 1
  {
    if count == 0 then Decoded([], pos)
    else
      var item := LooseItem(utf8, data, pos, level);
      if item.Raised? then Raised
      else
        var rest := LooseItems(utf8, data, item.next, count - 1, level);
        if rest.Raised? then Raised else Decoded([item.value] + rest.value, rest.next)
  }

  /** The whole string must be one item. */
  function Decode(utf8: Utf8, data: bytes): Option<Value> {
    var item := LooseItem(utf8, data, 0, 1);
    if item.Decoded? && item.next == |data| then Some(item.value) else None
  }

  predicate TextsAre(utf8: Utf8, v: Value) {
    match v
    case Text(c) => utf8(c)
    case Arr(items) => forall k | 0 <= k < |items| :: TextsAre(utf8, items[k])
    case _ => true
  }

  lemma HeadAgrees(data: bytes, pos: nat)
    requires ReadHead(data, pos).HeadOk?
    ensures var r := ReadHead(data, pos); LooseHead(data, pos) == Decoded((r.major, r.argument), r.next)
    ensures ReadHead(data, pos).major == 7 ==> 20 <= ReadHead(data, pos).argument <= 22
  {
    assert Width(24) == 1 && Width(25) == 2 && Width(26) == 4 && Width(27) == 8;
  }

  lemma ClipInside(data: bytes, pos: nat, length: nat)
    requires pos + length <= |data|
    ensures Clip(data, pos, length) == data[pos..pos + length]
  {
  }

  lemma {:induction false} ItemAgrees(utf8: Utf8, data: bytes, pos: nat, level: nat)
    requires ReadItem(data, pos, level).ItemOk? && TextsAre(utf8, ReadItem(data, pos, level).value)
    ensures var r := ReadItem(data, pos, level); LooseItem(utf8, data, pos, level) == Decoded(r.value, r.next)
    decreases |data| - pos, 0
  {
    hide ReadHead, LooseHead, Clip;
    HeadAgrees(data, pos);
    var head := ReadHead(data, pos);
    assert LooseHead(data, pos) == Decoded((head.major, head.argument), head.next);
    if head.major == 4 {
      ItemsAgree(utf8, data, head.next, head.argument, 0, level + 1);
    } else if head.major == 2 || head.major == 3 {
      ClipInside(data, head.next, head.argument);
    }
  }

  lemma {:induction false} ItemsAgree(utf8: Utf8, data: bytes, pos: nat, count: nat, index: nat, level: nat)
    requires ReadItems(data, pos, count, index, level).ItemsOk?
    requires var r := ReadItems(data, pos, count, index, level);
      forall k | 0 <= k < |r.values| :: TextsAre(utf8, r.values[k])
    ensures var r := ReadItems(data, pos, count, index, level);
      LooseItems(utf8, data, pos, count, level) == Decoded(r.values, r.next)
    decreases |data| - pos, 1
  {
    hide ReadItem, LooseItem;
    if count > 0 {
      var item := ReadItem(data, pos, level);
      var all := ReadItems(data, pos, count, index, level);
      var rest := ReadItems(data, item.next, count - 1, index + 1, level);
      assert all.values == [item.value] + rest.values;
      assert all.values[0] == item.value;
      forall k | 0 <= k < |rest.values| ensures TextsAre(utf8, rest.values[k]) {
        assert rest.values[k] == all.values[k + 1];
      }
      ItemAgrees(utf8, data, pos, level);
      ItemsAgree(utf8, data, item.next, count - 1, index + 1, level);
    }
  }

  /** On what the encoder writes, the lenient decoder is its inverse. */
  lemma DecodeInvertsEnc(utf8: Utf8, v: Value)
    requires Encodable(v) && Fits(v, 1) && TextsAre(utf8, v)
    ensures Decode(utf8, Enc(v)) == Some(v)
  {
    hide Enc, ReadItem, LooseItem, TextsAre, Fits;
    AtWhole(Enc(v));
    ReadItemComplete(Enc(v), 0, 1, v);
    ItemAgrees(utf8, Enc(v), 0, 1);
  }

  lemma AtWhole(data: bytes)
    ensures At(data, 0, data)
  {
  }

  // ----- When lenient acceptance is strict acceptance -----

  /** The guard of the strict reader that the lenient one lacks: a width of at most eight bytes and
      an argument that needs that many. */
  predicate HeadPreferred(data: bytes, pos: nat)
    requires LooseHead(data, pos).Decoded?
  {
    var major, info := data[pos] / 32, data[pos] % 32;
    major == 7 || info < 24
    || (info <= 27 && LooseHead(data, pos).value.1 >= LeastPreferred(InfoWidth(info)))
  }

  /** Every head the walk over the item at `pos` meets is preferred. */
  predicate ItemPreferred(utf8: Utf8, data: bytes, pos: nat, level: nat)
    decreases |data| - pos, 0
  {
    var head := LooseHead(data, pos);
    head.Decoded? ==>
      && HeadPreferred(data, pos)
      && (head.value.0 == 4 ==> ItemsPreferred(utf8, data, head.next, head.value.1, level + 1))
  }

  predicate ItemsPreferred(utf8: Utf8, data: bytes, pos: nat, count: nat, level: nat)
    decreases |data| - pos, 1
  {
    count > 0 ==>
      && ItemPreferred(utf8, data, pos, level)
      && (LooseItem(utf8, data, pos, level).Decoded? ==>
            ItemsPreferred(utf8, data, LooseItem(utf8, data, pos, level).next, count - 1, level))
  }

  lemma PreferredHeadIsStrict(data: bytes, pos: nat)
    requires LooseHead(data, pos).Decoded? && LooseHead(data, pos).next <= |data|
    requires var (major, argument) := LooseHead(data, pos).value;
      major <= 4 || (major == 7 && 20 <= argument <= 22)
    ensures ReadHead(data, pos).HeadOk? <==> HeadPreferred(data, pos)
  {
    assert Width(24) == 1 && Width(25) == 2 && Width(26) == 4 && Width(27) == 8;
    var info := data[pos] % 32;
    if data[pos] / 32 != 7 && 24 <= info <= 27 {
      ClipInside(data, pos + 1, Width(info));
    }
  }

  lemma {:induction false} ItemIsStrictIff(utf8: Utf8, data: bytes, pos: nat, level: nat)
    requires LooseItem(utf8, data, pos, level).Decoded? && LooseItem(utf8, data, pos, level).next <= |data|
    ensures var r := LooseItem(utf8, data, pos, level);
      && (ReadItem(data, pos, level).ItemOk? <==> ItemPreferred(utf8, data, pos, level))
      && (ReadItem(data, pos, level).ItemOk? ==> ReadItem(data, pos, level) == ItemOk(r.value, r.next))
    decreases |data| - pos, 0
  {
    hide ReadHead, LooseHead, Clip, HeadPreferred;
    var head := LooseHead(data, pos);
    var (major, argument) := head.value;
    PreferredHeadIsStrict(data, pos);
    if ReadHead(data, pos).HeadOk? { HeadAgrees(data, pos); }
    if major == 4 {
      ItemsAreStrictIff(utf8, data, head.next, argument, 0, level + 1);
    } else if major == 2 || major == 3 {
      ClipInside(data, head.next, argument);
    }
  }

  lemma {:induction false} ItemsAreStrictIff(
    utf8: Utf8, data: bytes, pos: nat, count: nat, index: nat, level: nat)
    requires LooseItems(utf8, data, pos, count, level).Decoded?
    requires LooseItems(utf8, data, pos, count, level).next <= |data|
    ensures var r := LooseItems(utf8, data, pos, count, level);
      && (ReadItems(data, pos, count, index, level).ItemsOk? <==> ItemsPreferred(utf8, data, pos, count, level))
      && (ReadItems(data, pos, count, index, level).ItemsOk? ==>
            ReadItems(data, pos, count, index, level) == ItemsOk(r.value, r.next))
    decreases |data| - pos, 1
  {
    hide ReadItem, LooseItem, ItemPreferred;
    if count > 0 {
      var item := LooseItem(utf8, data, pos, level);
      ItemIsStrictIff(utf8, data, pos, level);
      ItemsAreStrictIff(utf8, data, item.next, count - 1, index + 1, level);
    }
  }

  /** A string the lenient decoder accepts is accepted by the strict reader, as the same value,
      exactly when every head in it is preferred. */
  lemma DecodedIsStrictIff(utf8: Utf8, data: bytes)
    requires Decode(utf8, data).Some?
    ensures ReadItem(data, 0, 1) == ItemOk(Decode(utf8, data).value, |data|) <==> ItemPreferred(utf8, data, 0, 1)
  {
    hide ReadItem, LooseItem, ItemPreferred;
    ItemIsStrictIff(utf8, data, 0, 1);
  }

  /** An item of the walk may overrun the data: an overlong head decodes, and so does a byte string
      that is cut short, though only the first passes as a whole string. */
  lemma LenientCases(utf8: Utf8)
    ensures Decode(utf8, [0x18, 5]) == Some(Int(5)) && ReadItem([0x18, 5], 0, 1).ItemBad?
    ensures LooseItem(utf8, [0x42, 7], 0, 1) == Decoded(Bytes([7]), 3) && Decode(utf8, [0x42, 7]) == None
  {
    var long: bytes := [0x18, 5];
    assert FromBigEndian(long[1..2]) == 5 && long[1..] == long[1..2];
  }

  // ----- Nothing accepted is cut short -----

  lemma ClipExtends(data: bytes, more: bytes, pos: nat, length: nat)
    requires pos + length <= |data|
    ensures Clip(data + more, pos, length) == Clip(data, pos, length)
  {
    ClipInside(data, pos, length);
    ClipInside(data + more, pos, length);
  }

  lemma HeadExtends(data: bytes, more: bytes, pos: nat)
    requires LooseHead(data, pos).Decoded? && LooseHead(data, pos).next <= |data|
    ensures LooseHead(data + more, pos) == LooseHead(data, pos)
  {
    hide Clip;
    var info := data[pos] % 32;
    if data[pos] / 32 != 7 && info >= 24 {
      ClipExtends(data, more, pos + 1, Width(info));
    }
  }

  lemma {:induction false} ItemExtends(utf8: Utf8, data: bytes, more: bytes, pos: nat, level: nat)
    requires LooseItem(utf8, data, pos, level).Decoded? && LooseItem(utf8, data, pos, level).next <= |data|
    ensures LooseItem(utf8, data + more, pos, level) == LooseItem(utf8, data, pos, level)
    decreases |data| - pos, 0
  {
    hide LooseHead, Clip;
    var head := LooseHead(data, pos);
    var (major, argument) := head.value;
    HeadExtends(data, more, pos);
    if major == 4 {
      ItemsExtend(utf8, data, more, head.next, argument, level + 1);
    } else if major == 2 || major == 3 {
      ClipExtends(data, more, head.next, argument);
    }
  }

  lemma {:induction false} ItemsExtend(utf8: Utf8, data: bytes, more: bytes, pos: nat, count: nat, level: nat)
    requires LooseItems(utf8, data, pos, count, level).Decoded?
    requires LooseItems(utf8, data, pos, count, level).next <= |data|
    ensures LooseItems(utf8, data + more, pos, count, level) == LooseItems(utf8, data, pos, count, level)
    decreases |data| - pos, 1
  {
    hide LooseItem;
    if count > 0 {
      ItemExtends(utf8, data, more, pos, level);
      ItemsExtend(utf8, data, more, LooseItem(utf8, data, pos, level).next, count - 1, level);
    }
  }

  /** Bytes after an accepted string change nothing of what is read: no part of it was cut short, or
      the bytes that follow would complete it. */
  lemma AcceptedIsWhole(utf8: Utf8, data: bytes, more: bytes)
    requires Decode(utf8, data).Some?
    ensures LooseItem(utf8, data + more, 0, 1) == Decoded(Decode(utf8, data).value, |data|)
  {
    hide LooseItem;
    ItemExtends(utf8, data, more, 0, 1);
  }
}
