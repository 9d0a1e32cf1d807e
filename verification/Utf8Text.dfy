/** Well-formed UTF-8 is the encoding of a list of scalar values (section 3 of RFC 3629). */
module Utf8Text {
  import opened Cbor
  import opened MetricInputs

  /** A code point that is no surrogate. */
  predicate IsScalar(n: nat) { n < 0x11_0000 && !(0xD800 <= n < 0xE000) }

  /** Six bits a byte behind a lead byte that tells how many bytes there are. */
  function EncodeScalar(n: nat): (s: bytes)
    requires IsScalar(n)
    ensures 1 <= |s| <= 4
  {
    if n < 0x80 then [n]
    else if n < 0x800 then [0xC0 + n / 0x40, 0x80 + n % 0x40]
    else if n < 0x1_0000 then [0xE0 + n / 0x1000, 0x80 + n / 0x40 % 0x40, 0x80 + n % 0x40]
    else [0xF0 + n / 0x4_0000, 0x80 + n / 0x1000 % 0x40, 0x80 + n / 0x40 % 0x40, 0x80 + n % 0x40]
  }

  predicate AllScalars(ns: seq<nat>) { forall i | 0 <= i < |ns| :: IsScalar(ns[i]) }

  function EncodeAll(ns: seq<nat>): bytes
    requires AllScalars(ns)
  {
    if ns == [] then [] else EncodeScalar(ns[0]) + EncodeAll(ns[1..])
  }

  lemma EncodingIsAStep(n: nat, rest: bytes)
    requires IsScalar(n)
    ensures Utf8Step(EncodeScalar(n) + rest) == |EncodeScalar(n)|
  {
  }

  function TwoBytes(a: byte, b: byte): int { (a - 0xC0) * 0x40 + (b - 0x80) }

  function ThreeBytes(a: byte, b: byte, c: byte): int { (a - 0xE0) * 0x1000 + (b - 0x80) * 0x40 + (c - 0x80) }

  function FourBytes(a: byte, b: byte, c: byte, d: byte): int {
    (a - 0xF0) * 0x4_0000 + (b - 0x80) * 0x1000 + (c - 0x80) * 0x40 + (d - 0x80)
  }

  lemma Sixes(n: int, high: int, low: int)
    requires n == high * 0x40 + low && 0 <= low < 0x40
    ensures n / 0x40 == high && n % 0x40 == low
  {
  }

  lemma TwoBytesEncode(a: byte, b: byte)
    requires 0xC2 <= a <= 0xDF && Continuation(b)
    ensures var n := TwoBytes(a, b); 0 <= n && IsScalar(n) && EncodeScalar(n) == [a, b]
  {
  }

  lemma ThreeBytesEncode(a: byte, b: byte, c: byte)
    requires 0xE0 <= a <= 0xEF && Continuation(b) && Continuation(c)
    requires (a == 0xE0 ==> b >= 0xA0) && (a == 0xED ==> b <= 0x9F)
    ensures var n := ThreeBytes(a, b, c); 0 <= n && IsScalar(n) && EncodeScalar(n) == [a, b, c]
  {
    var n := ThreeBytes(a, b, c);
    var high := (a - 0xE0) * 0x40 + (b - 0x80);
    Sixes(n, high, c - 0x80);
    Sixes(high, a - 0xE0, b - 0x80);
    assert n / 0x1000 == high / 0x40;
  }

  lemma FourBytesEncode(a: byte, b: byte, c: byte, d: byte)
    requires 0xF0 <= a <= 0xF4 && Continuation(b) && Continuation(c) && Continuation(d)
    requires (a == 0xF0 ==> b >= 0x90) && (a == 0xF4 ==> b <= 0x8F)
    ensures var n := FourBytes(a, b, c, d); 0 <= n && IsScalar(n) && EncodeScalar(n) == [a, b, c, d]
  {
    var n := FourBytes(a, b, c, d);
    var high := (a - 0xF0) * 0x40 + (b - 0x80);
    var middle := high * 0x40 + (c - 0x80);
    Sixes(n, middle, d - 0x80);
    Sixes(middle, high, c - 0x80);
    Sixes(high, a - 0xF0, b - 0x80);
    assert n / 0x1000 == middle / 0x40 && n / 0x4_0000 == high / 0x40;
  }

  lemma StepIsAnEncoding(s: bytes) returns (n: nat)
    requires Utf8Step(s) > 0
    ensures IsScalar(n) && EncodeScalar(n) == s[..Utf8Step(s)]
  {
    hide EncodeScalar, IsScalar;
    var step := Utf8Step(s);
    if step == 1 {
      n := s[0];
      OneByteEncodes(s[0]);
      assert s[..1] == [s[0]];
    } else if step == 2 {
      TwoBytesEncode(s[0], s[1]);
      n := TwoBytes(s[0], s[1]);
      assert s[..2] == [s[0], s[1]];
    } else if step == 3 {
      ThreeBytesEncode(s[0], s[1], s[2]);
      n := ThreeBytes(s[0], s[1], s[2]);
      assert s[..3] == [s[0], s[1], s[2]];
    } else {
      FourBytesEncode(s[0], s[1], s[2], s[3]);
      n := FourBytes(s[0], s[1], s[2], s[3]);
      assert s[..4] == [s[0], s[1], s[2], s[3]];
    }
  }

  lemma OneByteEncodes(a: byte)
    requires a <= 0x7F
    ensures IsScalar(a) && EncodeScalar(a) == [a]
  {
  }

  lemma {:induction false} EncodingsAreUtf8(ns: seq<nat>)
    requires AllScalars(ns)
    ensures Utf8(EncodeAll(ns))
  {
    hide Utf8Step, EncodeScalar, IsScalar;
    if ns != [] {
      var rest := EncodeAll(ns[1..]);
      EncodingIsAStep(ns[0], rest);
      EncodingsAreUtf8(ns[1..]);
      assert EncodeAll(ns)[|EncodeScalar(ns[0])|..] == rest;
    }
  }

  lemma {:induction false} Utf8IsEncoded(s: bytes) returns (ns: seq<nat>)
    requires Utf8(s)
    ensures AllScalars(ns) && EncodeAll(ns) == s
    decreases |s|
  {
    hide Utf8Step, EncodeScalar, IsScalar;
    ns := [];
    if s != [] {
      var n := StepIsAnEncoding(s);
      var more := Utf8IsEncoded(s[Utf8Step(s)..]);
      ns := [n] + more;
      assert ns[1..] == more;
    }
  }

  /** A text is accepted exactly when it encodes some list of scalar values. */
  lemma Utf8Iff(s: bytes)
    ensures Utf8(s) <==> exists ns :: AllScalars(ns) && EncodeAll(ns) == s
  {
    hide Utf8, EncodeAll;
    if Utf8(s) {
      var ns := Utf8IsEncoded(s);
    }
    forall ns | AllScalars(ns) && EncodeAll(ns) == s ensures Utf8(s) {
      EncodingsAreUtf8(ns);
    }
  }

  /** The names in the records are written in ASCII, where a character is its own scalar value. */
  lemma {:induction false} AsciiIsUtf8(s: string)
    requires forall i | 0 <= i < |s| :: s[i] as int < 128
    ensures Utf8(Ascii(s)) && forall i | 0 <= i < |s| :: Ascii(s)[i] == s[i] as int
  {
    if s != [] {
      AsciiIsUtf8(s[1..]);
      assert Ascii(s)[1..] == Ascii(s[1..]);
    }
  }
}
