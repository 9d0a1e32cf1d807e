/** ULID text: 128-bit identifiers written as 26 digits of Crockford's base 32. */
module Ulid {
  import opened Commons
  import opened Cbor

  const CROCKFORD: string := "0123456789ABCDEFGHJKMNPQRSTVWXYZ"
  const ULID_LIMIT := ARGUMENT_LIMIT * ARGUMENT_LIMIT

  function Pow32(n: nat): (p: nat)
    ensures p > 0
  {
    if n == 0 then 1 else 32 * Pow32(n - 1)
  }

  /** Base-32 digits, most significant first. */
  function Base32(value: nat, width: nat): (t: string)
    ensures |t| == width
  {
    if width == 0 then [] else Base32(value / 32, width - 1) + [CROCKFORD[value % 32]]
  }

  /** Digit `i` of the text is bits `5 * (25 - i)` and up of the value. */
  function UlidText(value: nat): string {
    seq(26, i requires 0 <= i < 26 => CROCKFORD[value / Pow32(25 - i) % 32])
  }

  /** The digit a character stands for. */
  function Digit(c: char): Option<nat> { Find(c, 0) }

  function Find(c: char, from: nat): (r: Option<nat>)
    requires from <= 32
    ensures r.Some? ==> from <= r.value < 32 && CROCKFORD[r.value] == c
    ensures r.None? ==> forall i | from <= i < 32 :: CROCKFORD[i] != c
    decreases 32 - from
  {
    if from == 32 then None else if CROCKFORD[from] == c then Some(from) else Find(c, from + 1)
  }

  /** The number a text spells; `None` when a character is not a digit. */
  function Spelled(t: string): Option<nat> {
    if t == [] then Some(0)
    else
      var high, low := Spelled(t[..|t| - 1]), Digit(t[|t| - 1]);
      if high.Some? && low.Some? then Some(32 * high.value + low.value) else None
  }

  function UlidValue(t: string): Option<nat> {
    if Spelled(t).Some? && Spelled(t).value < ULID_LIMIT then Spelled(t) else None
  }

  method ParseUlid(t: string) returns (r: Option<nat>)
    ensures r == UlidValue(t)
  {
    hide Digit;
    var value := 0;
    for i := 0 to |t|
      invariant Spelled(t[..i]) == Some(value)
    {
      assert t[..i + 1][..i] == t[..i];
      var digit := Digit(t[i]);
      if digit.None? {
        NotADigit(t, i);
        return None;
      }
      value := 32 * value + digit.value;
    }
    assert t[..|t|] == t;
    return if value < ULID_LIMIT then Some(value) else None;
  }

  lemma {:induction false} NotADigit(t: string, i: nat)
    requires i < |t| && Digit(t[i]).None?
    ensures Spelled(t).None?
    decreases |t|
  {
    if i < |t| - 1 {
      NotADigit(t[..|t| - 1], i);
    }
  }

  /** The alphabet ascends, so its characters are distinct and ordered like the digits. */
  lemma CrockfordAscends(i: nat, j: nat)
    requires i < j < 32
    ensures CROCKFORD[i] < CROCKFORD[j]
  {
  }

  lemma DigitOfCharacter(d: nat)
    requires d < 32
    ensures Digit(CROCKFORD[d]) == Some(d)
  {
    var r := Digit(CROCKFORD[d]);
    assert r.Some?;
    if r.value < d { CrockfordAscends(r.value, d); }
    if d < r.value { CrockfordAscends(d, r.value); }
  }

  lemma {:induction false} SpelledOfBase32(value: nat, width: nat)
    requires value < Pow32(width)
    ensures Spelled(Base32(value, width)) == Some(value)
  {
    hide Digit;
    if width > 0 {
      SpelledOfBase32(value / 32, width - 1);
      DigitOfCharacter(value % 32);
      var t := Base32(value, width);
      assert t[..|t| - 1] == Base32(value / 32, width - 1);
    }
  }

  lemma {:induction false} Base32OfSpelled(t: string)
    requires Spelled(t).Some?
    ensures Base32(Spelled(t).value, |t|) == t && Spelled(t).value < Pow32(|t|)
  {
    hide Digit, CROCKFORD;
    if t != [] {
      var front, last := t[..|t| - 1], t[|t| - 1];
      Base32OfSpelled(front);
      DigitIs(last);
      var high, low := Spelled(front).value, Digit(last).value;
      assert (32 * high + low) / 32 == high && (32 * high + low) % 32 == low;
      assert t == front + [last];
    }
  }

  lemma DigitIs(c: char)
    ensures Digit(c).Some? ==> Digit(c).value < 32 && CROCKFORD[Digit(c).value] == c
  {
  }

  lemma UlidFits()
    ensures ULID_LIMIT < Pow32(26)
  {
    assert Pow32(5) == 0x200_0000;
    assert Pow32(10) == 0x4_0000_0000_0000;
    assert Pow32(15) == 0x8_0000_0000_0000_0000_00;
    assert Pow32(20) == Pow32(15) * 0x200_0000;
    assert Pow32(25) == Pow32(20) * 0x200_0000;
  }

  lemma DivideTwice(v: nat, p: nat)
    requires p > 0
    ensures v / 32 / p == v / (32 * p)
  {
    var q, r := v / 32, v % 32;
    var a, b := q / p, q % p;
    assert v == (32 * p) * a + (32 * b + r) by {
      assert q == p * a + b;
      assert 32 * (p * a) == (32 * p) * a;
    }
    QuotientIs(v, 32 * p, a, 32 * b + r);
  }

  lemma QuotientIs(v: nat, d: nat, a: nat, r: nat)
    requires v == d * a + r && r < d
    ensures v / d == a
  {
    var x := v / d;
    assert d * x <= v < d * x + d;
    assert d * x + d == d * (x + 1) && d * a + d == d * (a + 1);
    CancelFactor(d, x, a + 1);
    CancelFactor(d, a, x + 1);
  }

  lemma CancelFactor(d: nat, p: nat, q: nat)
    requires d * p < d * q
    ensures p < q
  {
    assert d * (q - p) > 0;
  }

  lemma {:induction false} Base32Digit(value: nat, width: nat, i: nat)
    requires i < width
    ensures Base32(value, width)[i] == CROCKFORD[value / Pow32(width - 1 - i) % 32]
  {
    hide CROCKFORD;
    if i < width - 1 {
      Base32Digit(value / 32, width - 1, i);
      DivideTwice(value, Pow32(width - 2 - i));
    }
  }

  lemma UlidTextIsBase32(value: nat)
    ensures UlidText(value) == Base32(value, 26)
  {
    hide CROCKFORD, Base32, Pow32;
    forall i | 0 <= i < 26 ensures UlidText(value)[i] == Base32(value, 26)[i] {
      Base32Digit(value, 26, i);
    }
  }

  /** A value survives its text exactly when it fits 128 bits. */
  lemma TextRoundTrips(value: nat)
    ensures UlidValue(UlidText(value)) == Some(value) <==> value < ULID_LIMIT
  {
    UlidTextIsBase32(value);
    if value < ULID_LIMIT {
      UlidFits();
      SpelledOfBase32(value, 26);
    }
  }

  /** An accepted text is the text of its value exactly when it has 26 characters: shorter and
      longer spellings are accepted, and are never written. */
  lemma ValueRoundTrips(t: string)
    requires UlidValue(t).Some?
    ensures UlidText(UlidValue(t).value) == t <==> |t| == 26
  {
    UlidTextIsBase32(UlidValue(t).value);
    Base32OfSpelled(t);
  }

  /** Such spellings exist: the empty text, one digit, and 27 digits that start with a zero. */
  lemma OtherSpellings()
    ensures UlidValue("") == Some(0) && UlidValue("7") == Some(7)
    ensures UlidValue("0" + UlidText(1)) == Some(1)
  {
    hide UlidText;
    DigitOfCharacter(7);
    assert "7"[..0] == "" && CROCKFORD[7] == '7';
    UlidFits();
    UlidTextIsBase32(1);
    LeadingZero(UlidText(1));
    SpelledOfBase32(1, 26);
  }

  lemma {:induction false} LeadingZero(t: string)
    ensures Spelled("0" + t) == Spelled(t)
  {
    hide Digit;
    if t == [] {
      DigitOfCharacter(0);
      assert "0" + t == "0" && "0"[..0] == "" && CROCKFORD[0] == '0';
    } else {
      var n := |t| - 1;
      LeadingZero(t[..n]);
      assert ("0" + t)[..n + 1] == "0" + t[..n];
    }
  }

  /** The first difference decides. */
  ghost predicate Before(s: string, t: string) {
    exists k: nat :: DiffersAt(s, t, k)
  }

  predicate DiffersAt(s: string, t: string, k: nat) {
    k < |s| && k < |t| && s[..k] == t[..k] && s[k] < t[k]
  }

  lemma BeforeIsAsymmetric(s: string, t: string)
    requires Before(s, t)
    ensures s != t && !Before(t, s)
  {
    var k: nat :| DiffersAt(s, t, k);
    forall j: nat ensures !DiffersAt(t, s, j) {
      assert j < k ==> s[..k][j] == s[j] && t[..k][j] == t[j];
      assert k < j < |s| && j < |t| ==> s[..j][k] == s[k] && t[..j][k] == t[k];
    }
  }

  lemma {:induction false} Base32Ascends(a: nat, b: nat, width: nat)
    requires a < b < Pow32(width)
    ensures Before(Base32(a, width), Base32(b, width))
  {
    hide CROCKFORD;
    var s, t := Base32(a, width), Base32(b, width);
    var s', t' := Base32(a / 32, width - 1), Base32(b / 32, width - 1);
    assert s[..width - 1] == s' && t[..width - 1] == t';
    if a / 32 < b / 32 {
      Base32Ascends(a / 32, b / 32, width - 1);
      var k: nat :| DiffersAt(s', t', k);
      assert s[..k] == s'[..k] && t[..k] == t'[..k];
      assert DiffersAt(s, t, k);
    } else {
      CrockfordAscends(a % 32, b % 32);
      assert DiffersAt(s, t, width - 1);
    }
  }

  /** Texts sort as their values do, over the whole 128-bit range. */
  lemma TextOrder(a: nat, b: nat)
    requires a < ULID_LIMIT && b < ULID_LIMIT
    ensures Before(UlidText(a), UlidText(b)) <==> a < b
  {
    UlidFits();
    UlidTextIsBase32(a);
    UlidTextIsBase32(b);
    if a < b {
      Base32Ascends(a, b, 26);
    } else if b < a {
      Base32Ascends(b, a, 26);
      BeforeIsAsymmetric(UlidText(b), UlidText(a));
    }
    if Before(UlidText(a), UlidText(b)) {
      BeforeIsAsymmetric(UlidText(a), UlidText(b));
    }
  }
}
