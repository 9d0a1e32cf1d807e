/** Probability quantization: from a binary64 bit pattern to micro-units, by integer arithmetic. */
module Quantization {
  import opened Commons
  import opened Cbor
  import opened Rounding

  const SIGN_BIT := 0x8000_0000_0000_0000
  const FRACTION := 0x10_0000_0000_0000 // 2^52
  const ONE_BITS := 0x3FF0_0000_0000_0000

  function Pow2(n: nat): (p: nat)
    ensures p > 0
  {
    if n == 0 then 1 else 2 * Pow2(n - 1)
  }

  function Exponent(bits: nat): nat { bits / FRACTION % 0x800 }
  function Trailing(bits: nat): nat { bits % FRACTION }

  /** `mantissa * 2^shift`, by shifting or by dividing. */
  function Dyadic(mantissa: nat, shift: int): real {
    if shift >= 0 then (mantissa * Pow2(shift)) as real else mantissa as real / Pow2(-shift) as real
  }

  /** `None` is an invalid probability. */
  function Quantize(bits: nat): Option<int>
    requires bits < ARGUMENT_LIMIT
  {
    var negative := bits / SIGN_BIT;
    var exponent, fraction := Exponent(bits), Trailing(bits);
    if exponent == 0x7FF then None
    else
      var mantissa := if exponent == 0 then fraction else fraction + FRACTION;
      var shift := (if exponent == 0 then 1 else exponent) - 1075;
      if mantissa == 0 then Some(0)
      else if negative == 1 then None
      else
        var value := Dyadic(mantissa, shift);
        if value > 1.0 then None else Some(RoundHalfEven(value * MICROS))
  }

  // ----- The value a pattern denotes (section 3.4 of IEEE 754-2019) -----

  /** Two to an integer power. */
  function Scale(k: int): (x: real)
    ensures x > 0.0
    decreases if k < 0 then -k else k
  {
    if k == 0 then 1.0 else if k > 0 then 2.0 * Scale(k - 1) else Scale(k + 1) / 2.0
  }

  /** The number a finite pattern without sign denotes: `2^(E-1023) * (1 + T * 2^-52)`, or
      `2^-1022 * (T * 2^-52)` when the biased exponent is 0. */
  function Binary64(bits: nat): real {
    var e, t := Exponent(bits), Trailing(bits) as real / FRACTION as real;
    if e == 0 then Scale(-1022) * t else Scale(e - 1023) * (1.0 + t)
  }

  lemma {:induction false} ScaleDouble(k: int)
    ensures Scale(k + 1) == 2.0 * Scale(k)
    decreases if k < 0 then -k else k
  {
    if k < -1 {
      ScaleDouble(k + 1);
    }
  }

  lemma {:induction false} ScaleMonotone(a: int, b: int)
    requires a <= b
    ensures Scale(a) <= Scale(b)
    decreases b - a
  {
    if a < b {
      ScaleMonotone(a, b - 1);
      ScaleDouble(b - 1);
    }
  }

  lemma {:induction false} ScaleIsPow2(n: nat)
    ensures Scale(n) == Pow2(n) as real
    ensures Scale(0 - n) * Pow2(n) as real == 1.0
  {
    if n > 0 {
      ScaleIsPow2(n - 1);
      ScaleDouble(0 - n);
    }
  }

  lemma {:induction false} ScaleShift(k: int, n: nat)
    ensures Scale(k + n) == Scale(k) * Pow2(n) as real
  {
    hide Scale;
    if n > 0 {
      ScaleShift(k, n - 1);
      ScaleDouble(k + n - 1);
      var x, p := Scale(k), Pow2(n - 1) as real;
      assert 2.0 * (x * p) == x * (2.0 * p);
    }
  }

  lemma FractionIsPow2()
    ensures Pow2(52) == FRACTION
  {
    assert Pow2(10) == 0x400;
    assert Pow2(20) == 0x10_0000;
    assert Pow2(30) == 0x4000_0000;
    assert Pow2(40) == 0x100_0000_0000;
    assert Pow2(50) == 0x4_0000_0000_0000;
  }

  function Product(a: real, b: real): real { a * b }

  lemma DyadicIsScaled(mantissa: nat, shift: int)
    ensures Dyadic(mantissa, shift) == Product(mantissa as real, Scale(shift))
  {
    hide Scale, Pow2;
    if shift >= 0 {
      ScaleIsPow2(shift);
    } else {
      ScaleIsPow2(-shift);
      var m, p, x := mantissa as real, Pow2(-shift) as real, Scale(shift);
      assert (m * x) * p == m * (x * p);
    }
  }

  function Mantissa(bits: nat): nat {
    if Exponent(bits) == 0 then Trailing(bits) else Trailing(bits) + FRACTION
  }

  function Shift(bits: nat): int { (if Exponent(bits) == 0 then 1 else Exponent(bits)) - 1075 }

  lemma ValueIsBinary64(bits: nat)
    ensures Product(Mantissa(bits) as real, Scale(Shift(bits))) == Binary64(bits)
  {
    hide Scale, Pow2, Exponent, Trailing;
    FractionIsPow2();
    var s := Scale(Shift(bits));
    ScaleShift(Shift(bits), 52);
    var t := Trailing(bits) as real;
    var f := FRACTION as real;
    assert Scale(Shift(bits) + 52) == s * f;
    assert (s * f) * (t / f) == s * t;
    assert (s * f) * (1.0 + t / f) == s * f + s * t;
  }

  lemma SplitBits(bits: nat)
    requires bits < SIGN_BIT
    ensures bits == Exponent(bits) * FRACTION + Trailing(bits)
    ensures Trailing(bits) < FRACTION && Exponent(bits) < 0x800
    ensures bits <= ONE_BITS <==> Exponent(bits) < 1023 || (Exponent(bits) == 1023 && Trailing(bits) == 0)
  {
    var q := bits / FRACTION;
    assert q < 0x800;
    assert q % 0x800 == q;
  }

  lemma ScaleAt52()
    ensures Scale(-52) * FRACTION as real == 1.0
    ensures Scale(-53) * (2 * FRACTION) as real == 1.0
  {
    hide Scale, Pow2;
    FractionIsPow2();
    ScaleIsPow2(52);
    ScaleDouble(-53);
  }

  lemma ProductMonotone(a: real, b: real, x: real, y: real)
    requires 0.0 <= a <= b && 0.0 <= x <= y
    ensures 0.0 <= Product(a, x) <= Product(b, y)
  {
    assert a * x <= b * x;
    assert b * x <= b * y;
  }

  lemma ProductHalves(f: real, x: real)
    ensures Product(2.0 * f, x) == Product(f, 2.0 * x)
    ensures Product(f + 1.0, x) == Product(f, x) + x
    ensures Product(f, 2.0 * x) == 2.0 * Product(f, x)
    ensures Product(f, x) == f * x
  {
  }

  /** Patterns below the sign bit denote larger numbers as they grow, across subnormals and
      exponent boundaries. */
  lemma Binary64Monotone(a: nat, b: nat)
    requires a <= b < SIGN_BIT
    ensures Binary64(a) <= Binary64(b)
  {
    hide Binary64, Exponent, Trailing, Scale, Product;
    SplitBits(a);
    SplitBits(b);
    ValueIsBinary64(a);
    ValueIsBinary64(b);
    var m, n := Mantissa(a) as real, Mantissa(b) as real;
    var x, y := Scale(Shift(a)), Scale(Shift(b));
    ExponentsGrow(a, b);
    if Shift(a) == Shift(b) {
      ProductMonotone(m, n, x, y);
    } else {
      var f := FRACTION as real;
      ScaleDouble(Shift(a));
      ScaleMonotone(Shift(a) + 1, Shift(b));
      ProductMonotone(m, 2.0 * f, x, x);
      ProductHalves(f, x);
      ProductMonotone(f, n, 2.0 * x, y);
    }
  }

  lemma ExponentsGrow(a: nat, b: nat)
    requires a <= b < SIGN_BIT
    ensures Shift(a) <= Shift(b) && Mantissa(a) < 2 * FRACTION
    ensures Shift(a) == Shift(b) ==> Mantissa(a) <= Mantissa(b)
    ensures Shift(a) < Shift(b) ==> Mantissa(b) >= FRACTION
  {
    hide Exponent, Trailing;
    SplitBits(a);
    SplitBits(b);
  }

  lemma Binary64AtMostOne(bits: nat)
    requires bits < SIGN_BIT
    ensures Binary64(bits) <= 1.0 <==> bits <= ONE_BITS
  {
    hide Binary64, Exponent, Trailing, Scale, Product;
    OneIsOne();
    if bits <= ONE_BITS {
      Binary64Monotone(bits, ONE_BITS);
    } else {
      SplitBits(bits);
      ValueIsBinary64(bits);
      ScaleAt52();
      var m, f, x := Mantissa(bits) as real, FRACTION as real, Scale(-52);
      ProductHalves(f, x);
      if Exponent(bits) == 1023 {
        ProductMonotone(f + 1.0, m, x, x);
      } else {
        ScaleMonotone(-51, Shift(bits));
        ScaleDouble(-52);
        ProductMonotone(f, m, 2.0 * x, Scale(Shift(bits)));
      }
    }
  }

  lemma OneIsOne()
    ensures Binary64(ONE_BITS) == 1.0
  {
    assert Exponent(ONE_BITS) == 1023 && Trailing(ONE_BITS) == 0;
    assert Scale(0) == 1.0;
  }

  // ----- What the quantizer promises -----

  lemma QuantizeIs(bits: nat)
    requires bits < SIGN_BIT && Exponent(bits) != 0x7FF
    ensures Quantize(bits)
         == if Mantissa(bits) == 0 then Some(0)
            else if Binary64(bits) > 1.0 then None
            else Some(RoundHalfEven(Binary64(bits) * MICROS))
  {
    hide Binary64, Dyadic, Scale, RoundHalfEven, Exponent, Trailing, Product;
    assert bits / SIGN_BIT == 0;
    ValueIsBinary64(bits);
    DyadicIsScaled(Mantissa(bits), Shift(bits));
  }

  /** Accepted are exactly the patterns from 0.0 to 1.0 and negative zero. */
  lemma AcceptedPatterns(bits: nat)
    requires bits < ARGUMENT_LIMIT
    ensures Quantize(bits).Some? <==> bits <= ONE_BITS || bits == SIGN_BIT
  {
    if bits < SIGN_BIT {
      hide Binary64, RoundHalfEven, Exponent, Trailing, Dyadic;
      SplitBits(bits);
      Binary64AtMostOne(bits);
      if Exponent(bits) != 0x7FF {
        QuantizeIs(bits);
      }
    } else {
      SignedBits(bits);
    }
  }

  lemma SignedBits(bits: nat)
    requires SIGN_BIT <= bits < ARGUMENT_LIMIT
    ensures bits / SIGN_BIT == 1
    ensures Exponent(bits) == 0 && Trailing(bits) == 0 <==> bits == SIGN_BIT
  {
    var rest := bits - SIGN_BIT;
    SplitBits(rest);
    assert bits / FRACTION == rest / FRACTION + 0x800;
    assert (rest / FRACTION + 0x800) % 0x800 == rest / FRACTION % 0x800;
    assert bits % FRACTION == rest % FRACTION;
  }

  /** The result is the nearest micro-unit to the denoted number, even on a tie. */
  lemma QuantizesToNearest(bits: nat)
    requires bits <= ONE_BITS
    ensures Quantize(bits).Some? && NearestEven(Binary64(bits) * MICROS, Quantize(bits).value)
    ensures 0 <= Quantize(bits).value <= 1_000_000
  {
    hide Quantize, Scale, RoundHalfEven, NearestEven, Exponent, Trailing, Binary64, Product;
    SplitBits(bits);
    QuantizeIs(bits);
    Binary64AtMostOne(bits);
    var x := Binary64(bits) * MICROS;
    ValueIsBinary64(bits);
    ProductHalves(0.0, Scale(Shift(bits)));
    assert Mantissa(bits) == 0 ==> x == 0.0;
    RoundsToNearestEven(0.0, 0);
    RoundsToNearestEven(x, RoundHalfEven(x));
    assert x >= 0.0 by { ProductMonotone(0.0, Mantissa(bits) as real, Scale(Shift(bits)), Scale(Shift(bits))); }
    RoundStaysInRange(x, 0, 1_000_000);
    ZeroIsNearest();
  }

  lemma ZeroIsNearest()
    ensures NearestEven(0.0, 0)
  {
  }

  /** Quantization is monotone in the bit pattern. */
  lemma QuantizeMonotone(a: nat, b: nat)
    requires a <= b <= ONE_BITS
    ensures Quantize(a).Some? && Quantize(b).Some? && Quantize(a).value <= Quantize(b).value
  {
    hide Quantize, Binary64, RoundHalfEven, NearestEven;
    QuantizesToNearest(a);
    QuantizesToNearest(b);
    Binary64Monotone(a, b);
    var x, y := Binary64(a) * MICROS, Binary64(b) * MICROS;
    RoundsToNearestEven(x, Quantize(a).value);
    RoundsToNearestEven(y, Quantize(b).value);
    RoundIsMonotone(x, y);
  }

  /** A pattern by its fields: a whole significand times a power of two, with the leading bit unless
      the exponent field is 0. */
  lemma Binary64OfFields(exponent: nat, fraction: nat)
    requires exponent < 0x7FF && fraction < 0x10_0000_0000_0000
    ensures Binary64(exponent * 0x10_0000_0000_0000 + fraction)
         == if exponent == 0 then Product(fraction as real, Scale(-1074))
            else Product((0x10_0000_0000_0000 + fraction) as real, Scale(exponent - 1075))
  {
    hide Scale, Product, Binary64;
    var bits := exponent * 0x10_0000_0000_0000 + fraction;
    assert bits / FRACTION == exponent && bits % FRACTION == fraction;
    ValueIsBinary64(bits);
  }
}
