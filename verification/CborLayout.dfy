/** The encoder's bytes against RFC 8949: what a head says (section 3), and that of all heads that
    say it the encoder writes the shortest (section 4.2.1). */
module CborLayout {
  import opened Cbor

  // ----- Order of byte strings -----

  /** `a` comes first at place `k`: the strings agree before it, and there `a` ends or is smaller. */
  predicate FirstAt(a: bytes, b: bytes, k: nat) {
    k <= |a| && k < |b| && a[..k] == b[..k] && (k == |a| || a[k] < b[k])
  }

  /** The order is that of the first difference; a prefix comes before what it starts. */
  lemma {:induction false} LessIff(a: bytes, b: bytes)
    ensures Less(a, b) <==> exists k: nat :: FirstAt(a, b, k)
  {
    if k: nat :| FirstAt(a, b, k) {
      FirstIsLess(a, b, k);
    }
    if Less(a, b) {
      var k := LessIsFirst(a, b);
    }
  }

  lemma {:induction false} FirstIsLess(a: bytes, b: bytes, k: nat)
    requires FirstAt(a, b, k)
    ensures Less(a, b)
    decreases k
  {
    if k > 0 {
      assert a[0] == a[..k][0] && b[0] == b[..k][0];
      assert a[1..][..k - 1] == a[..k][1..] && b[1..][..k - 1] == b[..k][1..];
      FirstIsLess(a[1..], b[1..], k - 1);
    }
  }

  lemma {:induction false} LessIsFirst(a: bytes, b: bytes) returns (k: nat)
    requires Less(a, b)
    ensures FirstAt(a, b, k)
  {
    k := 0;
    if a != [] && a[0] == b[0] {
      var j := LessIsFirst(a[1..], b[1..]);
      k := j + 1;
      assert a[..k] == [a[0]] + a[1..][..j] && b[..k] == [b[0]] + b[1..][..j];
    }
  }

  // ----- Heads -----

  /** The number a string of digits to base 256 denotes, its highest digit first. */
  function Number(s: bytes): nat { if s == [] then 0 else s[0] * Pow256(|s| - 1) + Number(s[1..]) }

  lemma {:induction false} NumberSnoc(s: bytes, d: byte)
    ensures Number(s + [d]) == 256 * Number(s) + d
  {
    if s != [] {
      NumberSnoc(s[1..], d);
      assert (s + [d])[1..] == s[1..] + [d];
      assert Pow256(|s|) == 256 * Pow256(|s| - 1);
      assert s[0] * Pow256(|s|) == 256 * (s[0] * Pow256(|s| - 1)) by { Regroup(s[0], Pow256(|s| - 1)); }
    } else {
      assert [] + [d] == [d];
    }
  }

  lemma Regroup(a: nat, p: nat)
    ensures a * (256 * p) == 256 * (a * p)
  {
  }

  lemma {:induction false} NumberIsBigEndian(s: bytes)
    ensures Number(s) == FromBigEndian(s)
  {
    if s != [] {
      var n := |s| - 1;
      NumberIsBigEndian(s[..n]);
      assert s == s[..n] + [s[n]];
      NumberSnoc(s[..n], s[n]);
    }
  }

  /** The three high bits of the first byte are the major type; the five low bits are the argument, or
      tell that it follows in 1, 2, 4 or 8 bytes. */
  predicate Says(h: bytes, major: nat, value: nat) {
    && h != [] && h[0] / 32 == major
    && var info := h[0] % 32;
       || (info < 24 && |h| == 1 && value == info)
       || (info == 24 && |h| == 2 && value == Number(h[1..]))
       || (info == 25 && |h| == 3 && value == Number(h[1..]))
       || (info == 26 && |h| == 5 && value == Number(h[1..]))
       || (info == 27 && |h| == 9 && value == Number(h[1..]))
  }

  ghost predicate Shortest(h: bytes, major: nat, value: nat) {
    Says(h, major, value) && forall other | Says(other, major, value) :: |h| <= |other|
  }

  lemma HeadSays(major: nat, value: nat)
    requires major < 8 && value < ARGUMENT_LIMIT
    ensures Says(Head(major, value), major, value) && |Head(major, value)| == 1 + Width(value)
  {
    hide Number, BigEndian, Pow256;
    var width := Width(value);
    var h := Head(major, value);
    if width > 0 {
      Pow256Values();
      assert h[1..] == BigEndian(value, width);
      FromToBigEndian(value, width);
      NumberIsBigEndian(h[1..]);
    }
  }

  lemma SaidIsHead(h: bytes, major: nat, value: nat)
    requires Says(h, major, value)
    ensures major < 8 && value < ARGUMENT_LIMIT && |h| >= 1 + Width(value)
    ensures |h| == 1 + Width(value) ==> h == Head(major, value)
  {
    hide Number, BigEndian, Pow256;
    assert h == [h[0]] + h[1..];
    if |h| > 1 {
      Pow256Values();
      NumberIsBigEndian(h[1..]);
      ToFromBigEndian(h[1..]);
    } else {
      assert h == [h[0]];
    }
  }

  /** The encoder's head is the one shortest head that says its major type and argument. */
  lemma HeadIff(h: bytes, major: nat, value: nat)
    requires major < 8 && value < ARGUMENT_LIMIT
    ensures h == Head(major, value) <==> Shortest(h, major, value)
  {
    hide Says, Head, Width;
    HeadSays(major, value);
    forall other | Says(other, major, value) ensures |other| >= 1 + Width(value) {
      SaidIsHead(other, major, value);
    }
    if Shortest(h, major, value) {
      SaidIsHead(h, major, value);
    }
  }

  // ----- Items -----

  lemma ItemHead(major: nat, value: nat, h: bytes)
    requires major < 8 && value < ARGUMENT_LIMIT && Shortest(h, major, value)
    ensures h == Head(major, value)
  {
    hide Shortest, Head;
    HeadIff(h, major, value);
  }

  /** An item is a shortest head and its content: 0 for integers, 1 for the negative ones counted down
      from -1, 2 for byte strings, 3 for text, 4 for arrays, 7 for false, true and null. */
  lemma EncodingIs(v: Value, h: bytes)
    requires Encodable(v)
    ensures v.Int? && v.i >= 0 && Shortest(h, 0, v.i) ==> Enc(v) == h
    ensures v.Int? && v.i < 0 && Shortest(h, 1, -1 - v.i) ==> Enc(v) == h
    ensures v.Bytes? && Shortest(h, 2, |v.content|) ==> Enc(v) == h + v.content
    ensures v.Text? && Shortest(h, 3, |v.content|) ==> Enc(v) == h + v.content
    ensures v.Arr? && Shortest(h, 4, |v.items|) ==> Enc(v) == h + EncAll(v.items)
    ensures v == Bool(false) && Shortest(h, 7, 20) ==> Enc(v) == h
    ensures v == Bool(true) && Shortest(h, 7, 21) ==> Enc(v) == h
    ensures v == Null && Shortest(h, 7, 22) ==> Enc(v) == h
  {
    hide Shortest;
    var major, value := Major(v), Argument(v);
    if Shortest(h, major, value) {
      ItemHead(major, value, h);
    }
  }
}
