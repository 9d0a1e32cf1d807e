/** Map keys in canonical order: the generators sort encoded keys by length and then bytewise, the
    order of section 4.2.1 of RFC 8949 is bytewise alone. */
module CanonicalMaps {
  import opened Cbor
  import opened Sorting
  import opened Sums

  lemma {:induction false} LessAfterPrefix(p: bytes, a: bytes, b: bytes)
    ensures Less(p + a, p + b) <==> Less(a, b)
  {
    if p == [] {
      assert p + a == a && p + b == b;
    } else {
      LessAfterPrefix(p[1..], a, b);
      assert (p + a)[1..] == p[1..] + a && (p + b)[1..] == p[1..] + b;
    }
  }

  lemma {:induction false} LessExtends(a: bytes, b: bytes, x: bytes, y: bytes)
    requires |a| == |b| && Less(a, b)
    ensures Less(a + x, b + y)
  {
    if a[0] == b[0] {
      LessExtends(a[1..], b[1..], x, y);
      assert (a + x)[1..] == a[1..] + x && (b + y)[1..] == b[1..] + y;
    }
  }

  lemma {:induction false} BigEndianAscends(m: nat, n: nat, width: nat)
    requires m < n < Pow256(width)
    ensures Less(BigEndian(m, width), BigEndian(n, width))
  {
    if m / 256 < n / 256 {
      BigEndianAscends(m / 256, n / 256, width - 1);
      LessExtends(BigEndian(m / 256, width - 1), BigEndian(n / 256, width - 1), [m % 256], [n % 256]);
    } else {
      LessAfterPrefix(BigEndian(m / 256, width - 1), [m % 256], [n % 256]);
    }
  }

  lemma HeadsOfWidthAscend(major: nat, m: nat, n: nat, width: nat, x: bytes, y: bytes)
    requires major < 8 && m < n < ARGUMENT_LIMIT && width == Width(m) == Width(n) > 0
    ensures Less(Head(major, m) + x, Head(major, n) + y)
  {
    PreferredWidth(m, width);
    PreferredWidth(n, width);
    BigEndianAscends(m, n, width);
    hide Width, BigEndian, Less, Pow256, LeastPreferred;
    var a, b := BigEndian(m, width), BigEndian(n, width);
    LessExtends(a, b, x, y);
    var first: bytes := [32 * major + WidthInfo(width)];
    LessAfterPrefix(first, a + x, b + y);
    assert Head(major, m) + x == first + (a + x) && Head(major, n) + y == first + (b + y);
  }

  lemma HeadsOfWidthsAscend(major: nat, m: nat, n: nat, x: bytes, y: bytes)
    requires major < 8 && m < n < ARGUMENT_LIMIT && (Width(m) != Width(n) || Width(n) == 0)
    ensures Less(Head(major, m) + x, Head(major, n) + y)
  {
    hide BigEndian;
    var a, b := Head(major, m) + x, Head(major, n) + y;
    assert a[0] == Head(major, m)[0] && b[0] == Head(major, n)[0];
  }

  /** A smaller argument has a bytewise smaller head, whatever follows, and no longer a one. */
  lemma HeadsAscend(major: nat, m: nat, n: nat, x: bytes, y: bytes)
    requires major < 8 && m < n < ARGUMENT_LIMIT
    ensures Less(Head(major, m) + x, Head(major, n) + y)
    ensures |Head(major, m)| <= |Head(major, n)|
  {
    hide Less, BigEndian;
    if Width(m) == Width(n) > 0 {
      HeadsOfWidthAscend(major, m, n, Width(n), x, y);
    } else {
      HeadsOfWidthsAscend(major, m, n, x, y);
    }
  }

  // ----- The two orders -----

  /** The sort key of the generators. */
  predicate LengthFirst(a: bytes, b: bytes) { |a| < |b| || (|a| == |b| && Less(a, b)) }

  lemma FirstByte(v: Value)
    requires Encodable(v)
    ensures Enc(v)[0] / 32 == Major(v)
  {
  }

  lemma LowerMajorIsLess(v: Value, w: Value)
    requires Encodable(v) && Encodable(w) && Major(v) < Major(w)
    ensures Less(Enc(v), Enc(w))
  {
    hide Enc, Major;
    FirstByte(v);
    FirstByte(w);
  }

  /** Among keys of one type the shorter encoding has the smaller argument. */
  lemma ShorterIsLess(v: Value, w: Value)
    requires Encodable(v) && Encodable(w) && !v.Arr? && !w.Arr?
    requires Major(v) == Major(w) && |Enc(v)| < |Enc(w)|
    ensures Less(Enc(v), Enc(w))
  {
    hide Head, Less;
    var major, m, n := Major(v), Argument(v), Argument(w);
    if major != 7 {
      if n < m {
        HeadsAscend(major, n, m, [], []);
      }
      assert m < n;
      HeadsAscend(major, m, n, Content(v), Content(w));
      assert Enc(v) == Head(major, m) + Content(v) && Enc(w) == Head(major, n) + Content(w);
    }
  }

  /** When the orders agree on a pair of keys that are not arrays: exactly if the shorter key is not
      of the higher major type. */
  lemma OrdersAgreeIff(v: Value, w: Value)
    requires Encodable(v) && Encodable(w) && !v.Arr? && !w.Arr?
    ensures (LengthFirst(Enc(v), Enc(w)) <==> Less(Enc(v), Enc(w)))
       <==> && (|Enc(v)| < |Enc(w)| ==> Major(v) <= Major(w))
            && (|Enc(w)| < |Enc(v)| ==> Major(w) <= Major(v))
  {
    hide Enc, Less, Major;
    LessIsTotal(Enc(v), Enc(w));
    if Major(v) < Major(w) {
      LowerMajorIsLess(v, w);
    } else if Major(w) < Major(v) {
      LowerMajorIsLess(w, v);
    } else if |Enc(v)| < |Enc(w)| {
      ShorterIsLess(v, w);
    } else if |Enc(w)| < |Enc(v)| {
      ShorterIsLess(w, v);
    }
  }

  /** For text keys the two orders are one. */
  lemma LengthFirstIsBytewise(a: bytes, b: bytes)
    requires Encodable(Text(a)) && Encodable(Text(b))
    ensures LengthFirst(Enc(Text(a)), Enc(Text(b))) <==> Less(Enc(Text(a)), Enc(Text(b)))
  {
    hide Enc, Less;
    OrdersAgreeIff(Text(a), Text(b));
  }

  /** Keys of different types can part them: 24 comes after -1 by length, before it bytewise. */
  lemma OrdersDifferOnIntegers()
    ensures LengthFirst(Enc(Int(-1)), Enc(Int(24))) && Less(Enc(Int(24)), Enc(Int(-1)))
  {
    assert Enc(Int(24))[0] == 0x18 && Enc(Int(-1))[0] == 0x20;
    assert |Enc(Int(24))| == 2 && |Enc(Int(-1))| == 1;
  }

  // ----- Sorted keys -----

  predicate LengthFirstLeq(a: bytes, b: bytes) { a == b || LengthFirst(a, b) }

  predicate BytewiseLeq(a: bytes, b: bytes) { a == b || Less(a, b) }

  lemma TransitiveOrders(a: bytes, b: bytes, c: bytes)
    ensures BytewiseLeq(a, b) && BytewiseLeq(b, c) ==> BytewiseLeq(a, c)
    ensures LengthFirstLeq(a, b) && LengthFirstLeq(b, c) ==> LengthFirstLeq(a, c)
  {
    hide Less;
    if Less(a, b) && Less(b, c) {
      LessTransitive(a, b, c);
    }
  }

  lemma OrdersAreTotal()
    ensures TotalPreorder(BytewiseLeq) && TotalPreorder(LengthFirstLeq)
  {
    hide Less;
    forall a, b ensures (BytewiseLeq(a, b) || BytewiseLeq(b, a)) && (LengthFirstLeq(a, b) || LengthFirstLeq(b, a)) {
      LessIsTotal(a, b);
    }
    forall a, b, c
      ensures BytewiseLeq(a, b) && BytewiseLeq(b, c) ==> BytewiseLeq(a, c)
      ensures LengthFirstLeq(a, b) && LengthFirstLeq(b, c) ==> LengthFirstLeq(a, c)
    {
      TransitiveOrders(a, b, c);
    }
  }

  /** The encodings of text keys. */
  predicate TextKeys(keys: seq<bytes>) { forall k | 0 <= k < |keys| :: |keys[k]| < ARGUMENT_LIMIT }

  function EncodedKey(key: bytes): bytes {
    if |key| < ARGUMENT_LIMIT then Enc(Text(key)) else []
  }

  lemma {:induction false} SortedAlike(keys: seq<bytes>, encoded: seq<bytes>)
    requires TextKeys(keys) && multiset(encoded) == multiset(Map(keys, EncodedKey))
    ensures Sorted(encoded, LengthFirstLeq) <==> Sorted(encoded, BytewiseLeq)
  {
    hide Enc, Less, Map, LengthFirst;
    forall i, j | 0 <= i < j < |encoded|
      ensures LengthFirstLeq(encoded[i], encoded[j]) <==> BytewiseLeq(encoded[i], encoded[j])
    {
      var m := KeyAt(keys, encoded, i);
      var n := KeyAt(keys, encoded, j);
      LengthFirstIsBytewise(keys[m], keys[n]);
    }
  }

  lemma KeyAt(keys: seq<bytes>, encoded: seq<bytes>, i: nat) returns (k: nat)
    requires TextKeys(keys) && multiset(encoded) == multiset(Map(keys, EncodedKey)) && i < |encoded|
    ensures k < |keys| && encoded[i] == Enc(Text(keys[k]))
  {
    hide Enc, Map;
    assert encoded[i] in multiset(encoded);
    k :| 0 <= k < |keys| && Map(keys, EncodedKey)[k] == encoded[i];
  }

  /** Sorting any list of text keys either way gives one list. */
  lemma SortsAgree(keys: seq<bytes>)
    requires TextKeys(keys)
    ensures Sort(Map(keys, EncodedKey), LengthFirstLeq) == Sort(Map(keys, EncodedKey), BytewiseLeq)
  {
    hide Enc, Less, Map, Sort, LengthFirst, TotalPreorder;
    var encoded := Map(keys, EncodedKey);
    OrdersAreTotal();
    SortSorts(encoded, LengthFirstLeq);
    SortSorts(encoded, BytewiseLeq);
    SortedAlike(keys, Sort(encoded, LengthFirstLeq));
    forall a: bytes, b: bytes ensures BytewiseLeq(a, b) && BytewiseLeq(b, a) ==> a == b { LessIsTotal(a, b); }
    SortedIsUnique(Sort(encoded, LengthFirstLeq), Sort(encoded, BytewiseLeq), BytewiseLeq);
  }

  // ----- Encoded maps -----

  type Pair = (Value, Value)

  predicate Writable(pairs: seq<Pair>) {
    |pairs| < ARGUMENT_LIMIT && forall i | 0 <= i < |pairs| :: Encodable(pairs[i].0) && Encodable(pairs[i].1)
  }

  function Encoded(v: Value): bytes { if Encodable(v) then Enc(v) else [] }

  predicate PairLeq(p: Pair, q: Pair) { LengthFirstLeq(Encoded(p.0), Encoded(q.0)) }

  function Joined(pairs: seq<Pair>): bytes {
    if pairs == [] then [] else Encoded(pairs[0].0) + (Encoded(pairs[0].1) + Joined(pairs[1..]))
  }

  /** A map is written with its pairs sorted by their encoded keys. */
  function EncodedMap(pairs: seq<Pair>): bytes
    requires Writable(pairs)
  {
    Head(5, |pairs|) + Joined(Sort(pairs, PairLeq))
  }

  predicate DistinctKeys(pairs: seq<Pair>) { forall i, j | 0 <= i < j < |pairs| :: pairs[i].0 != pairs[j].0 }

  lemma PairsAreOrdered()
    ensures TotalPreorder(PairLeq)
  {
    hide LengthFirst, Encoded;
    OrdersAreTotal();
  }

  /** What stands in the sorted list stood in the list. */
  lemma SortedPair(pairs: seq<Pair>, i: nat) returns (k: nat)
    requires i < |Sort(pairs, PairLeq)|
    ensures k < |pairs| && pairs[k] == Sort(pairs, PairLeq)[i] && |Sort(pairs, PairLeq)| == |pairs|
  {
    hide Sort, TotalPreorder, PairLeq;
    PairsAreOrdered();
    SortSorts(pairs, PairLeq);
    var sorted := Sort(pairs, PairLeq);
    assert |sorted| == |multiset(sorted)| == |multiset(pairs)| == |pairs|;
    assert sorted[i] in multiset(pairs);
    k :| 0 <= k < |pairs| && pairs[k] == sorted[i];
  }

  lemma SameEncodings(v: Value, w: Value)
    requires Encodable(v) && Encodable(w) && Encoded(v) == Encoded(w)
    ensures v == w
  {
    hide Enc;
    EncodingsAreSelfDelimiting(v, w, [], []);
  }

  lemma SortedKeysAreDistinct(pairs: seq<Pair>)
    requires DistinctKeys(pairs) && Writable(pairs)
    ensures TieFree(Sort(pairs, PairLeq), PairLeq)
  {
    hide Sort, Less, Encoded;
    var sorted := Sort(pairs, PairLeq);
    forall i, j | 0 <= i < |sorted| && 0 <= j < |sorted|
      && PairLeq(sorted[i], sorted[j]) && PairLeq(sorted[j], sorted[i])
      ensures sorted[i] == sorted[j]
    {
      LessIsTotal(Encoded(sorted[i].0), Encoded(sorted[j].0));
      var m := SortedPair(pairs, i);
      var n := SortedPair(pairs, j);
      SameEncodings(pairs[m].0, pairs[n].0);
      assert m < n || n < m || m == n;
    }
  }

  /** The encoding of a map does not depend on the order in which its pairs were put in. */
  lemma InsertionOrderIsIrrelevant(a: seq<Pair>, b: seq<Pair>)
    requires Writable(a) && Writable(b) && DistinctKeys(a) && multiset(a) == multiset(b)
    ensures EncodedMap(a) == EncodedMap(b)
  {
    hide Sort, TotalPreorder, PairLeq, TieFree, Joined, Head, DistinctKeys;
    assert |a| == |multiset(a)| == |multiset(b)| == |b|;
    PairsAreOrdered();
    SortSorts(a, PairLeq);
    SortSorts(b, PairLeq);
    SortedKeysAreDistinct(a);
    SortedIsUnique(Sort(a, PairLeq), Sort(b, PairLeq), PairLeq);
  }

  lemma {:induction false} JoinedInjective(a: seq<Pair>, b: seq<Pair>)
    requires Writable(a) && Writable(b) && |a| == |b| && Joined(a) == Joined(b)
    ensures a == b
  {
    if a != [] {
      hide Enc, Encodable;
      var (x, y) := (Encoded(a[0].1) + Joined(a[1..]), Encoded(b[0].1) + Joined(b[1..]));
      EncodingsAreSelfDelimiting(a[0].0, b[0].0, x, y);
      EncodingsAreSelfDelimiting(a[0].1, b[0].1, Joined(a[1..]), Joined(b[1..]));
      JoinedInjective(a[1..], b[1..]);
      assert a == [a[0]] + a[1..] && b == [b[0]] + b[1..];
    }
  }

  lemma SameMapHeads(m: nat, n: nat, x: bytes, y: bytes)
    requires m < ARGUMENT_LIMIT && n < ARGUMENT_LIMIT && Head(5, m) + x == Head(5, n) + y
    ensures m == n && x == y
  {
    hide Head, Less;
    LessIsTotal(Head(5, m) + x, Head(5, n) + y);
    if m < n {
      HeadsAscend(5, m, n, x, y);
    } else if n < m {
      HeadsAscend(5, n, m, y, x);
    } else {
      SameSplit(Head(5, m), Head(5, n), x, y);
    }
  }

  lemma SortedIsWritable(pairs: seq<Pair>)
    requires Writable(pairs)
    ensures Writable(Sort(pairs, PairLeq)) && |Sort(pairs, PairLeq)| == |pairs|
    ensures multiset(Sort(pairs, PairLeq)) == multiset(pairs)
  {
    hide Sort, TotalPreorder, PairLeq;
    PairsAreOrdered();
    SortSorts(pairs, PairLeq);
    var sorted := Sort(pairs, PairLeq);
    assert |sorted| == |multiset(sorted)| == |multiset(pairs)| == |pairs|;
    forall i | 0 <= i < |sorted| ensures Encodable(sorted[i].0) && Encodable(sorted[i].1) {
      var k := SortedPair(pairs, i);
    }
  }

  /** Two maps have one encoding exactly when they hold the same pairs. */
  lemma MapsEncodeAlikeIff(a: seq<Pair>, b: seq<Pair>)
    requires Writable(a) && Writable(b) && DistinctKeys(a)
    ensures EncodedMap(a) == EncodedMap(b) <==> multiset(a) == multiset(b)
  {
    hide Sort, PairLeq, Joined, Head, DistinctKeys, Writable;
    if multiset(a) == multiset(b) {
      InsertionOrderIsIrrelevant(a, b);
    }
    if EncodedMap(a) == EncodedMap(b) {
      SortedIsWritable(a);
      SortedIsWritable(b);
      WritableIsShort(a);
      WritableIsShort(b);
      SameMapHeads(|a|, |b|, Joined(Sort(a, PairLeq)), Joined(Sort(b, PairLeq)));
      JoinedInjective(Sort(a, PairLeq), Sort(b, PairLeq));
    }
  }

  lemma WritableIsShort(pairs: seq<Pair>)
    requires Writable(pairs)
    ensures |pairs| < ARGUMENT_LIMIT
  {
  }
}
