/** Sorting by a total preorder, as the library sorts the scripts call. */
module Sorting {
  ghost predicate TotalPreorder<T(!new)>(leq: (T, T) -> bool) {
    && (forall a, b :: leq(a, b) || leq(b, a))
    && (forall a, b, c :: leq(a, b) && leq(b, c) ==> leq(a, c))
  }

  /** No two different elements of `s` tie. */
  predicate TieFree<T(==)>(s: seq<T>, leq: (T, T) -> bool) {
    forall i, j | 0 <= i < |s| && 0 <= j < |s| && leq(s[i], s[j]) && leq(s[j], s[i]) :: s[i] == s[j]
  }

  predicate Sorted<T>(s: seq<T>, leq: (T, T) -> bool) { forall i, j | 0 <= i < j < |s| :: leq(s[i], s[j]) }

  function Insert<T>(x: T, s: seq<T>, leq: (T, T) -> bool): seq<T> {
    if s == [] || leq(x, s[0]) then [x] + s else [s[0]] + Insert(x, s[1..], leq)
  }

  function Sort<T>(s: seq<T>, leq: (T, T) -> bool): seq<T> {
    if s == [] then [] else Insert(s[0], Sort(s[1..], leq), leq)
  }

  lemma {:induction false} InsertKeeps<T(!new)>(x: T, s: seq<T>, leq: (T, T) -> bool)
    ensures multiset(Insert(x, s, leq)) == multiset(s) + multiset{x}
  {
    if s != [] && !leq(x, s[0]) {
      InsertKeeps(x, s[1..], leq);
      assert s == [s[0]] + s[1..];
    }
  }

  lemma {:induction false} InsertSorts<T(!new)>(x: T, s: seq<T>, leq: (T, T) -> bool)
    requires TotalPreorder(leq) && Sorted(s, leq)
    ensures Sorted(Insert(x, s, leq), leq)
  {
    if s != [] && !leq(x, s[0]) {
      var rest := Insert(x, s[1..], leq);
      InsertSorts(x, s[1..], leq);
      InsertKeeps(x, s[1..], leq);
      forall j | 0 <= j < |rest| ensures leq(s[0], rest[j]) {
        assert rest[j] in multiset(rest);
        assert rest[j] == x || rest[j] in s[1..];
      }
    }
  }

  /** The result is sorted and has the elements of the input. */
  lemma {:induction false} SortSorts<T(!new)>(s: seq<T>, leq: (T, T) -> bool)
    requires TotalPreorder(leq)
    ensures Sorted(Sort(s, leq), leq) && multiset(Sort(s, leq)) == multiset(s)
  {
    if s != [] {
      SortSorts(s[1..], leq);
      InsertSorts(s[0], Sort(s[1..], leq), leq);
      InsertKeeps(s[0], Sort(s[1..], leq), leq);
      assert s == [s[0]] + s[1..];
    }
  }

  /** A sorted input comes back unchanged. */
  lemma {:induction false} SortedIsFixed<T>(s: seq<T>, leq: (T, T) -> bool)
    requires Sorted(s, leq)
    ensures Sort(s, leq) == s
  {
    if s != [] {
      SortedIsFixed(s[1..], leq);
      assert s == [s[0]] + s[1..];
    }
  }

  lemma FirstIsLeast<T(!new)>(s: seq<T>, x: T, leq: (T, T) -> bool)
    requires Sorted(s, leq) && x in s
    ensures leq(s[0], x) || s[0] == x
  {
    var i :| 0 <= i < |s| && s[i] == x;
    assert 0 < i ==> leq(s[0], s[i]);
  }

  lemma FirstsAgree<T(!new)>(s: seq<T>, t: seq<T>, leq: (T, T) -> bool)
    requires TieFree(s, leq) && s != [] && t != []
    requires Sorted(s, leq) && Sorted(t, leq) && multiset(s) == multiset(t)
    ensures s[0] == t[0]
  {
    assert s[0] in multiset(t) && t[0] in multiset(s);
    hide Sorted;
    FirstIsLeast(s, t[0], leq);
    FirstIsLeast(t, s[0], leq);
    var j :| 0 <= j < |s| && s[j] == t[0];
    assert leq(s[0], s[j]) && leq(s[j], s[0]) ==> s[0] == s[j];
  }

  lemma Rest<T>(s: seq<T>, leq: (T, T) -> bool)
    requires Sorted(s, leq) && s != []
    ensures Sorted(s[1..], leq) && multiset(s[1..]) == multiset(s) - multiset{s[0]}
  {
    assert s == [s[0]] + s[1..];
  }

  lemma RestIsTieFree<T>(s: seq<T>, leq: (T, T) -> bool)
    requires TieFree(s, leq) && s != []
    ensures TieFree(s[1..], leq)
  {
  }

  /** When no two different elements tie, a multiset has one sorted listing. */
  lemma {:induction false} SortedIsUnique<T(!new)>(s: seq<T>, t: seq<T>, leq: (T, T) -> bool)
    requires TieFree(s, leq) && Sorted(s, leq) && Sorted(t, leq) && multiset(s) == multiset(t)
    ensures s == t
  {
    hide Sorted, TieFree;
    assert |s| == |multiset(s)| == |multiset(t)| == |t|;
    if s != [] {
      FirstsAgree(s, t, leq);
      Rest(s, leq);
      Rest(t, leq);
      RestIsTieFree(s, leq);
      SortedIsUnique(s[1..], t[1..], leq);
      assert s == [s[0]] + s[1..] && t == [t[0]] + t[1..];
    }
  }
}
