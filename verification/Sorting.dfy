/** Stable sorting by a byte-string key, as sort.SliceStable does it for the blobs of a square
    (pkg/square/builder.go). */
module Sorting {
  import opened ByteSeqs

  ghost predicate SortedBy<T>(key: T -> Bytes, s: seq<T>) {
    forall i, j :: 0 <= i < j < |s| ==> Leq(key(s[i]), key(s[j]))
  }

  /** Inserts `x` behind all elements of the sorted `s` whose key is not larger. */
  function InsertAfter<T>(key: T -> Bytes, s: seq<T>, x: T): (r: seq<T>)
    ensures |r| == |s| + 1
  {
    if s == [] then [x]
    else if Less(key(x), key(s[|s| - 1])) then InsertAfter(key, s[..|s| - 1], x) + [s[|s| - 1]]
    else s + [x]
  }

  function StableSort<T>(key: T -> Bytes, s: seq<T>): (r: seq<T>)
    ensures |r| == |s|
  {
    if s == [] then [] else InsertAfter(key, StableSort(key, s[..|s| - 1]), s[|s| - 1])
  }

  lemma LeqTotal(a: Bytes, b: Bytes)
    ensures Leq(a, b) || Less(b, a)
    ensures Less(a, b) ==> Leq(a, b) && !Leq(b, a)
  {
    CompareAntisymmetric(a, b);
  }

  lemma {:induction false} InsertSorted<T>(key: T -> Bytes, s: seq<T>, x: T)
    requires SortedBy(key, s)
    ensures SortedBy(key, InsertAfter(key, s, x))
    ensures multiset(InsertAfter(key, s, x)) == multiset(s) + multiset{x}
  {
    hide Leq, Less;
    if s != [] {
      var init, last := s[..|s| - 1], s[|s| - 1];
      assert s == init + [last];
      LeqTotal(key(last), key(x));
      LeqTotal(key(x), key(last));
      if Less(key(x), key(last)) {
        InsertSorted(key, init, x);
        var r := InsertAfter(key, init, x);
        assert forall y :: y in r ==> y in multiset(r);
        SnocSorted(key, r, last);
      } else {
        forall i | 0 <= i < |s| ensures Leq(key(s[i]), key(x)) {
          if i < |s| - 1 {
            LeqTransitive(key(s[i]), key(last), key(x));
          }
        }
        SnocSorted(key, s, x);
      }
    }
  }

  lemma SnocSorted<T>(key: T -> Bytes, s: seq<T>, x: T)
    requires SortedBy(key, s) && forall y :: y in s ==> Leq(key(y), key(x))
    ensures SortedBy(key, s + [x])
  {
    hide Leq;
    assert forall i :: 0 <= i < |s| ==> s[i] in s;
  }

  /** The result is sorted and holds the same elements. */
  lemma {:induction false} StableSortSorts<T>(key: T -> Bytes, s: seq<T>)
    ensures SortedBy(key, StableSort(key, s))
    ensures multiset(StableSort(key, s)) == multiset(s)
  {
    if s != [] {
      StableSortSorts(key, s[..|s| - 1]);
      InsertSorted(key, StableSort(key, s[..|s| - 1]), s[|s| - 1]);
      assert s == s[..|s| - 1] + [s[|s| - 1]];
    }
  }

  /** The elements with key `k`, in order. */
  ghost function WithKey<T>(key: T -> Bytes, s: seq<T>, k: Bytes): (r: seq<T>)
  {
    if s == [] then []
    else WithKey(key, s[..|s| - 1], k) + if key(s[|s| - 1]) == k then [s[|s| - 1]] else []
  }

  lemma {:induction false} InsertStable<T>(key: T -> Bytes, s: seq<T>, x: T, k: Bytes)
    ensures WithKey(key, InsertAfter(key, s, x), k) == WithKey(key, s + [x], k)
  {
    assert (s + [x])[..|s|] == s;
    if s != [] && Less(key(x), key(s[|s| - 1])) {
      var init, last := s[..|s| - 1], s[|s| - 1];
      InsertStable(key, init, x, k);
      assert (init + [x])[..|init|] == init;
      assert (InsertAfter(key, init, x) + [last])[..|init| + 1] == InsertAfter(key, init, x);
      CompareEqual(key(x), key(last));
    }
  }

  /** Elements with equal keys keep their order. */
  lemma {:induction false} StableSortIsStable<T>(key: T -> Bytes, s: seq<T>, k: Bytes)
    ensures WithKey(key, StableSort(key, s), k) == WithKey(key, s, k)
  {
    if s != [] {
      var init, last := s[..|s| - 1], s[|s| - 1];
      StableSortIsStable(key, init, k);
      InsertStable(key, StableSort(key, init), last, k);
      assert (StableSort(key, init) + [last])[..|init|] == StableSort(key, init);
    }
  }

  lemma {:induction false} SortOfSorted<T>(key: T -> Bytes, s: seq<T>)
    requires SortedBy(key, s)
    ensures StableSort(key, s) == s
  {
    hide Leq, Less;
    if s != [] {
      var init, last := s[..|s| - 1], s[|s| - 1];
      SortOfSorted(key, init);
      assert s == init + [last];
      if init != [] {
        LeqTotal(key(init[|init| - 1]), key(last));
        LeqTotal(key(last), key(init[|init| - 1]));
        assert Leq(key(s[|s| - 2]), key(s[|s| - 1]));
      }
    }
  }

  lemma StableSortSnoc<T>(key: T -> Bytes, s: seq<T>, x: T)
    ensures StableSort(key, s + [x]) == InsertAfter(key, StableSort(key, s), x)
  {
    assert (s + [x])[..|s|] == s;
  }

  /** Sorting a prefix first, and adding to it later, makes no difference. */
  lemma {:induction false} SortPrefixFirst<T>(key: T -> Bytes, a: seq<T>, b: seq<T>)
    ensures StableSort(key, StableSort(key, a) + b) == StableSort(key, a + b)
    decreases |b|
  {
    hide StableSort, InsertAfter, SortedBy;
    var sorted := StableSort(key, a);
    if b == [] {
      StableSortSorts(key, a);
      SortOfSorted(key, sorted);
      assert sorted + b == sorted && a + b == a;
    } else {
      var init, last := b[..|b| - 1], b[|b| - 1];
      SortPrefixFirst(key, a, init);
      StableSortSnoc(key, sorted + init, last);
      StableSortSnoc(key, a + init, last);
      assert sorted + b == (sorted + init) + [last] && a + b == (a + init) + [last];
    }
  }
}
