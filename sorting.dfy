/** Python's `sorted(s, key=key)`: a stable sort by a key compared with `<`. */
module Sorting {

  /** `lt` orders keys strictly and totally, as `<` does on dates and on numbers. */
  ghost predicate StrictTotalOrder<K(!new)>(lt: (K, K) -> bool) {
    && (forall a :: !lt(a, a))
    && (forall a, b, c :: lt(a, b) && lt(b, c) ==> lt(a, c))
    && (forall a, b :: a != b ==> lt(a, b) || lt(b, a))
  }

  /** No element is followed by one with a smaller key. */
  ghost predicate SortedBy<T, K>(s: seq<T>, key: T -> K, lt: (K, K) -> bool) {
    forall i, j :: 0 <= i < j < |s| ==> !lt(key(s[j]), key(s[i]))
  }

  /** The elements of `s` whose key is `k`, in their order in `s`. */
  function WithKey<T, K(==)>(s: seq<T>, key: T -> K, k: K): seq<T> {
    if s == [] then []
    else (if key(s[0]) == k then [s[0]] else []) + WithKey(s[1..], key, k)
  }

  /** `x` placed after every element whose key is not larger than its own. */
  function Insert<T, K>(x: T, s: seq<T>, key: T -> K, lt: (K, K) -> bool): (r: seq<T>)
    ensures |r| == |s| + 1
  {
    if s == [] then [x]
    else if lt(key(x), key(s[0])) then [x] + s
    else [s[0]] + Insert(x, s[1..], key, lt)
  }

  /** Insertion sort, taking the elements in their original order. */
  function SortBy<T, K>(s: seq<T>, key: T -> K, lt: (K, K) -> bool): (r: seq<T>)
    ensures |r| == |s|
  {
    if s == [] then []
    else Insert(s[|s| - 1], SortBy(s[..|s| - 1], key, lt), key, lt)
  }

  /** Index of the first element with the smallest key: the reference the head of the
      sorted list is compared with. */
  function FirstMinimum<T, K(!new)>(s: seq<T>, key: T -> K, lt: (K, K) -> bool): (i: nat)
    requires s != [] && StrictTotalOrder(lt)
    ensures i < |s|
    ensures forall j :: 0 <= j < |s| ==> !lt(key(s[j]), key(s[i]))
    ensures forall j :: 0 <= j < i ==> lt(key(s[i]), key(s[j]))
  {
    if |s| == 1 then 0
    else
      var i := FirstMinimum(s[1..], key, lt);
      if lt(key(s[i + 1]), key(s[0])) then i + 1 else 0
  }

  lemma {:induction false} InsertContents<T, K>(x: T, s: seq<T>, key: T -> K, lt: (K, K) -> bool)
    ensures multiset(Insert(x, s, key, lt)) == multiset(s) + multiset{x}
  {
    if s != [] && !lt(key(x), key(s[0])) {
      InsertContents(x, s[1..], key, lt);
      assert s == [s[0]] + s[1..];
    }
  }

  /** Below the head of a sorted list means below every element of it. */
  lemma BelowHead<T, K(!new)>(x: T, s: seq<T>, key: T -> K, lt: (K, K) -> bool)
    requires StrictTotalOrder(lt) && SortedBy(s, key, lt) && s != [] && lt(key(x), key(s[0]))
    ensures forall j :: 0 <= j < |s| ==> lt(key(x), key(s[j]))
  {
    forall j | 0 <= j < |s| ensures lt(key(x), key(s[j])) {
      if key(s[j]) != key(s[0]) {
        assert lt(key(s[0]), key(s[j]));
      }
    }
  }

  lemma {:induction false} InsertSorted<T, K(!new)>(x: T, s: seq<T>, key: T -> K, lt: (K, K) -> bool)
    requires StrictTotalOrder(lt) && SortedBy(s, key, lt)
    ensures SortedBy(Insert(x, s, key, lt), key, lt)
  {
    if s != [] {
      if lt(key(x), key(s[0])) {
        BelowHead(x, s, key, lt);
      } else {
        var rest := Insert(x, s[1..], key, lt);
        InsertSorted(x, s[1..], key, lt);
        InsertContents(x, s[1..], key, lt);
        forall j | 0 <= j < |rest| ensures !lt(key(rest[j]), key(s[0])) {
          assert rest[j] in multiset(rest);
          assert rest[j] == x || rest[j] in multiset(s[1..]);
          if rest[j] != x {
            var m :| 0 <= m < |s[1..]| && s[1..][m] == rest[j];
            assert s[m + 1] == rest[j];
          }
        }
      }
    }
  }

  lemma {:induction false} NoneWithKey<T, K>(s: seq<T>, key: T -> K, k: K)
    requires forall j :: 0 <= j < |s| ==> key(s[j]) != k
    ensures WithKey(s, key, k) == []
  {
    if s != [] {
      NoneWithKey(s[1..], key, k);
    }
  }

  lemma {:induction false} WithKeyAppend<T, K>(s: seq<T>, t: seq<T>, key: T -> K, k: K)
    ensures WithKey(s + t, key, k) == WithKey(s, key, k) + WithKey(t, key, k)
  {
    if s != [] {
      assert (s + t)[1..] == s[1..] + t;
      WithKeyAppend(s[1..], t, key, k);
    } else {
      assert s + t == t;
    }
  }

  /** Inserting keeps the order among elements of equal key, `x` last. */
  lemma {:induction false} InsertStable<T, K(!new)>(x: T, s: seq<T>, key: T -> K, lt: (K, K) -> bool, k: K)
    requires StrictTotalOrder(lt) && SortedBy(s, key, lt)
    ensures WithKey(Insert(x, s, key, lt), key, k)
         == WithKey(s, key, k) + (if key(x) == k then [x] else [])
  {
    if s == [] {
    } else if lt(key(x), key(s[0])) {
      if key(x) == k {
        BelowHead(x, s, key, lt);
        NoneWithKey(s, key, k);
      }
      assert Insert(x, s, key, lt)[1..] == s;
    } else {
      var head := if key(s[0]) == k then [s[0]] else [];
      var tail := if key(x) == k then [x] else [];
      assert SortedBy(s[1..], key, lt);
      InsertStable(x, s[1..], key, lt, k);
      var ins := Insert(x, s, key, lt);
      assert ins == [s[0]] + Insert(x, s[1..], key, lt);
      assert ins[1..] == Insert(x, s[1..], key, lt);
      assert WithKey(ins, key, k) == head + (WithKey(s[1..], key, k) + tail);
      assert WithKey(s, key, k) == head + WithKey(s[1..], key, k);
    }
  }

  /** `sorted` is a sorted permutation of its input that keeps the order of elements with
      equal keys. */
  lemma SortByCorrect<T, K(!new)>(s: seq<T>, key: T -> K, lt: (K, K) -> bool)
    requires StrictTotalOrder(lt)
    ensures SortedBy(SortBy(s, key, lt), key, lt)
    ensures multiset(SortBy(s, key, lt)) == multiset(s)
    ensures forall k :: WithKey(SortBy(s, key, lt), key, k) == WithKey(s, key, k)
  {
    SortBySorted(s, key, lt);
    SortByPermutes(s, key, lt);
    forall k ensures WithKey(SortBy(s, key, lt), key, k) == WithKey(s, key, k) {
      SortByStable(s, key, lt, k);
    }
  }

  lemma {:induction false} SortBySorted<T, K(!new)>(s: seq<T>, key: T -> K, lt: (K, K) -> bool)
    requires StrictTotalOrder(lt)
    ensures SortedBy(SortBy(s, key, lt), key, lt)
  {
    if s != [] {
      var front := s[..|s| - 1];
      SortBySorted(front, key, lt);
      InsertSorted(s[|s| - 1], SortBy(front, key, lt), key, lt);
    }
  }

  lemma {:induction false} SortByPermutes<T, K>(s: seq<T>, key: T -> K, lt: (K, K) -> bool)
    ensures multiset(SortBy(s, key, lt)) == multiset(s)
  {
    if s != [] {
      var front, last := s[..|s| - 1], s[|s| - 1];
      SortByPermutes(front, key, lt);
      InsertContents(last, SortBy(front, key, lt), key, lt);
      assert s == front + [last];
    }
  }

  lemma {:induction false} SortByStable<T, K(!new)>(s: seq<T>, key: T -> K, lt: (K, K) -> bool, k: K)
    requires StrictTotalOrder(lt)
    ensures WithKey(SortBy(s, key, lt), key, k) == WithKey(s, key, k)
  {
    if s != [] {
      var front, last := s[..|s| - 1], s[|s| - 1];
      SortByStable(front, key, lt, k);
      SortBySorted(front, key, lt);
      InsertStable(last, SortBy(front, key, lt), key, lt, k);
      WithKeyAppend(front, [last], key, k);
      assert s == front + [last];
    }
  }

  /** `sorted(s, key=key)[0]` is the first element of `s` with the smallest key. */
  lemma SortedHead<T, K(!new)>(s: seq<T>, key: T -> K, lt: (K, K) -> bool)
    requires StrictTotalOrder(lt) && s != []
    ensures |SortBy(s, key, lt)| == |s|
    ensures SortBy(s, key, lt)[0] == s[FirstMinimum(s, key, lt)]
  {
    SortByCorrect(s, key, lt);
    var sorted := SortBy(s, key, lt);
    var i := FirstMinimum(s, key, lt);
    assert |sorted| == |multiset(sorted)| == |multiset(s)| == |s|;
    var h := sorted[0];
    // the head's key is the smallest: it is an element of `s`, and the element s[i]
    // appears somewhere in the sorted list, after the head
    assert h in multiset(s);
    var p :| 0 <= p < |s| && s[p] == h;
    assert s[i] in multiset(sorted);
    var q :| 0 <= q < |sorted| && sorted[q] == s[i];
    assert !lt(key(s[p]), key(s[i]));
    assert q > 0 ==> !lt(key(sorted[q]), key(sorted[0]));
    assert key(h) == key(s[i]);
    // among the elements with that key, the sorted list and `s` agree on the order
    var k := key(h);
    FirstWithKey(s, key, lt, i);
    assert WithKey(sorted, key, k)[0] == h;
  }

  /** The first element of `s` with key `key(s[i])` is `s[i]` when no earlier element has it. */
  lemma {:induction false} FirstWithKey<T, K(!new)>(s: seq<T>, key: T -> K, lt: (K, K) -> bool, i: nat)
    requires StrictTotalOrder(lt) && i < |s|
    requires forall j :: 0 <= j < i ==> lt(key(s[i]), key(s[j]))
    ensures WithKey(s, key, key(s[i])) != [] && WithKey(s, key, key(s[i]))[0] == s[i]
  {
    if i > 0 {
      assert key(s[0]) != key(s[i]);
      FirstWithKey(s[1..], key, lt, i - 1);
    }
  }
}
