/**
  `results.sort(key=sort_key)` (capacity.py, lines 123-130). CPython computes every
  key first, sorts the (key, record) pairs stably by key and then keeps the records.
  Here the pairs are sorted by insertion; the lemmas show the result is ordered by
  key, is a permutation of the input, keeps records with equal keys in their input
  order, and is the only sequence with those three properties, so it is the result
  any stable sort gives.
 */
module Sorting {

  /** `datetime(year, month, day, hour)`: compared field by field. */
  type Key = (int, int, int, int)

  /** Chronological order on keys: lexicographic on (year, month, day, hour). */
  predicate KeyLt(a: Key, b: Key) {
    a.0 < b.0 || (a.0 == b.0 && (a.1 < b.1 || (a.1 == b.1 && (a.2 < b.2 || (a.2 == b.2 && a.3 < b.3)))))
  }

  predicate KeyLe(a: Key, b: Key) {
    a == b || KeyLt(a, b)
  }

  /** Ascending by key. */
  predicate Sorted<T>(s: seq<(Key, T)>) {
    forall i, j :: 0 <= i < j < |s| ==> KeyLe(s[i].0, s[j].0)
  }

  /** The elements of `s` whose key is `k`, in their order in `s`. */
  function WithKey<T>(s: seq<(Key, T)>, k: Key): seq<(Key, T)> {
    if s == [] then [] else (if s[0].0 == k then [s[0]] else []) + WithKey(s[1..], k)
  }

  /** The records, without their keys. */
  function Values<T>(s: seq<(Key, T)>): (r: seq<T>)
    ensures |r| == |s| && forall i :: 0 <= i < |s| ==> r[i] == s[i].1
  {
    seq(|s|, i requires 0 <= i < |s| => s[i].1)
  }

  lemma {:induction false} SortedTail<T>(s: seq<(Key, T)>)
    requires Sorted(s) && s != []
    ensures Sorted(s[1..])
  {
    forall i, j | 0 <= i < j < |s| - 1 ensures KeyLe(s[1..][i].0, s[1..][j].0) {
      assert s[1..][i] == s[i + 1] && s[1..][j] == s[j + 1];
    }
  }

  /** Puts `x` after every element whose key is not larger than its own. */
  function Insert<T>(x: (Key, T), s: seq<(Key, T)>): (r: seq<(Key, T)>)
    ensures |r| == |s| + 1
  {
    if s == [] || KeyLt(x.0, s[0].0) then [x] + s
    else [s[0]] + Insert(x, s[1..])
  }

  /** Inserting adds `x` and loses nothing. */
  lemma {:induction false} InsertMultiset<T>(x: (Key, T), s: seq<(Key, T)>)
    ensures multiset(Insert(x, s)) == multiset(s) + multiset{x}
  {
    if s != [] && !KeyLt(x.0, s[0].0) {
      InsertMultiset(x, s[1..]);
      assert s == [s[0]] + s[1..];
    }
  }

  /** Inserting into a sorted sequence keeps it sorted. */
  lemma {:induction false} InsertSorted<T>(x: (Key, T), s: seq<(Key, T)>)
    requires Sorted(s)
    ensures Sorted(Insert(x, s))
  {
    if s == [] || KeyLt(x.0, s[0].0) {
    } else {
      SortedTail(s);
      InsertSorted(x, s[1..]);
      InsertMultiset(x, s[1..]);
      var r := Insert(x, s);
      var t := Insert(x, s[1..]);
      assert r == [s[0]] + t;
      forall i | 0 < i < |r| ensures KeyLe(s[0].0, r[i].0) {
        assert r[i] == t[i - 1];
        assert r[i] in multiset(t);
        assert r[i] == x || r[i] in multiset(s[1..]);
        if r[i] != x {
          var j :| 0 <= j < |s[1..]| && s[1..][j] == r[i];
          assert s[j + 1] == r[i];
        }
      }
    }
  }

  /** The stable sort by key: each element in turn is inserted into the sorted prefix. */
  function StableSort<T>(s: seq<(Key, T)>): (r: seq<(Key, T)>)
    ensures |r| == |s|
  {
    if s == [] then []
    else Insert(s[|s| - 1], StableSort(s[..|s| - 1]))
  }

  /** Sorting a non-empty sequence inserts its last element into the sorted rest. */
  lemma StableSortStep<T>(s: seq<(Key, T)>)
    requires s != []
    ensures StableSort(s) == Insert(s[|s| - 1], StableSort(s[..|s| - 1]))
  {
  }

  /** The result is ordered by key. */
  lemma {:induction false} StableSortSorted<T>(s: seq<(Key, T)>)
    ensures Sorted(StableSort(s))
  {
    if s != [] {
      StableSortSorted(s[..|s| - 1]);
      InsertSorted(s[|s| - 1], StableSort(s[..|s| - 1]));
    }
  }

  lemma SnocMultiset<T>(s: seq<T>)
    requires s != []
    ensures multiset(s) == multiset(s[..|s| - 1]) + multiset{s[|s| - 1]}
  {
    assert s == s[..|s| - 1] + [s[|s| - 1]];
  }

  /** The result is a permutation of the input. */
  lemma {:induction false} StableSortPermutation<T>(s: seq<(Key, T)>)
    ensures multiset(StableSort(s)) == multiset(s)
  {
    if s != [] {
      var init, last := s[..|s| - 1], s[|s| - 1];
      StableSortStep(s);
      calc {
        multiset(StableSort(s));
        { InsertMultiset(last, StableSort(init)); }
        multiset(StableSort(init)) + multiset{last};
        { StableSortPermutation(init); }
        multiset(init) + multiset{last};
        { SnocMultiset(s); }
        multiset(s);
      }
    }
  }

  lemma {:induction false} WithKeyConcat<T>(a: seq<(Key, T)>, b: seq<(Key, T)>, k: Key)
    ensures WithKey(a + b, k) == WithKey(a, k) + WithKey(b, k)
  {
    if a == [] {
      assert a + b == b;
    } else {
      var head := if a[0].0 == k then [a[0]] else [];
      assert (a + b)[0] == a[0];
      assert (a + b)[1..] == a[1..] + b;
      WithKeyConcat(a[1..], b, k);
      calc {
        WithKey(a + b, k);
        head + WithKey(a[1..] + b, k);
        head + (WithKey(a[1..], k) + WithKey(b, k));
        (head + WithKey(a[1..], k)) + WithKey(b, k);
        WithKey(a, k) + WithKey(b, k);
      }
    }
  }

  lemma {:induction false} WithKeyMember<T>(x: (Key, T), s: seq<(Key, T)>, k: Key)
    requires x in WithKey(s, k)
    ensures x in s && x.0 == k
  {
    if s[0].0 != k || x != s[0] {
      WithKeyMember(x, s[1..], k);
    }
  }

  /** No element of a sorted sequence has a key below that of its first element. */
  lemma {:induction false} WithKeyBelowFirst<T>(s: seq<(Key, T)>, k: Key)
    requires Sorted(s) && s != [] && KeyLt(k, s[0].0)
    ensures WithKey(s, k) == []
  {
    if |s| > 1 {
      assert KeyLe(s[0].0, s[1].0);
      assert Sorted(s[1..]) by {
        forall i, j | 0 <= i < j < |s| - 1 ensures KeyLe(s[1..][i].0, s[1..][j].0) {
          assert s[1..][i] == s[i + 1] && s[1..][j] == s[j + 1];
        }
      }
      WithKeyBelowFirst(s[1..], k);
    }
  }

  lemma {:induction false} InsertWithKey<T>(x: (Key, T), s: seq<(Key, T)>, k: Key)
    requires Sorted(s)
    ensures WithKey(Insert(x, s), k) == WithKey(s, k) + (if x.0 == k then [x] else [])
  {
    if s == [] {
    } else if KeyLt(x.0, s[0].0) {
      assert ([x] + s)[1..] == s;
      if x.0 == k {
        WithKeyBelowFirst(s, k);
      }
    } else {
      var r := [s[0]] + Insert(x, s[1..]);
      assert r[1..] == Insert(x, s[1..]);
      assert Sorted(s[1..]) by {
        forall i, j | 0 <= i < j < |s| - 1 ensures KeyLe(s[1..][i].0, s[1..][j].0) {
          assert s[1..][i] == s[i + 1] && s[1..][j] == s[j + 1];
        }
      }
      InsertWithKey(x, s[1..], k);
    }
  }

  lemma WithKeySingle<T>(x: (Key, T), k: Key)
    ensures WithKey([x], k) == if x.0 == k then [x] else []
  {
    assert [x][1..] == [];
  }

  /** Stability: for every key, the elements with that key keep their input order. */
  lemma {:induction false} StableSortKeepsOrder<T>(s: seq<(Key, T)>, k: Key)
    ensures WithKey(StableSort(s), k) == WithKey(s, k)
  {
    if s != [] {
      var init, last := s[..|s| - 1], s[|s| - 1];
      var sorted := StableSort(init);
      var tail := if last.0 == k then [last] else [];
      StableSortStep(s);
      WithKeySingle(last, k);
      calc {
        WithKey(StableSort(s), k);
        { StableSortSorted(init); InsertWithKey(last, sorted, k); }
        WithKey(sorted, k) + tail;
        { StableSortKeepsOrder(init, k); }
        WithKey(init, k) + tail;
        { WithKeyConcat(init, [last], k); }
        WithKey(init + [last], k);
        { assert init + [last] == s; }
        WithKey(s, k);
      }
    }
  }

  /** Two sorted sequences that agree on the elements of every key, in order, are equal. */
  lemma {:induction false} SortedSameGroupsEqual<T>(a: seq<(Key, T)>, b: seq<(Key, T)>)
    requires Sorted(a) && Sorted(b)
    requires forall k :: WithKey(a, k) == WithKey(b, k)
    ensures a == b
    decreases |a|
  {
    if a != [] {
      assert a[0] in WithKey(a, a[0].0);
    }
    if b != [] {
      assert b[0] in WithKey(b, b[0].0);
    }
    if a != [] && b != [] {
      var ka, kb := a[0].0, b[0].0;
      assert a[0] in WithKey(a, ka);
      WithKeyMember(a[0], b, ka);
      assert KeyLe(kb, ka);
      assert b[0] in WithKey(b, kb);
      WithKeyMember(b[0], a, kb);
      assert KeyLe(ka, kb);
      assert ka == kb;
      assert WithKey(a, ka) == [a[0]] + WithKey(a[1..], ka);
      assert WithKey(b, ka) == [b[0]] + WithKey(b[1..], ka);
      assert WithKey(a, ka)[0] == a[0] && WithKey(b, ka)[0] == b[0];
      assert a[0] == b[0];
      forall k ensures WithKey(a[1..], k) == WithKey(b[1..], k) {
        assert WithKey(a, k) == WithKey(b, k);
        assert WithKey(a, k) == (if ka == k then [a[0]] else []) + WithKey(a[1..], k);
        assert WithKey(b, k) == (if ka == k then [b[0]] else []) + WithKey(b[1..], k);
        if k == ka {
          assert WithKey(a[1..], k) == WithKey(a, k)[1..];
          assert WithKey(b[1..], k) == WithKey(b, k)[1..];
        } else {
          assert WithKey(a[1..], k) == WithKey(a, k);
          assert WithKey(b[1..], k) == WithKey(b, k);
        }
      }
      SortedTail(a);
      SortedTail(b);
      SortedSameGroupsEqual(a[1..], b[1..]);
      assert a == [a[0]] + a[1..] && b == [b[0]] + b[1..];
    }
  }

  /**
    The stable sort is the only sorted arrangement of `s` that keeps the elements of
    each key in their input order.
   */
  lemma StableSortUnique<T>(s: seq<(Key, T)>, a: seq<(Key, T)>)
    requires Sorted(a) && forall k :: WithKey(a, k) == WithKey(s, k)
    ensures a == StableSort(s)
  {
    forall k ensures WithKey(a, k) == WithKey(StableSort(s), k) {
      StableSortKeepsOrder(s, k);
    }
    StableSortSorted(s);
    SortedSameGroupsEqual(a, StableSort(s));
  }

  lemma {:induction false} InsertValues<T>(x: (Key, T), s: seq<(Key, T)>)
    ensures multiset(Values(Insert(x, s))) == multiset(Values(s)) + multiset{x.1}
  {
    if s == [] || KeyLt(x.0, s[0].0) {
      assert Values([x] + s) == [x.1] + Values(s);
    } else {
      InsertValues(x, s[1..]);
      assert Values(Insert(x, s)) == [s[0].1] + Values(Insert(x, s[1..]));
      assert Values(s) == [s[0].1] + Values(s[1..]);
    }
  }

  /** Dropping the keys after sorting leaves a permutation of the records. */
  lemma {:induction false} StableSortValues<T>(s: seq<(Key, T)>)
    ensures multiset(Values(StableSort(s))) == multiset(Values(s))
  {
    if s != [] {
      var init, last := s[..|s| - 1], s[|s| - 1];
      StableSortValues(init);
      InsertValues(last, StableSort(init));
      assert s == init + [last];
      assert Values(s) == Values(init) + [last.1];
    }
  }
}
