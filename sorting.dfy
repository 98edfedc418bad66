/**
 * `Array.prototype.sort(comparator)`: a stable sort. Since the 2019 edition
 * ECMA-262 requires the sort to be stable, and for a consistent comparator a
 * stable sorted permutation is unique, any stable algorithm yields the same
 * array; this model uses insertion from the back. The comparator result is
 * already an integer, NaN having been read as +0 (see JsValues).
 */
module Sorting {

  /** Inserts `x` into `sorted`, after every element the comparator does not place after `x`. */
  function Insert<T>(sorted: seq<T>, x: T, cmp: (T, T) -> int): (r: seq<T>)
    ensures multiset(r) == multiset(sorted) + multiset{x}
    decreases |sorted|
  {
    if sorted == [] then [x]
    else
      var last := sorted[|sorted| - 1];
      var init := sorted[..|sorted| - 1];
      assert sorted == init + [last];
      if cmp(last, x) > 0 then Insert(init, x, cmp) + [last] else sorted + [x]
  }

  /** `s.toSorted(cmp)`: `s` sorted by `cmp`, stably. */
  function SortBy<T>(s: seq<T>, cmp: (T, T) -> int): (r: seq<T>)
    ensures multiset(r) == multiset(s)
  {
    if s == [] then []
    else
      assert s == s[..|s| - 1] + [s[|s| - 1]];
      Insert(SortBy(s[..|s| - 1], cmp), s[|s| - 1], cmp)
  }

  /** `cmp` is the comparator `(a, b) => key(b) - key(a)`, which sorts by descending key. */
  ghost predicate DescendingBy<T(!new)>(cmp: (T, T) -> int, key: T -> int)
  {
    forall a, b :: cmp(a, b) == key(b) - key(a)
  }

  ghost predicate SortedDesc<T>(s: seq<T>, key: T -> int)
  {
    forall i, j :: 0 <= i < j < |s| ==> key(s[i]) >= key(s[j])
  }

  /** The elements of `s` whose key is `k`, in their order in `s`. */
  function WithKey<T>(s: seq<T>, key: T -> int, k: int): seq<T>
  {
    if s == [] then []
    else WithKey(s[..|s| - 1], key, k) + (if key(s[|s| - 1]) == k then [s[|s| - 1]] else [])
  }

  lemma {:induction false} InsertSorted<T(!new)>(sorted: seq<T>, x: T, cmp: (T, T) -> int, key: T -> int)
    requires DescendingBy(cmp, key) && SortedDesc(sorted, key)
    ensures SortedDesc(Insert(sorted, x, cmp), key)
    decreases |sorted|
  {
    if sorted != [] {
      var last := sorted[|sorted| - 1];
      var init := sorted[..|sorted| - 1];
      SortedDescInit(sorted, key);
      if cmp(last, x) > 0 {
        InsertSorted(init, x, cmp, key);
        var front := Insert(init, x, cmp);
        assert key(x) > key(last);
        AllAboveLast(sorted, init, key);
        AboveAfterInsert(init, x, front, key, key(last));
        SortedSnoc(front, last, key);
      } else {
        assert key(x) <= key(last);
        AllAboveLast(sorted, init, key);
        SortedSnoc(sorted, x, key);
      }
    }
  }

  /** In a sequence sorted by descending key, nothing has a smaller key than the last element. */
  lemma AllAboveLast<T>(s: seq<T>, init: seq<T>, key: T -> int)
    requires s != [] && SortedDesc(s, key) && init == s[..|s| - 1]
    ensures forall i :: 0 <= i < |init| ==> key(init[i]) >= key(s[|s| - 1])
    ensures forall i :: 0 <= i < |s| ==> key(s[i]) >= key(s[|s| - 1])
  {
    forall i | 0 <= i < |init| ensures key(init[i]) >= key(s[|s| - 1]) {
      assert init[i] == s[i];
    }
  }

  /** Inserting an element at least `bound` into elements at least `bound` keeps them so. */
  lemma AboveAfterInsert<T>(init: seq<T>, x: T, front: seq<T>, key: T -> int, bound: int)
    requires multiset(front) == multiset(init) + multiset{x}
    requires key(x) >= bound
    requires forall i :: 0 <= i < |init| ==> key(init[i]) >= bound
    ensures forall i :: 0 <= i < |front| ==> key(front[i]) >= bound
  {
    forall i | 0 <= i < |front| ensures key(front[i]) >= bound {
      assert front[i] in multiset(front);
      if front[i] != x {
        assert front[i] in multiset(init);
        var j :| 0 <= j < |init| && init[j] == front[i];
      }
    }
  }

  /** An element no larger than every key of a sorted sequence extends it at the end. */
  lemma SortedSnoc<T>(s: seq<T>, x: T, key: T -> int)
    requires SortedDesc(s, key)
    requires forall i :: 0 <= i < |s| ==> key(s[i]) >= key(x)
    ensures SortedDesc(s + [x], key)
  {
    var r := s + [x];
    forall i, j | 0 <= i < j < |r| ensures key(r[i]) >= key(r[j]) {
      assert r[i] == s[i];
      if j < |s| {
        assert r[j] == s[j];
      }
    }
  }

  /** The stable sort orders by descending key. */
  lemma {:induction false} SortByDescending<T(!new)>(s: seq<T>, cmp: (T, T) -> int, key: T -> int)
    requires DescendingBy(cmp, key)
    ensures SortedDesc(SortBy(s, cmp), key)
  {
    if s != [] {
      SortByDescending(s[..|s| - 1], cmp, key);
      InsertSorted(SortBy(s[..|s| - 1], cmp), s[|s| - 1], cmp, key);
    }
  }

  lemma WithKeyAppendOne<T>(s: seq<T>, x: T, key: T -> int, k: int)
    ensures WithKey(s + [x], key, k) == WithKey(s, key, k) + (if key(x) == k then [x] else [])
  {
    assert (s + [x])[..|s|] == s;
  }

  lemma SortedDescInit<T>(s: seq<T>, key: T -> int)
    requires s != [] && SortedDesc(s, key)
    ensures SortedDesc(s[..|s| - 1], key)
  {
    var init := s[..|s| - 1];
    forall i, j | 0 <= i < j < |init| ensures key(init[i]) >= key(init[j]) {
      assert init[i] == s[i] && init[j] == s[j];
    }
  }

  /** Passing `x` in front of `last`, which has a smaller key, keeps every key's subsequence. */
  lemma WithKeyPassOver<T>(front: seq<T>, init: seq<T>, x: T, last: T, key: T -> int, k: int)
    requires key(x) > key(last)
    requires WithKey(front, key, k) == WithKey(init, key, k) + (if key(x) == k then [x] else [])
    ensures WithKey(front + [last], key, k)
      == WithKey(init + [last], key, k) + (if key(x) == k then [x] else [])
  {
    WithKeyAppendOne(front, last, key, k);
    WithKeyAppendOne(init, last, key, k);
  }

  lemma {:induction false} InsertWithKey<T(!new)>(sorted: seq<T>, x: T, cmp: (T, T) -> int, key: T -> int, k: int)
    requires DescendingBy(cmp, key) && SortedDesc(sorted, key)
    ensures WithKey(Insert(sorted, x, cmp), key, k)
      == WithKey(sorted, key, k) + (if key(x) == k then [x] else [])
    decreases |sorted|
  {
    if sorted == [] {
      WithKeyAppendOne([], x, key, k);
      assert [] + [x] == [x];
    } else {
      var last := sorted[|sorted| - 1];
      var init := sorted[..|sorted| - 1];
      assert sorted == init + [last];
      if cmp(last, x) > 0 {
        SortedDescInit(sorted, key);
        InsertWithKey(init, x, cmp, key, k);
        WithKeyPassOver(Insert(init, x, cmp), init, x, last, key, k);
      } else {
        WithKeyAppendOne(sorted, x, key, k);
      }
    }
  }

  /** Stability: for every key, the elements with that key keep their relative order. */
  lemma {:induction false} SortByStable<T(!new)>(s: seq<T>, cmp: (T, T) -> int, key: T -> int, k: int)
    requires DescendingBy(cmp, key)
    ensures WithKey(SortBy(s, cmp), key, k) == WithKey(s, key, k)
  {
    if s != [] {
      var init := s[..|s| - 1];
      SortByStable(init, cmp, key, k);
      SortByDescending(init, cmp, key);
      InsertWithKey(SortBy(init, cmp), s[|s| - 1], cmp, key, k);
    }
  }

  /** An element that does not compare as "before" the last one goes at the end. */
  lemma InsertAtEnd<T>(sorted: seq<T>, x: T, cmp: (T, T) -> int)
    requires sorted == [] || cmp(sorted[|sorted| - 1], x) <= 0
    ensures Insert(sorted, x, cmp) == sorted + [x]
  {
  }

  /** No element of `s` compares as "after" another one. */
  ghost predicate NeverAfter<T>(s: seq<T>, cmp: (T, T) -> int)
  {
    forall i, j :: 0 <= i < |s| && 0 <= j < |s| ==> cmp(s[i], s[j]) <= 0
  }

  lemma NeverAfterInit<T>(s: seq<T>, cmp: (T, T) -> int)
    requires s != [] && NeverAfter(s, cmp)
    ensures NeverAfter(s[..|s| - 1], cmp)
    ensures |s| > 1 ==> cmp(s[|s| - 2], s[|s| - 1]) <= 0
  {
    var init := s[..|s| - 1];
    forall i, j | 0 <= i < |init| && 0 <= j < |init| ensures cmp(init[i], init[j]) <= 0 {
      assert init[i] == s[i] && init[j] == s[j];
    }
  }

  /**
   * A comparator that never says "after" (every result +0 or less) leaves the
   * array as it is: this is what the cache-hit sort does.
   */
  lemma {:induction false} SortByNeverAfter<T>(s: seq<T>, cmp: (T, T) -> int)
    requires NeverAfter(s, cmp)
    ensures SortBy(s, cmp) == s
  {
    if s != [] {
      var n := |s|;
      var init := s[..n - 1];
      NeverAfterInit(s, cmp);
      SortByNeverAfter(init, cmp);
      if init != [] {
        assert init[|init| - 1] == s[n - 2];
      }
      InsertAtEnd(init, s[n - 1], cmp);
      assert init + [s[n - 1]] == s;
    }
  }
}
