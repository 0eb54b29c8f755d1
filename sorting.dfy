/**
 * The sort splitNodes applies to a node's children: Array.prototype.sort with a
 * comparator that orders by the centroid key (orderNode) and answers 0 on equal
 * keys. The engine's algorithm is not part of the program; only its promise
 * is: the result is ordered by key, is a permutation of the input, and is
 * stable (equal keys keep their relative order). SortByKey is one such sort,
 * and StableSortUnique shows that every sort keeping that promise agrees with it.
 */
module Sorting {

  predicate SortedBy<T>(s: seq<T>, key: T -> int) {
    forall i, j :: 0 <= i < j < |s| ==> key(s[i]) <= key(s[j])
  }

  /** The elements of `s` whose key is `k`, in their order in `s`. */
  function WithKey<T>(s: seq<T>, key: T -> int, k: int): (r: seq<T>)
    ensures forall i :: 0 <= i < |r| ==> key(r[i]) == k && r[i] in s
    decreases |s|
  {
    if s == [] then []
    else
      var init := s[..|s| - 1];
      var r := WithKey(init, key, k) + (if key(s[|s| - 1]) == k then [s[|s| - 1]] else []);
      assert forall y :: y in init ==> y in s;
      r
  }

  lemma {:induction false} WithKeySnoc<T>(s: seq<T>, x: T, key: T -> int, k: int)
    ensures WithKey(s + [x], key, k) == WithKey(s, key, k) + (if key(x) == k then [x] else [])
  {
    assert (s + [x])[..|s|] == s;
  }

  /**
   * Places `x` into a key-ordered list after every element whose key is not
   * greater than its own.
   */
  function Insert<T>(r: seq<T>, x: T, key: T -> int): (out: seq<T>)
    requires SortedBy(r, key)
    ensures SortedBy(out, key)
    ensures forall i :: 0 <= i < |out| ==> out[i] == x || out[i] in r
    decreases |r|
  {
    if r == [] || key(r[|r| - 1]) <= key(x) then
      SortedSnoc(r, x, key);
      r + [x]
    else
      var init, last := r[..|r| - 1], r[|r| - 1];
      assert r == init + [last];
      var front := Insert(init, x, key);
      InsertBelowLast(r, front, x, key);
      SortedSnoc(front, last, key);
      front + [last]
  }

  /** Insert adds exactly `x`. */
  lemma {:induction false} InsertMultiset<T>(r: seq<T>, x: T, key: T -> int)
    requires SortedBy(r, key)
    ensures multiset(Insert(r, x, key)) == multiset(r) + multiset{x}
    decreases |r|
  {
    if !(r == [] || key(r[|r| - 1]) <= key(x)) {
      var init, last := r[..|r| - 1], r[|r| - 1];
      assert r == init + [last];
      InsertMultiset(init, x, key);
    }
  }

  /** Insert puts `x` after the elements whose key equals its own, and moves nothing else. */
  lemma {:induction false} InsertWithKey<T>(r: seq<T>, x: T, key: T -> int)
    requires SortedBy(r, key)
    ensures forall k :: WithKey(Insert(r, x, key), key, k) == WithKey(r, key, k) + (if key(x) == k then [x] else [])
    decreases |r|
  {
    if r == [] || key(r[|r| - 1]) <= key(x) {
      WithKeySnocAll(r, x, key);
    } else {
      var init, last := r[..|r| - 1], r[|r| - 1];
      assert r == init + [last];
      var front := Insert(init, x, key);
      InsertWithKey(init, x, key);
      assert Insert(r, x, key) == front + [last];
      forall k ensures WithKey(Insert(r, x, key), key, k) == WithKey(r, key, k) + (if key(x) == k then [x] else []) {
        WithKeySnoc(front, last, key, k);
        WithKeySnoc(init, last, key, k);
        var before := WithKey(init, key, k);
        var withX := if key(x) == k then [x] else [];
        var withLast := if key(last) == k then [last] else [];
        assert WithKey(Insert(r, x, key), key, k) == (before + withX) + withLast;
        assert WithKey(r, key, k) == before + withLast;
        // x's key is below last's, so at most one of the two is kept
        if key(x) == k {
          assert withLast == [] && before + withLast == before;
          assert (before + withX) + withLast == before + withX;
        } else {
          assert withX == [] && before + withX == before;
          assert (before + withLast) + withX == before + withLast;
        }
      }
    }
  }

  /** Helper for Insert: what is inserted in front of the last element keeps below its key. */
  lemma InsertBelowLast<T>(r: seq<T>, front: seq<T>, x: T, key: T -> int)
    requires SortedBy(r, key) && r != []
    requires key(x) < key(r[|r| - 1])
    requires forall i :: 0 <= i < |front| ==> front[i] == x || front[i] in r[..|r| - 1]
    ensures forall i :: 0 <= i < |front| ==> key(front[i]) <= key(r[|r| - 1])
  {
    forall i | 0 <= i < |front| ensures key(front[i]) <= key(r[|r| - 1]) {
      if front[i] != x {
        var j :| 0 <= j < |r| - 1 && r[..|r| - 1][j] == front[i];
        assert r[j] == front[i];
      }
    }
  }

  lemma SortedSnoc<T>(s: seq<T>, x: T, key: T -> int)
    requires SortedBy(s, key)
    requires forall i :: 0 <= i < |s| ==> key(s[i]) <= key(x)
    ensures SortedBy(s + [x], key)
  {
  }

  lemma WithKeySnocAll<T>(s: seq<T>, x: T, key: T -> int)
    ensures forall k :: WithKey(s + [x], key, k) == WithKey(s, key, k) + (if key(x) == k then [x] else [])
  {
    forall k ensures WithKey(s + [x], key, k) == WithKey(s, key, k) + (if key(x) == k then [x] else []) {
      WithKeySnoc(s, x, key, k);
    }
  }

  /** Stable sort by key (insertion sort, one element at a time). */
  function SortByKey<T>(s: seq<T>, key: T -> int): (r: seq<T>)
    ensures SortedBy(r, key)
    ensures multiset(r) == multiset(s)
    ensures forall k :: WithKey(r, key, k) == WithKey(s, key, k)
    decreases |s|
  {
    if s == [] then []
    else
      var init := s[..|s| - 1];
      assert s == init + [s[|s| - 1]];
      WithKeySnocAll(init, s[|s| - 1], key);
      InsertMultiset(SortByKey(init, key), s[|s| - 1], key);
      InsertWithKey(SortByKey(init, key), s[|s| - 1], key);
      Insert(SortByKey(init, key), s[|s| - 1], key)
  }

  lemma LastHasKey<T>(s: seq<T>, key: T -> int)
    requires s != []
    ensures WithKey(s, key, key(s[|s| - 1])) != []
  {
  }

  /**
   * Two key-ordered lists that agree, key by key, on which elements they hold
   * and in which order, are equal.
   */
  lemma {:induction false} SortedSameKeysEqual<T>(t: seq<T>, u: seq<T>, key: T -> int)
    requires SortedBy(t, key) && SortedBy(u, key)
    requires forall k :: WithKey(t, key, k) == WithKey(u, key, k)
    ensures t == u
    decreases |t| + |u|
  {
    if t == [] {
      if u != [] {
        LastHasKey(u, key);
      }
    } else if u == [] {
      LastHasKey(t, key);
    } else {
      var t', u' := t[..|t| - 1], u[..|u| - 1];
      SameLast(t, u, key);
      SplitLast(t);
      SplitLast(u);
      SameInit(t', u', t[|t| - 1], key);
      SortedSameKeysEqual(t', u', key);
    }
  }

  lemma SplitLast<T>(s: seq<T>)
    requires s != []
    ensures s == s[..|s| - 1] + [s[|s| - 1]]
  {
  }

  /** The largest key of each list occurs in the other one, so their last elements coincide. */
  lemma SameLast<T>(t: seq<T>, u: seq<T>, key: T -> int)
    requires t != [] && u != [] && SortedBy(t, key) && SortedBy(u, key)
    requires forall k :: WithKey(t, key, k) == WithKey(u, key, k)
    ensures t[|t| - 1] == u[|u| - 1]
  {
    var x, y := t[|t| - 1], u[|u| - 1];
    LastHasKey(t, key);
    LastHasKey(u, key);
    var wx, wy := WithKey(u, key, key(x)), WithKey(t, key, key(y));
    BelowLast(u, wx[0], key);
    BelowLast(t, wy[0], key);
    LastOfKey(t, u, key, key(x));
  }

  /** Lists whose last elements share key `k` and that agree on key `k` end alike. */
  lemma LastOfKey<T>(t: seq<T>, u: seq<T>, key: T -> int, k: int)
    requires t != [] && u != [] && key(t[|t| - 1]) == k && key(u[|u| - 1]) == k
    requires WithKey(t, key, k) == WithKey(u, key, k)
    ensures t[|t| - 1] == u[|u| - 1]
  {
    var t', x := t[..|t| - 1], t[|t| - 1];
    var u', y := u[..|u| - 1], u[|u| - 1];
    SplitLast(t);
    SplitLast(u);
    WithKeySnoc(t', x, key, k);
    WithKeySnoc(u', y, key, k);
    var l := WithKey(t, key, k);
    assert l[|l| - 1] == x;
  }

  lemma BelowLast<T>(s: seq<T>, e: T, key: T -> int)
    requires SortedBy(s, key) && e in s
    ensures key(e) <= key(s[|s| - 1])
  {
  }

  /** With the same last element, the lists before it still agree key by key. */
  lemma SameInit<T>(t: seq<T>, u: seq<T>, x: T, key: T -> int)
    requires forall k :: WithKey(t + [x], key, k) == WithKey(u + [x], key, k)
    ensures forall k :: WithKey(t, key, k) == WithKey(u, key, k)
  {
    forall k ensures WithKey(t, key, k) == WithKey(u, key, k) {
      WithKeySnoc(t, x, key, k);
      WithKeySnoc(u, x, key, k);
      if k == key(x) {
        CancelLast(WithKey(t, key, k), WithKey(u, key, k), x);
      } else {
        assert WithKey(t, key, k) == WithKey(t + [x], key, k);
        assert WithKey(u, key, k) == WithKey(u + [x], key, k);
      }
    }
  }

  lemma CancelLast<T>(a: seq<T>, b: seq<T>, x: T)
    requires a + [x] == b + [x]
    ensures a == b
  {
    assert a == (a + [x])[..|a|];
    assert b == (b + [x])[..|b|];
  }

  /** Any sort that is ordered by key and stable gives exactly SortByKey's result. */
  lemma StableSortUnique<T>(s: seq<T>, t: seq<T>, key: T -> int)
    requires SortedBy(t, key)
    requires forall k :: WithKey(t, key, k) == WithKey(s, key, k)
    ensures t == SortByKey(s, key)
  {
    SortedSameKeysEqual(t, SortByKey(s, key), key);
  }
}
