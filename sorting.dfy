/** The two sorts src/index.rs calls: `Vec::sort` on keys and the stable
    `Vec::sort_by_key` on children. Both are modelled as one stable insertion
    sort by an integer key function; for keys the key function is the
    identity. */
module Sorting {

  /** s is in non-decreasing order of k. */
  predicate SortedBy<T>(s: seq<T>, k: T -> int) {
    forall i, j | 0 <= i < j < |s| :: k(s[i]) <= k(s[j])
  }

  /** s is in strictly increasing order of k. */
  predicate IncreasingBy<T>(s: seq<T>, k: T -> int) {
    forall i, j | 0 <= i < j < |s| :: k(s[i]) < k(s[j])
  }

  /** Inserts x after every leading element whose key is at most x's. */
  function InsertByKey<T>(s: seq<T>, x: T, k: T -> int): (r: seq<T>)
    ensures |r| == |s| + 1
    ensures multiset(r) == multiset(s) + multiset{x}
  {
    if s == [] || k(x) < k(s[0]) then [x] + s
    else
      assert s == [s[0]] + s[1..];
      [s[0]] + InsertByKey(s[1..], x, k)
  }

  /** Every element of InsertByKey(s, x, k) is x or an element of s. */
  lemma InsertedFrom<T>(s: seq<T>, x: T, k: T -> int, i: nat)
    requires i < |s| + 1
    ensures InsertByKey(s, x, k)[i] == x || InsertByKey(s, x, k)[i] in s
  {
    var r := InsertByKey(s, x, k);
    assert r[i] in multiset(r);
  }

  /** Insertion into a sorted sequence keeps it sorted. */
  lemma {:induction false} InsertSorted<T>(s: seq<T>, x: T, k: T -> int)
    requires SortedBy(s, k)
    ensures SortedBy(InsertByKey(s, x, k), k)
  {
    if s != [] && k(x) >= k(s[0]) {
      var rest := InsertByKey(s[1..], x, k);
      InsertSorted(s[1..], x, k);
      forall i | 0 <= i < |rest| ensures k(s[0]) <= k(rest[i]) {
        InsertedFrom(s[1..], x, k, i);
      }
    }
  }

  /** Insertion sort: each element goes after the equal-keyed ones already
      placed, which makes the sort stable (`SortStable`). */
  function SortByKey<T>(s: seq<T>, k: T -> int): (r: seq<T>)
    ensures |r| == |s|
    ensures multiset(r) == multiset(s)
    ensures SortedBy(r, k)
  {
    if s == [] then []
    else
      assert s == s[..|s| - 1] + [s[|s| - 1]];
      var sorted := SortByKey(s[..|s| - 1], k);
      InsertSorted(sorted, s[|s| - 1], k);
      InsertByKey(sorted, s[|s| - 1], k)
  }

  /** The elements of s whose key is v, in their order in s. */
  function WithKey<T>(s: seq<T>, k: T -> int, v: int): seq<T> {
    if s == [] then []
    else (if k(s[0]) == v then [s[0]] else []) + WithKey(s[1..], k, v)
  }

  lemma WithKeyCons<T>(x: T, s: seq<T>, k: T -> int, v: int)
    ensures WithKey([x] + s, k, v) == (if k(x) == v then [x] else []) + WithKey(s, k, v)
  {
    assert ([x] + s)[0] == x && ([x] + s)[1..] == s;
  }

  lemma {:induction false} WithKeyAppend<T>(a: seq<T>, b: seq<T>, k: T -> int, v: int)
    ensures WithKey(a + b, k, v) == WithKey(a, k, v) + WithKey(b, k, v)
  {
    if a == [] {
      assert a + b == b;
    } else {
      WithKeyAppend(a[1..], b, k, v);
      assert a + b == [a[0]] + (a[1..] + b);
      WithKeyCons(a[0], a[1..] + b, k, v);
      assert a == [a[0]] + a[1..];
      WithKeyCons(a[0], a[1..], k, v);
    }
  }

  lemma {:induction false} WithKeyNone<T>(s: seq<T>, k: T -> int, v: int)
    requires forall i | 0 <= i < |s| :: k(s[i]) > v
    ensures WithKey(s, k, v) == []
  {
    if s != [] {
      WithKeyNone(s[1..], k, v);
    }
  }

  /** Insertion into a sorted sequence places x after every element with
      the same key. */
  lemma {:induction false} InsertWithKey<T>(s: seq<T>, x: T, k: T -> int, v: int)
    requires SortedBy(s, k)
    ensures WithKey(InsertByKey(s, x, k), k, v) == WithKey(s, k, v) + (if k(x) == v then [x] else [])
  {
    var tail: seq<T> := if k(x) == v then [x] else [];
    if s == [] || k(x) < k(s[0]) {
      assert InsertByKey(s, x, k) == [x] + s;
      InsertInFront(s, x, k, v);
    } else {
      var rest := InsertByKey(s[1..], x, k);
      assert SortedBy(s[1..], k);
      InsertWithKey(s[1..], x, k, v);
      assert InsertByKey(s, x, k) == [s[0]] + rest;
      ConsStep(s[0], rest, s[1..], tail, k, v);
      HeadThenTail(s);
    }
  }

  /** x in front of elements with larger keys joins the end of its key's run. */
  lemma InsertInFront<T>(s: seq<T>, x: T, k: T -> int, v: int)
    requires forall i | 0 <= i < |s| :: k(s[i]) > k(x)
    ensures WithKey([x] + s, k, v) == WithKey(s, k, v) + (if k(x) == v then [x] else [])
  {
    WithKeyCons(x, s, k, v);
    if k(x) == v {
      WithKeyNone(s, k, v);
      assert [x] + [] == [] + [x];
    } else {
      assert [] + WithKey(s, k, v) == WithKey(s, k, v) + [];
    }
  }

  /** One element in front on both sides keeps a WithKey equation. */
  lemma ConsStep<T>(x: T, r: seq<T>, s: seq<T>, tail: seq<T>, k: T -> int, v: int)
    requires WithKey(r, k, v) == WithKey(s, k, v) + tail
    ensures WithKey([x] + r, k, v) == WithKey([x] + s, k, v) + tail
  {
    WithKeyCons(x, r, k, v);
    WithKeyCons(x, s, k, v);
    Associative(if k(x) == v then [x] else [], WithKey(s, k, v), tail);
  }

  lemma HeadThenTail<T>(s: seq<T>)
    requires s != []
    ensures [s[0]] + s[1..] == s
  {
  }

  lemma Associative<T>(a: seq<T>, b: seq<T>, c: seq<T>)
    ensures a + (b + c) == (a + b) + c
  {
  }

  /** `sort` and `sort_by_key` are stable: the elements with any one key keep
      their input order. */
  lemma {:induction false} SortStable<T>(s: seq<T>, k: T -> int, v: int)
    ensures WithKey(SortByKey(s, k), k, v) == WithKey(s, k, v)
  {
    if s != [] {
      var init, last := s[..|s| - 1], s[|s| - 1];
      SortStable(init, k, v);
      InsertWithKey(SortByKey(init, k), last, k, v);
      assert SortByKey(s, k) == InsertByKey(SortByKey(init, k), last, k);
      InitThenLast(s);
      WithKeyAppend(init, [last], k, v);
    }
  }

  /** An element whose key is at least every other key goes last. */
  lemma {:induction false} InsertAtEnd<T>(s: seq<T>, x: T, k: T -> int)
    requires forall i | 0 <= i < |s| :: k(s[i]) <= k(x)
    ensures InsertByKey(s, x, k) == s + [x]
  {
    if s != [] {
      InsertAtEnd(s[1..], x, k);
      assert s == [s[0]] + s[1..];
    }
  }

  /** Sorting a sorted sequence changes nothing. */
  lemma {:induction false} SortSorted<T>(s: seq<T>, k: T -> int)
    requires SortedBy(s, k)
    ensures SortByKey(s, k) == s
  {
    if s != [] {
      var init, last := s[..|s| - 1], s[|s| - 1];
      assert forall i | 0 <= i < |init| :: init[i] == s[i];
      assert SortedBy(init, k);
      SortSorted(init, k);
      assert forall i | 0 <= i < |init| :: k(init[i]) <= k(last);
      InsertAtEnd(init, last, k);
      assert SortByKey(s, k) == InsertByKey(init, last, k);
      InitThenLast(s);
    }
  }

  lemma InitThenLast<T>(s: seq<T>)
    requires s != []
    ensures s[..|s| - 1] + [s[|s| - 1]] == s
  {
  }

  /** `push` then `sort` on a sorted vector is an insertion into place. */
  lemma PushThenSort<T>(s: seq<T>, x: T, k: T -> int)
    requires SortedBy(s, k)
    ensures SortByKey(s + [x], k) == InsertByKey(s, x, k)
  {
    assert (s + [x])[..|s|] == s;
    SortSorted(s, k);
  }

  /** Inserting a new key into a strictly increasing sequence keeps it
      strictly increasing. */
  lemma {:induction false} InsertIncreasing<T>(s: seq<T>, x: T, k: T -> int)
    requires IncreasingBy(s, k)
    requires forall i | 0 <= i < |s| :: k(s[i]) != k(x)
    ensures IncreasingBy(InsertByKey(s, x, k), k)
  {
    if s != [] && k(x) >= k(s[0]) {
      var rest := InsertByKey(s[1..], x, k);
      InsertIncreasing(s[1..], x, k);
      forall i | 0 <= i < |rest| ensures k(s[0]) < k(rest[i]) {
        InsertedFrom(s[1..], x, k, i);
      }
    }
  }
}
