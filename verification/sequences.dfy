/**
 * Generic sequence operations the selector is built from: the stable
 * descending sort that `Array.prototype.sort` performs with a `b - a`
 * style comparator, and the de-duplication of a `Set`, whose order is left
 * open because every caller sorts the result.
 */
module Sequences {

  /** The identity key, for sorting plain numbers. */
  function Id(x: int): int { x }

  /** Keys never increase from left to right. */
  ghost predicate SortedDesc<T>(s: seq<T>, key: T -> int) {
    forall i, j | 0 <= i < j < |s| :: key(s[i]) >= key(s[j])
  }

  /** Keys strictly decrease from left to right. */
  ghost predicate StrictlyDesc<T>(s: seq<T>, key: T -> int) {
    forall i, j | 0 <= i < j < |s| :: key(s[i]) > key(s[j])
  }

  /** No two positions carry the same key. */
  ghost predicate DistinctKeys<T>(s: seq<T>, key: T -> int) {
    forall i, j | 0 <= i < j < |s| :: key(s[i]) != key(s[j])
  }

  /** No two positions carry the same element. */
  ghost predicate NoDup<T>(s: seq<T>) {
    forall i, j | 0 <= i < j < |s| :: s[i] != s[j]
  }

  /** The elements of `s` whose key is `k`, in their order in `s`. */
  ghost function WithKey<T>(s: seq<T>, key: T -> int, k: int): seq<T> {
    if |s| == 0 then []
    else (if key(s[0]) == k then [s[0]] else []) + WithKey(s[1..], key, k)
  }

  /**
   * Inserts `x` into a descending sequence in front of the first element
   * whose key is not greater than its own, so that `x` precedes the elements
   * of equal key that come after it in the input.
   */
  function Insert<T>(x: T, s: seq<T>, key: T -> int): (r: seq<T>)
    requires SortedDesc(s, key)
    ensures SortedDesc(r, key)
    ensures multiset(r) == multiset(s) + multiset{x}
    decreases |s|
  {
    if |s| == 0 || key(s[0]) <= key(x) then [x] + s
    else
      var rest := Insert(x, s[1..], key);
      InsertKeysBounded(x, s, rest, key);
      ConsSorted(s[0], rest, key);
      assert s == [s[0]] + s[1..];
      [s[0]] + rest
  }

  /** Putting an element in front of a descending sequence of no greater keys keeps it descending. */
  lemma ConsSorted<T>(h: T, rest: seq<T>, key: T -> int)
    requires SortedDesc(rest, key)
    requires forall y | y in rest :: key(y) <= key(h)
    ensures SortedDesc([h] + rest, key)
  {
    var r := [h] + rest;
    forall i, j | 0 <= i < j < |r| ensures key(r[i]) >= key(r[j]) {
      assert r[j] == rest[j - 1] && r[j] in rest;
      if i > 0 {
        assert r[i] == rest[i - 1];
      }
    }
  }

  /** Putting an element in front of a sequence whose keys differ from its own keeps the keys distinct. */
  lemma ConsDistinct<T>(h: T, rest: seq<T>, key: T -> int)
    requires DistinctKeys(rest, key)
    requires forall y | y in rest :: key(y) != key(h)
    ensures DistinctKeys([h] + rest, key)
  {
    var r := [h] + rest;
    forall i, j | 0 <= i < j < |r| ensures key(r[i]) != key(r[j]) {
      assert r[j] == rest[j - 1] && r[j] in rest;
      if i > 0 {
        assert r[i] == rest[i - 1];
      }
    }
  }

  /** Every key of a rearrangement of `x` and the tail of `s` is at most the key of `s[0]`. */
  lemma InsertKeysBounded<T>(x: T, s: seq<T>, rest: seq<T>, key: T -> int)
    requires SortedDesc(s, key)
    requires |s| > 0 && key(s[0]) > key(x)
    requires multiset(rest) == multiset(s[1..]) + multiset{x}
    ensures forall y | y in rest :: key(y) <= key(s[0])
  {
    forall y | y in rest ensures key(y) <= key(s[0]) {
      assert y in multiset(rest);
      if y != x {
        assert y in multiset(s[1..]);
        var j :| 0 <= j < |s[1..]| && s[1..][j] == y;
        assert s[j + 1] == y;
      }
    }
  }

  /**
   * Stable sort into descending key order: `Array.prototype.sort` with the
   * comparator `(a, b) => key(b) - key(a)`.
   */
  function SortDesc<T>(s: seq<T>, key: T -> int): (r: seq<T>)
    ensures SortedDesc(r, key)
    ensures multiset(r) == multiset(s)
  {
    if |s| == 0 then []
    else
      assert s == [s[0]] + s[1..];
      Insert(s[0], SortDesc(s[1..], key), key)
  }

  /** Picking the elements of one key from `[h] + t`. */
  lemma WithKeyCons<T>(h: T, t: seq<T>, key: T -> int, k: int)
    ensures WithKey([h] + t, key, k) == (if key(h) == k then [h] else []) + WithKey(t, key, k)
  {
    var r := [h] + t;
    assert r[0] == h && r[1..] == t;
  }

  /** Inserting `x` adds it in front of the elements that share its key. */
  lemma {:induction false} InsertWithKey<T>(x: T, s: seq<T>, key: T -> int, k: int)
    requires SortedDesc(s, key)
    ensures WithKey(Insert(x, s, key), key, k)
         == (if key(x) == k then [x] else []) + WithKey(s, key, k)
    decreases |s|
  {
    if |s| == 0 || key(s[0]) <= key(x) {
      WithKeyCons(x, s, key, k);
    } else {
      var rest := Insert(x, s[1..], key);
      assert Insert(x, s, key) == [s[0]] + rest;
      WithKeyCons(s[0], rest, key, k);
      InsertWithKey(x, s[1..], key, k);
      WithKeyCons(s[0], s[1..], key, k);
      assert s == [s[0]] + s[1..];
      var tail := WithKey(s[1..], key, k);
      if key(s[0]) == k {
        assert key(x) != k;
        assert WithKey(Insert(x, s, key), key, k) == [s[0]] + tail;
      } else {
        assert WithKey(Insert(x, s, key), key, k) == WithKey(rest, key, k);
      }
    }
  }

  /** The sort is stable: elements of equal key keep their relative order. */
  lemma {:induction false} SortDescStable<T>(s: seq<T>, key: T -> int, k: int)
    ensures WithKey(SortDesc(s, key), key, k) == WithKey(s, key, k)
  {
    if |s| > 0 {
      SortDescStable(s[1..], key, k);
      InsertWithKey(s[0], SortDesc(s[1..], key), key, k);
    }
  }

  /** Inserting an element with a fresh key keeps the keys distinct. */
  lemma {:induction false} InsertKeepsDistinctKeys<T>(x: T, s: seq<T>, key: T -> int)
    requires SortedDesc(s, key) && DistinctKeys(s, key)
    requires forall y | y in s :: key(y) != key(x)
    ensures DistinctKeys(Insert(x, s, key), key)
    decreases |s|
  {
    if |s| > 0 && key(s[0]) > key(x) {
      InsertKeepsDistinctKeys(x, s[1..], key);
      var rest := Insert(x, s[1..], key);
      forall y | y in rest ensures key(y) != key(s[0]) {
        assert y in multiset(rest);
        if y != x {
          assert y in s[1..];
          var j :| 0 <= j < |s[1..]| && s[1..][j] == y;
          assert s[j + 1] == y;
        }
      }
      ConsDistinct(s[0], rest, key);
      assert Insert(x, s, key) == [s[0]] + rest;
    }
  }

  /** Sorting keeps keys distinct, so with distinct keys the order is strict. */
  lemma {:induction false} SortDescStrict<T>(s: seq<T>, key: T -> int)
    requires DistinctKeys(s, key)
    ensures DistinctKeys(SortDesc(s, key), key)
    ensures StrictlyDesc(SortDesc(s, key), key)
  {
    if |s| > 0 {
      var tail := SortDesc(s[1..], key);
      SortDescStrict(s[1..], key);
      forall y | y in tail ensures key(y) != key(s[0]) {
        assert y in multiset(tail);
        assert y in s[1..];
        var j :| 0 <= j < |s[1..]| && s[1..][j] == y;
        assert s[j + 1] == y;
      }
      InsertKeepsDistinctKeys(s[0], tail, key);
    }
  }

  /**
   * A strictly descending sequence is determined by its elements: two of
   * them holding the same elements are equal.
   */
  lemma {:induction false} StrictlyDescUnique<T>(a: seq<T>, b: seq<T>, key: T -> int)
    requires StrictlyDesc(a, key) && StrictlyDesc(b, key)
    requires forall x :: x in a <==> x in b
    ensures a == b
    decreases |a|
  {
    assert |a| > 0 ==> a[0] in b;
    assert |b| > 0 ==> b[0] in a;
    if |a| > 0 {
      assert a[0] in b;
      var j :| 0 <= j < |b| && b[j] == a[0];
      assert b[0] in a;
      var i :| 0 <= i < |a| && a[i] == b[0];
      var ka, kb := key(a[0]), key(b[0]);
      assert i == 0 || ka > kb;
      assert j == 0 || kb > ka;
      assert a[0] == b[0];
      forall x ensures x in a[1..] <==> x in b[1..] {
        if x in a[1..] {
          var p :| 0 <= p < |a[1..]| && a[1..][p] == x;
          assert a[p + 1] == x && key(x) < key(a[0]);
          assert x in b;
          var q :| 0 <= q < |b| && b[q] == x;
          assert q != 0;
          assert b[1..][q - 1] == x;
        }
        if x in b[1..] {
          var q :| 0 <= q < |b[1..]| && b[1..][q] == x;
          assert b[q + 1] == x && key(x) < key(b[0]);
          assert x in a;
          var p :| 0 <= p < |a| && a[p] == x;
          assert p != 0;
          assert a[1..][p - 1] == x;
        }
      }
      StrictlyDescUnique(a[1..], b[1..], key);
      assert a == [a[0]] + a[1..] && b == [b[0]] + b[1..];
    }
  }

  /** The elements of `s` that satisfy `p`, in order: `s.filter(p)`. */
  function Filter<T(!new)>(s: seq<T>, p: T -> bool): (r: seq<T>)
    ensures forall x :: x in r <==> x in s && p(x)
  {
    if |s| == 0 then []
    else
      var rest := Filter(s[1..], p);
      assert s == [s[0]] + s[1..];
      (if p(s[0]) then [s[0]] else []) + rest
  }

  /** Filtering keeps each satisfying element with its multiplicity and drops the others. */
  lemma {:induction false} FilterMultiset<T(!new)>(s: seq<T>, p: T -> bool)
    ensures forall x :: multiset(Filter(s, p))[x] == (if p(x) then multiset(s)[x] else 0)
  {
    if |s| > 0 {
      FilterMultiset(s[1..], p);
      assert s == [s[0]] + s[1..];
    }
  }

  /** Keeping only some elements keeps their keys distinct. */
  lemma {:induction false} FilterKeepsDistinctKeys<T(!new)>(s: seq<T>, p: T -> bool, key: T -> int)
    requires DistinctKeys(s, key)
    ensures DistinctKeys(Filter(s, p), key)
  {
    if |s| > 0 {
      var tail := s[1..];
      var rest := Filter(tail, p);
      FilterKeepsDistinctKeys(tail, p, key);
      forall y | y in rest ensures key(y) != key(s[0]) {
        var j :| 0 <= j < |tail| && tail[j] == y;
        assert s[j + 1] == y;
      }
      if p(s[0]) {
        ConsDistinct(s[0], rest, key);
        assert Filter(s, p) == [s[0]] + rest;
      } else {
        assert Filter(s, p) == rest;
      }
    }
  }

  /** Filtering commutes with picking the elements of one key, so filtering keeps order. */
  lemma {:induction false} FilterWithKey<T(!new)>(s: seq<T>, p: T -> bool, key: T -> int, k: int)
    ensures WithKey(Filter(s, p), key, k) == Filter(WithKey(s, key, k), p)
  {
    if |s| > 0 {
      FilterWithKey(s[1..], p, key, k);
      var rest := Filter(s[1..], p);
      var f := (if p(s[0]) then [s[0]] else []) + rest;
      assert Filter(s, p) == f;
      if p(s[0]) {
        assert f[0] == s[0] && f[1..] == rest;
      } else {
        assert f == rest;
      }
      var w := (if key(s[0]) == k then [s[0]] else []) + WithKey(s[1..], key, k);
      assert WithKey(s, key, k) == w;
      if key(s[0]) == k {
        assert w[0] == s[0] && w[1..] == WithKey(s[1..], key, k);
      } else {
        assert w == WithKey(s[1..], key, k);
      }
    }
  }

  /**
   * The distinct elements of `s`, each once: what `Array.from(new Set(s))`
   * returns. The contract states the elements and not their order, since
   * every caller sorts the result.
   */
  function Distinct<T(==,!new)>(s: seq<T>): (r: seq<T>)
    ensures forall x :: x in r <==> x in s
    ensures NoDup(r)
  {
    if |s| == 0 then []
    else
      var init := s[..|s| - 1];
      var last := s[|s| - 1];
      assert s == init + [last];
      var d := Distinct(init);
      if last in d then d else d + [last]
  }

  /** For numbers, distinct elements are distinct identity keys. */
  lemma NoDupDistinctKeys(s: seq<int>)
    requires NoDup(s)
    ensures DistinctKeys(s, Id)
  {
  }

  /**
   * `Array.from(new Set(s)).sort((a, b) => b - a)`: the distinct numbers of
   * `s`, largest first.
   */
  function DistinctDesc(s: seq<int>): (r: seq<int>)
    ensures forall x :: x in r <==> x in s
    ensures StrictlyDesc(r, Id)
  {
    var d := Distinct(s);
    NoDupDistinctKeys(d);
    SortDescStrict(d, Id);
    var r := SortDesc(d, Id);
    assert forall x :: x in r <==> x in multiset(d);
    r
  }

  /** `DistinctDesc` depends only on which numbers occur, not on order or repetition. */
  lemma DistinctDescSameElements(s: seq<int>, t: seq<int>)
    requires forall x :: x in s <==> x in t
    ensures DistinctDesc(s) == DistinctDesc(t)
  {
    var a, b := DistinctDesc(s), DistinctDesc(t);
    forall x ensures x in a <==> x in b {
      assert x in a <==> x in s;
      assert x in b <==> x in t;
    }
    StrictlyDescUnique(a, b, Id);
  }
}
