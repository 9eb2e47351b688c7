/**
 * Python's `list.sort(key=...)`: a stable sort by a key. The key here is an
 * integer (a day number); the text key the scheduler actually uses orders
 * the same way (see DateText.TextOrderIsDayOrder).
 */
module Sorting {

  ghost predicate SortedBy<T>(s: seq<T>, key: T -> int) {
    forall i, j :: 0 <= i < j < |s| ==> key(s[i]) <= key(s[j])
  }

  /** The elements of s whose key is k, in their order in s. */
  function WithKey<T>(s: seq<T>, key: T -> int, k: int): seq<T> {
    if s == [] then []
    else (if key(s[0]) == k then [s[0]] else []) + WithKey(s[1..], key, k)
  }

  /** Inserts x before the first element whose key is not smaller. */
  function Insert<T>(x: T, s: seq<T>, key: T -> int): (r: seq<T>)
    ensures multiset(r) == multiset(s) + multiset{x}
  {
    if s == [] || key(x) <= key(s[0]) then [x] + s
    else
      assert s == [s[0]] + s[1..];
      [s[0]] + Insert(x, s[1..], key)
  }

  function SortByKey<T>(s: seq<T>, key: T -> int): (r: seq<T>)
    ensures multiset(r) == multiset(s)
  {
    if s == [] then []
    else
      assert s == [s[0]] + s[1..];
      Insert(s[0], SortByKey(s[1..], key), key)
  }

  /** Every element of Insert(x, s) is x or an element of s. */
  lemma InsertElements<T>(x: T, s: seq<T>, key: T -> int, b: int)
    requires key(x) >= b && forall i :: 0 <= i < |s| ==> key(s[i]) >= b
    ensures forall i :: 0 <= i < |Insert(x, s, key)| ==> key(Insert(x, s, key)[i]) >= b
  {
    var r := Insert(x, s, key);
    forall i | 0 <= i < |r| ensures key(r[i]) >= b {
      assert r[i] in multiset(r);
      assert r[i] == x || r[i] in multiset(s);
    }
  }

  lemma {:induction false} InsertSorted<T>(x: T, s: seq<T>, key: T -> int)
    requires SortedBy(s, key)
    ensures SortedBy(Insert(x, s, key), key)
  {
    if s == [] || key(x) <= key(s[0]) {
    } else {
      var rest := Insert(x, s[1..], key);
      InsertSorted(x, s[1..], key);
      InsertElements(x, s[1..], key, key(s[0]));
      var r := [s[0]] + rest;
      assert forall i :: 0 < i < |r| ==> r[i] == rest[i - 1];
    }
  }

  lemma {:induction false} InsertWithKey<T>(x: T, s: seq<T>, key: T -> int, k: int)
    ensures WithKey(Insert(x, s, key), key, k) == (if key(x) == k then [x] else []) + WithKey(s, key, k)
  {
    if s == [] || key(x) <= key(s[0]) {
      assert ([x] + s)[1..] == s;
    } else {
      var rest := Insert(x, s[1..], key);
      assert ([s[0]] + rest)[1..] == rest;
      InsertWithKey(x, s[1..], key, k);
    }
  }

  /** The sorted sequence is ordered by key. */
  lemma {:induction false} SortSorted<T>(s: seq<T>, key: T -> int)
    ensures SortedBy(SortByKey(s, key), key)
  {
    if s != [] {
      SortSorted(s[1..], key);
      InsertSorted(s[0], SortByKey(s[1..], key), key);
    }
  }

  /** Stability: elements with equal keys keep their original relative order. */
  lemma {:induction false} SortStable<T>(s: seq<T>, key: T -> int, k: int)
    ensures WithKey(SortByKey(s, key), key, k) == WithKey(s, key, k)
  {
    if s != [] {
      SortStable(s[1..], key, k);
      InsertWithKey(s[0], SortByKey(s[1..], key), key, k);
    }
  }
}
