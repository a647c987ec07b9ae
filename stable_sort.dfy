/** `sorted(items, key=key, reverse=True)`: Python's sort is stable, so items with equal
    keys keep their input order. Modelled as an insertion sort. */
module StableSort {

  /** Non-increasing by `key`. */
  predicate SortedDesc<T>(s: seq<T>, key: T -> int) {
    forall i, j :: 0 <= i < j < |s| ==> key(s[i]) >= key(s[j])
  }

  /** The items of `s` whose key is `k`, in their order in `s`. */
  function KeyClass<T>(s: seq<T>, key: T -> int, k: int): seq<T> {
    if s == [] then [] else (if key(s[0]) == k then [s[0]] else []) + KeyClass(s[1..], key, k)
  }

  /** Inserts `x` before the first item whose key is not larger than its own. */
  function Insert<T(==)>(x: T, s: seq<T>, key: T -> int): (r: seq<T>)
    ensures |r| == |s| + 1
    ensures multiset(r) == multiset(s) + multiset{x}
  {
    if s == [] || key(x) >= key(s[0]) then
      [x] + s
    else
      assert s == [s[0]] + s[1..];
      [s[0]] + Insert(x, s[1..], key)
  }

  /** Inserting below a bound keeps every key below it. */
  lemma {:induction false} InsertBounded<T>(x: T, s: seq<T>, key: T -> int, b: int)
    requires key(x) <= b && forall i :: 0 <= i < |s| ==> key(s[i]) <= b
    ensures forall i :: 0 <= i < |Insert(x, s, key)| ==> key(Insert(x, s, key)[i]) <= b
  {
    var r := Insert(x, s, key);
    if s == [] || key(x) >= key(s[0]) {
      assert forall i :: 1 <= i < |r| ==> r[i] == s[i - 1];
    } else {
      InsertBounded(x, s[1..], key, b);
      var rest := Insert(x, s[1..], key);
      assert forall i :: 1 <= i < |r| ==> r[i] == rest[i - 1];
    }
  }

  lemma {:induction false} InsertSorted<T>(x: T, s: seq<T>, key: T -> int)
    requires SortedDesc(s, key)
    ensures SortedDesc(Insert(x, s, key), key)
  {
    var r := Insert(x, s, key);
    if s == [] || key(x) >= key(s[0]) {
      assert forall i :: 1 <= i < |r| ==> r[i] == s[i - 1];
    } else {
      InsertSorted(x, s[1..], key);
      var rest := Insert(x, s[1..], key);
      InsertBounded(x, s[1..], key, key(s[0]));
      assert forall i :: 1 <= i < |r| ==> r[i] == rest[i - 1];
    }
  }

  /** Items that share a key with `x` stay behind it, the others keep their order. */
  lemma {:induction false} InsertKeyClass<T>(x: T, s: seq<T>, key: T -> int, k: int)
    ensures KeyClass(Insert(x, s, key), key, k)
         == if key(x) == k then [x] + KeyClass(s, key, k) else KeyClass(s, key, k)
  {
    if s == [] || key(x) >= key(s[0]) {
      assert ([x] + s)[1..] == s;
    } else {
      var rest := Insert(x, s[1..], key);
      InsertKeyClass(x, s[1..], key, k);
      assert ([s[0]] + rest)[1..] == rest;
    }
  }

  /** The stable descending sort: sorted, a permutation, and equal keys in input order. */
  function SortDesc<T(==)>(s: seq<T>, key: T -> int): (r: seq<T>)
    ensures |r| == |s|
    ensures multiset(r) == multiset(s)
    ensures SortedDesc(r, key)
    ensures forall k :: KeyClass(r, key, k) == KeyClass(s, key, k)
  {
    if s == [] then []
    else
      assert s == [s[0]] + s[1..];
      var rest := SortDesc(s[1..], key);
      InsertSorted(s[0], rest, key);
      forall k ensures KeyClass(Insert(s[0], rest, key), key, k) == KeyClass(s, key, k) {
        InsertKeyClass(s[0], rest, key, k);
      }
      Insert(s[0], rest, key)
  }

  /** The items with key `k` among the first `n` of `s` are the first ones of that class. */
  lemma {:induction false} KeyClassOfPrefix<T>(s: seq<T>, n: nat, key: T -> int, k: int)
    requires n <= |s|
    ensures KeyClass(s[..n], key, k) <= KeyClass(s, key, k)
  {
    if n > 0 {
      KeyClassOfPrefix(s[1..], n - 1, key, k);
      assert s[..n][1..] == s[1..][..n - 1];
    }
  }
}
