/**
 * The stable sort behind LINQ's `OrderBy` / `OrderByDescending`, over an
 * integer key: an insertion sort that puts each element in front of the first
 * element whose key is not smaller, so equal keys keep their input order.
 */
module StableSort {

  function Insert<T>(x: T, s: seq<T>, key: T -> int): seq<T> {
    if s == [] || key(x) <= key(s[0]) then [x] + s
    else [s[0]] + Insert(x, s[1..], key)
  }

  /** `s.OrderBy(key)`. */
  function SortBy<T>(s: seq<T>, key: T -> int): seq<T> {
    if s == [] then [] else Insert(s[0], SortBy(s[1..], key), key)
  }

  predicate Sorted<T>(s: seq<T>, key: T -> int) {
    forall i, j :: 0 <= i < j < |s| ==> key(s[i]) <= key(s[j])
  }

  /** The elements of `s` whose key is `k`, in the order of `s`. */
  function KeyFilter<T>(s: seq<T>, key: T -> int, k: int): (r: seq<T>)
    ensures |r| <= |s|
  {
    if s == [] then []
    else (if key(s[0]) == k then [s[0]] else []) + KeyFilter(s[1..], key, k)
  }

  lemma {:induction false} InsertMultiset<T>(x: T, s: seq<T>, key: T -> int)
    ensures multiset(Insert(x, s, key)) == multiset(s) + multiset{x}
    decreases |s|
  {
    if s != [] && key(x) > key(s[0]) {
      InsertMultiset(x, s[1..], key);
      assert s == [s[0]] + s[1..];
    }
  }

  lemma {:induction false} InsertSorted<T>(x: T, s: seq<T>, key: T -> int)
    requires Sorted(s, key)
    ensures Sorted(Insert(x, s, key), key)
    ensures |Insert(x, s, key)| == |s| + 1
    ensures Insert(x, s, key)[0] == x || Insert(x, s, key)[0] == s[0]
    decreases |s|
  {
    if s != [] && key(x) > key(s[0]) {
      InsertSorted(x, s[1..], key);
      var r := Insert(x, s[1..], key);
      assert key(s[0]) <= key(r[0]);
      var t := [s[0]] + r;
      forall i, j | 0 <= i < j < |t| ensures key(t[i]) <= key(t[j]) {
        if i == 0 && j > 1 { assert key(r[0]) <= key(r[j - 1]); }
      }
    }
  }

  lemma InsertProperties<T>(x: T, s: seq<T>, key: T -> int)
    requires Sorted(s, key)
    ensures Sorted(Insert(x, s, key), key)
    ensures multiset(Insert(x, s, key)) == multiset(s) + multiset{x}
  {
    InsertMultiset(x, s, key);
    InsertSorted(x, s, key);
  }

  /** Inserting `x` in front of every element whose key is not smaller keeps each key's elements in order. */
  lemma {:induction false} InsertKeyFilter<T>(x: T, s: seq<T>, key: T -> int, k: int)
    ensures KeyFilter(Insert(x, s, key), key, k) == (if key(x) == k then [x] else []) + KeyFilter(s, key, k)
    decreases |s|
  {
    if s == [] || key(x) <= key(s[0]) {
      assert ([x] + s)[1..] == s;
    } else {
      var rest := Insert(x, s[1..], key);
      InsertKeyFilter(x, s[1..], key, k);
      assert ([s[0]] + rest)[1..] == rest;
      assert KeyFilter(s, key, k) == (if key(s[0]) == k then [s[0]] else []) + KeyFilter(s[1..], key, k);
      // `x` and `s[0]` have different keys, so at most one of them is kept.
      assert key(s[0]) == k ==> key(x) != k;
    }
  }

  /**
   * `SortBy` sorts by ascending key, is a permutation of its input, and is
   * stable: the elements of any one key appear in their input order.
   */
  lemma {:induction false} SortByCorrect<T>(s: seq<T>, key: T -> int)
    ensures Sorted(SortBy(s, key), key)
    ensures multiset(SortBy(s, key)) == multiset(s)
    ensures forall k :: KeyFilter(SortBy(s, key), key, k) == KeyFilter(s, key, k)
    decreases |s|
  {
    if s != [] {
      SortByCorrect(s[1..], key);
      InsertProperties(s[0], SortBy(s[1..], key), key);
      assert s == [s[0]] + s[1..];
      forall k ensures KeyFilter(SortBy(s, key), key, k) == KeyFilter(s, key, k) {
        InsertKeyFilter(s[0], SortBy(s[1..], key), key, k);
      }
    }
  }

  /** Sorting does not change the length. */
  lemma SortByLength<T>(s: seq<T>, key: T -> int)
    ensures |SortBy(s, key)| == |s|
  {
    SortByCorrect(s, key);
    assert |multiset(SortBy(s, key))| == |multiset(s)|;
  }

  /** Sorting keeps exactly the elements of its input. */
  lemma SortByMembers<T>(s: seq<T>, key: T -> int)
    ensures |SortBy(s, key)| == |s|
    ensures forall x :: x in SortBy(s, key) <==> x in s
  {
    SortByCorrect(s, key);
    SortByLength(s, key);
    forall x ensures x in SortBy(s, key) <==> x in s {
      assert x in SortBy(s, key) <==> x in multiset(SortBy(s, key));
    }
  }
}
