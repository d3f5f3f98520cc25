/** Sorting by an integer rank. The source sorts with `std::sort` under an
    order that ranks elements by an integer key; any arrangement sorted by
    the key is a correct outcome of `std::sort`, and a stable insertion sort
    yields one of them. */
module Sorting {

  /** No element is ranked below an element before it. */
  ghost predicate SortedBy<T>(s: seq<T>, key: T -> int)
  {
    forall i, j :: 0 <= i < j < |s| ==> key(s[i]) <= key(s[j])
  }

  /** Insert x in front of the first element ranked above it. */
  function Insert<T>(x: T, s: seq<T>, key: T -> int): (r: seq<T>)
    ensures multiset(r) == multiset(s) + multiset{x}
    ensures |r| == |s| + 1
  {
    if s == [] then [x]
    else if key(x) <= key(s[0]) then [x] + s
    else
      assert s == [s[0]] + s[1..];
      [s[0]] + Insert(x, s[1..], key)
  }

  /** Inserting into a sorted sequence keeps it sorted. */
  lemma {:induction false} InsertSorted<T>(x: T, s: seq<T>, key: T -> int)
    requires SortedBy(s, key)
    ensures SortedBy(Insert(x, s, key), key)
  {
    if s != [] && key(x) > key(s[0]) {
      var rest := Insert(x, s[1..], key);
      InsertSorted(x, s[1..], key);
      BoundedPermutation(rest, [x] + s[1..], key, key(s[0]));
      ConsSorted(s[0], rest, key);
    } else {
      forall k | 0 <= k < |s|
        ensures key(x) <= key(s[k])
      {
        assert key(s[0]) <= key(s[k]);
      }
      ConsSorted(x, s, key);
    }
  }

  /** An element ranked at most every element of a sorted sequence can go in front. */
  lemma ConsSorted<T>(x: T, s: seq<T>, key: T -> int)
    requires SortedBy(s, key)
    requires forall k :: 0 <= k < |s| ==> key(x) <= key(s[k])
    ensures SortedBy([x] + s, key)
  {
    var r := [x] + s;
    forall i, j | 0 <= i < j < |r|
      ensures key(r[i]) <= key(r[j])
    {
      assert r[j] == s[j - 1];
      if i > 0 {
        assert r[i] == s[i - 1];
      }
    }
  }

  /** A lower bound on the ranks of a sequence holds for any permutation of it. */
  lemma BoundedPermutation<T>(a: seq<T>, b: seq<T>, key: T -> int, lo: int)
    requires multiset(a) == multiset(b)
    requires forall k :: 0 <= k < |b| ==> lo <= key(b[k])
    ensures forall k :: 0 <= k < |a| ==> lo <= key(a[k])
  {
    forall k | 0 <= k < |a|
      ensures lo <= key(a[k])
    {
      assert a[k] in multiset(b);
      var m :| 0 <= m < |b| && b[m] == a[k];
    }
  }

  /** Insertion sort, stable, by the rank `key`. */
  function SortBy<T>(s: seq<T>, key: T -> int): (r: seq<T>)
    ensures SortedBy(r, key)
    ensures multiset(r) == multiset(s)
    ensures |r| == |s|
  {
    if s == [] then []
    else
      assert s == [s[0]] + s[1..];
      InsertSorted(s[0], SortBy(s[1..], key), key);
      Insert(s[0], SortBy(s[1..], key), key)
  }
}
