/** Inversion counting by merge sort: `merge`, `mergeInvCount` and
    `inversions` of src/util/Misc.h, over `int` elements. The arrays the
    source sorts in place are sequences here; each call returns the updated
    sequence together with its count. */
module Inversions {

  predicate Sorted(s: seq<int>)
  {
    forall i, j :: 0 <= i < j < |s| ==> s[i] <= s[j]
  }

  // ---------------------------------------------------------------------------
  // Reference counts

  /** The number of elements of a greater than y. */
  function Greater(a: seq<int>, y: int): nat
  {
    if a == [] then 0 else Greater(a[..|a| - 1], y) + (if a[|a| - 1] > y then 1 else 0)
  }

  /** The number of pairs (x in a, y in b) with x > y: the inversions between
      a left part a and a right part b. */
  function Cross(a: seq<int>, b: seq<int>): nat
  {
    if b == [] then 0 else Cross(a, b[..|b| - 1]) + Greater(a, b[|b| - 1])
  }

  /** The number of pairs i < j with s[i] > s[j]: each element is counted
      against the elements before it. */
  function Inv(s: seq<int>): nat
  {
    if s == [] then 0 else Inv(s[..|s| - 1]) + Greater(s[..|s| - 1], s[|s| - 1])
  }

  // ---------------------------------------------------------------------------
  // Facts about the counts

  lemma {:induction false} GreaterAppend(p: seq<int>, q: seq<int>, y: int)
    ensures Greater(p + q, y) == Greater(p, y) + Greater(q, y)
    decreases |q|
  {
    if q != [] {
      var q0 := q[..|q| - 1];
      assert (p + q)[..|p + q| - 1] == p + q0;
      assert (p + q)[|p + q| - 1] == q[|q| - 1];
      GreaterAppend(p, q0, y);
    } else {
      assert p + q == p;
    }
  }

  /** Taking one element out of a sequence. */
  lemma GreaterRemove(a: seq<int>, k: nat, y: int)
    requires k < |a|
    ensures Greater(a, y) == Greater(a[..k] + a[k + 1..], y) + (if a[k] > y then 1 else 0)
  {
    assert a == a[..k] + ([a[k]] + a[k + 1..]);
    GreaterAppend(a[..k], [a[k]] + a[k + 1..], y);
    GreaterAppend([a[k]], a[k + 1..], y);
    GreaterAppend(a[..k], a[k + 1..], y);
  }

  /** Removing the last element of a and a matching element of its
      permutation a2 leaves permutations. */
  lemma RemoveMatching(a: seq<int>, a2: seq<int>, k: nat)
    requires a != [] && multiset(a) == multiset(a2)
    requires k < |a2| && a2[k] == a[|a| - 1]
    ensures multiset(a[..|a| - 1]) == multiset(a2[..k] + a2[k + 1..])
  {
    var z := a[|a| - 1];
    var a0 := a[..|a| - 1];
    var p, q := a2[..k], a2[k + 1..];
    assert a == a0 + [z];
    assert a2 == p + [z] + q;
    assert multiset(a) == multiset(a0) + multiset{z};
    assert multiset(a2) == multiset(p) + multiset{z} + multiset(q);
    assert multiset(p + q) == multiset(p) + multiset(q);
    assert multiset(a0) == multiset(a) - multiset{z};
    assert multiset(p + q) == multiset(a2) - multiset{z};
  }

  /** `Greater` depends only on the multiset of elements. */
  lemma {:induction false} GreaterPerm(a: seq<int>, a2: seq<int>, y: int)
    requires multiset(a) == multiset(a2)
    ensures Greater(a, y) == Greater(a2, y)
    decreases |a|
  {
    if a != [] {
      var z := a[|a| - 1];
      var a0 := a[..|a| - 1];
      assert a == a0 + [z];
      assert z in multiset(a2);
      var k :| 0 <= k < |a2| && a2[k] == z;
      var rest := a2[..k] + a2[k + 1..];
      RemoveMatching(a, a2, k);
      GreaterPerm(a0, rest, y);
      GreaterRemove(a2, k, y);
    } else {
      assert a2 == [];
    }
  }

  lemma {:induction false} CrossAppend(a: seq<int>, p: seq<int>, q: seq<int>)
    ensures Cross(a, p + q) == Cross(a, p) + Cross(a, q)
    decreases |q|
  {
    if q != [] {
      var q0 := q[..|q| - 1];
      assert (p + q)[..|p + q| - 1] == p + q0;
      assert (p + q)[|p + q| - 1] == q[|q| - 1];
      CrossAppend(a, p, q0);
    } else {
      assert p + q == p;
    }
  }

  lemma {:induction false} CrossPermLeft(a: seq<int>, a2: seq<int>, b: seq<int>)
    requires multiset(a) == multiset(a2)
    ensures Cross(a, b) == Cross(a2, b)
    decreases |b|
  {
    if b != [] {
      CrossPermLeft(a, a2, b[..|b| - 1]);
      GreaterPerm(a, a2, b[|b| - 1]);
    }
  }

  lemma {:induction false} CrossPermRight(a: seq<int>, b: seq<int>, b2: seq<int>)
    requires multiset(b) == multiset(b2)
    ensures Cross(a, b) == Cross(a, b2)
    decreases |b|
  {
    if b != [] {
      var z := b[|b| - 1];
      var b0 := b[..|b| - 1];
      assert b == b0 + [z];
      assert z in multiset(b2);
      var k :| 0 <= k < |b2| && b2[k] == z;
      var rest := b2[..k] + b2[k + 1..];
      assert b2 == b2[..k] + ([z] + b2[k + 1..]);
      RemoveMatching(b, b2, k);
      CrossPermRight(a, b0, rest);
      CrossAppend(a, b2[..k], [z] + b2[k + 1..]);
      CrossAppend(a, [z], b2[k + 1..]);
      CrossAppend(a, b2[..k], b2[k + 1..]);
      assert Cross(a, [z]) == Greater(a, z) by {
        assert [z][..0] == [];
      }
    } else {
      assert b2 == [];
    }
  }

  /** The inversions of a concatenation: those inside each part plus those
      across. */
  lemma {:induction false} InvAppend(a: seq<int>, b: seq<int>)
    ensures Inv(a + b) == Inv(a) + Inv(b) + Cross(a, b)
    decreases |b|
  {
    if b != [] {
      var b0 := b[..|b| - 1];
      var y := b[|b| - 1];
      assert (a + b)[..|a + b| - 1] == a + b0;
      assert (a + b)[|a + b| - 1] == y;
      InvAppend(a, b0);
      GreaterAppend(a, b0, y);
      assert Inv(a + b) == Inv(a + b0) + Greater(a + b0, y);
      assert Inv(b) == Inv(b0) + Greater(b0, y);
      assert Cross(a, b) == Cross(a, b0) + Greater(a, y);
    } else {
      assert a + b == a;
    }
  }

  /** In a sorted sequence, the elements greater than y are those from the
      first one above y on. */
  lemma {:induction false} GreaterSplit(a: seq<int>, y: int, i: nat)
    requires i <= |a|
    requires forall k :: 0 <= k < i ==> a[k] <= y
    requires forall k :: i <= k < |a| ==> a[k] > y
    ensures Greater(a, y) == |a| - i
    decreases |a|
  {
    if a != [] {
      if i < |a| {
        GreaterSplit(a[..|a| - 1], y, i);
      } else {
        GreaterSplit(a[..|a| - 1], y, i - 1);
      }
    }
  }

  /** No inversions across when everything on the left is at most everything on the right. */
  lemma {:induction false} CrossOrdered(a: seq<int>, b: seq<int>)
    requires forall i, j :: 0 <= i < |a| && 0 <= j < |b| ==> a[i] <= b[j]
    ensures Cross(a, b) == 0
    decreases |b|
  {
    if b != [] {
      CrossOrdered(a, b[..|b| - 1]);
      GreaterSplit(a, b[|b| - 1], |a|);
    }
  }

  /** A sorted sequence has no inversions. */
  lemma {:induction false} SortedNoInversions(s: seq<int>)
    requires Sorted(s)
    ensures Inv(s) == 0
    decreases |s|
  {
    if s != [] {
      SortedNoInversions(s[..|s| - 1]);
      GreaterSplit(s[..|s| - 1], s[|s| - 1], |s| - 1);
    }
  }

  /** A strictly descending sequence of n elements has n(n-1)/2 inversions:
      every pair. */
  lemma {:induction false} DescendingAllInversions(s: seq<int>)
    requires forall i, j :: 0 <= i < j < |s| ==> s[i] > s[j]
    ensures Inv(s) * 2 == |s| * (|s| - 1)
    decreases |s|
  {
    if s != [] {
      var n := |s|;
      DescendingAllInversions(s[..n - 1]);
      GreaterSplit(s[..n - 1], s[n - 1], 0);
    }
  }

  // ---------------------------------------------------------------------------
  // merge

  lemma SortedAppend(p: seq<int>, q: seq<int>)
    requires Sorted(p) && Sorted(q)
    requires forall i, j :: 0 <= i < |p| && 0 <= j < |q| ==> p[i] <= q[j]
    ensures Sorted(p + q)
  {
  }

  /** The state of `merge`'s loop after taking i elements of a and j of b:
      the output is sorted, holds exactly those elements, and none of them
      exceeds what is left; every left element taken is at most the next
      right element; the count covers the right elements taken. */
  predicate MergeState(a: seq<int>, b: seq<int>, i: nat, j: nat, out: seq<int>, count: nat)
  {
    && i <= |a| && j <= |b|
    && |out| == i + j
    && multiset(out) == multiset(a[..i]) + multiset(b[..j])
    && Sorted(out)
    && (forall k :: 0 <= k < |out| ==> (i < |a| ==> out[k] <= a[i]) && (j < |b| ==> out[k] <= b[j]))
    && (j < |b| ==> forall k :: 0 <= k < i ==> a[k] <= b[j])
    && count == Cross(a, b[..j])
  }

  lemma TakeLeft(a: seq<int>, b: seq<int>, i: nat, j: nat, out: seq<int>, count: nat)
    requires Sorted(a) && Sorted(b) && MergeState(a, b, i, j, out, count)
    requires i < |a| && j < |b| && a[i] <= b[j]
    ensures MergeState(a, b, i + 1, j, out + [a[i]], count)
  {
    assert a[..i + 1] == a[..i] + [a[i]];
  }

  lemma TakeRight(a: seq<int>, b: seq<int>, i: nat, j: nat, out: seq<int>, count: nat)
    requires Sorted(a) && Sorted(b) && MergeState(a, b, i, j, out, count)
    requires i < |a| && j < |b| && a[i] > b[j]
    ensures MergeState(a, b, i, j + 1, out + [b[j]], count + (|a| - i))
  {
    assert b[..j + 1] == b[..j] + [b[j]];
    assert b[..j + 1][..j] == b[..j];
    GreaterSplit(a, b[j], i);
  }

  /** Copying what is left of either run finishes the merge. */
  lemma FinishMerge(a: seq<int>, b: seq<int>, i: nat, j: nat, out: seq<int>, count: nat)
    requires Sorted(a) && Sorted(b) && MergeState(a, b, i, j, out, count)
    requires i == |a| || j == |b|
    ensures var res := out + a[i..] + b[j..];
      Sorted(res) && |res| == |a| + |b| && multiset(res) == multiset(a) + multiset(b) && count == Cross(a, b)
  {
    if j == |b| {
      FinishLeft(a, b, i, out, count);
      EmptyRest(out + a[i..], [], b, j);
    } else {
      FinishRight(a, b, j, out, count);
      EmptyRest(out, b[j..], a, i);
    }
  }

  /** Appending the rest of a run that has been taken entirely adds nothing. */
  lemma EmptyRest(p: seq<int>, q: seq<int>, r: seq<int>, k: nat)
    requires k == |r|
    ensures p + r[k..] + q == p + q
  {
    assert r[k..] == [];
  }

  lemma FinishLeft(a: seq<int>, b: seq<int>, i: nat, out: seq<int>, count: nat)
    requires Sorted(a) && Sorted(b) && MergeState(a, b, i, |b|, out, count)
    ensures var res := out + a[i..];
      Sorted(res) && |res| == |a| + |b| && multiset(res) == multiset(a) + multiset(b) && count == Cross(a, b)
  {
    assert b[..|b|] == b;
    AppendRest(a, i, out, multiset(b));
  }

  lemma FinishRight(a: seq<int>, b: seq<int>, j: nat, out: seq<int>, count: nat)
    requires Sorted(a) && Sorted(b) && MergeState(a, b, |a|, j, out, count)
    ensures var res := out + b[j..];
      Sorted(res) && |res| == |a| + |b| && multiset(res) == multiset(a) + multiset(b) && count == Cross(a, b)
  {
    assert a[..|a|] == a;
    AppendRest(b, j, out, multiset(a));
    CrossRest(a, b, j);
  }

  /** Appending the rest of a sorted run from i on to a sorted output whose
      elements are at most the run's next one keeps it sorted and completes
      the run's elements. */
  lemma AppendRest(a: seq<int>, i: nat, out: seq<int>, others: multiset<int>)
    requires i <= |a| && Sorted(a) && Sorted(out)
    requires i < |a| ==> forall k :: 0 <= k < |out| ==> out[k] <= a[i]
    requires multiset(out) == multiset(a[..i]) + others
    ensures Sorted(out + a[i..])
    ensures multiset(out + a[i..]) == multiset(a) + others
  {
    assert a[..i] + a[i..] == a;
    var rest := a[i..];
    forall x, y | 0 <= x < |out| && 0 <= y < |rest|
      ensures out[x] <= rest[y]
    {
      assert a[i] <= a[i + y];
    }
    SortedAppend(out, rest);
  }

  /** The elements of a sorted run b from j on are at least every left
      element when b[j] is, so they add no inversions. */
  lemma CrossRest(a: seq<int>, b: seq<int>, j: nat)
    requires j <= |b| && Sorted(b)
    requires j < |b| ==> forall k :: 0 <= k < |a| ==> a[k] <= b[j]
    ensures Cross(a, b) == Cross(a, b[..j])
  {
    assert b[..j] + b[j..] == b;
    var rest := b[j..];
    if j < |b| {
      forall x, y | 0 <= x < |a| && 0 <= y < |rest|
        ensures a[x] <= rest[y]
      {
        assert b[j] <= b[j + y];
      }
      CrossOrdered(a, rest);
    } else {
      assert rest == [];
      CrossOrdered(a, rest);
    }
    CrossAppend(a, b[..j], rest);
  }

  /** `merge` on the two sorted runs a and b: the merged run, and the number
      of left elements still waiting, summed over every right element taken
      before them. That sum is the number of inversions across the runs;
      equal elements are taken from the left and never counted. */
  method Merge(a: seq<int>, b: seq<int>) returns (out: seq<int>, count: nat)
    requires Sorted(a) && Sorted(b)
    ensures Sorted(out)
    ensures |out| == |a| + |b|
    ensures multiset(out) == multiset(a) + multiset(b)
    ensures count == Cross(a, b)
  {
    var i, j := 0, 0;
    out, count := [], 0;
    while i < |a| && j < |b|
      invariant MergeState(a, b, i, j, out, count)
      decreases |a| - i + |b| - j
    {
      if a[i] <= b[j] {
        TakeLeft(a, b, i, j, out, count);
        out := out + [a[i]];
        i := i + 1;
      } else {
        TakeRight(a, b, i, j, out, count);
        count := count + (|a| - i);
        out := out + [b[j]];
        j := j + 1;
      }
    }
    FinishMerge(a, b, i, j, out, count);
    out := out + a[i..] + b[j..];
  }

  /** res is lst with the range [l, r] sorted in place: the range holds the
      same elements in ascending order and nothing outside it changed. */
  predicate SortsRange(lst: seq<int>, res: seq<int>, l: nat, r: nat)
  {
    && l <= r < |lst|
    && |res| == |lst|
    && res[..l] == lst[..l] && res[r + 1..] == lst[r + 1..]
    && Sorted(res[l..r + 1])
    && multiset(res[l..r + 1]) == multiset(lst[l..r + 1])
  }

  /** `merge(lst, tmpLst, l, m, r)`: merges the sorted runs lst[l..m) and
      lst[m..r] in place, returning the inversions across them. */
  method MergeRange(lst: seq<int>, l: nat, m: nat, r: nat) returns (res: seq<int>, count: nat)
    requires l < m <= r < |lst|
    requires Sorted(lst[l..m]) && Sorted(lst[m..r + 1])
    ensures SortsRange(lst, res, l, r)
    ensures count == Cross(lst[l..m], lst[m..r + 1])
  {
    var merged;
    merged, count := Merge(lst[l..m], lst[m..r + 1]);
    res := lst[..l] + merged + lst[r + 1..];
    assert lst[l..r + 1] == lst[l..m] + lst[m..r + 1];
    assert res[l..r + 1] == merged;
    assert res[..l] == lst[..l];
    assert res[r + 1..] == lst[r + 1..];
  }

  /** `mergeInvCount(lst, tmpLst, l, r)`: sorts lst[l..r] in place and
      returns the number of inversions it held. */
  method MergeInvCount(lst: seq<int>, l: nat, r: nat) returns (res: seq<int>, count: nat)
    requires l <= r < |lst|
    ensures SortsRange(lst, res, l, r)
    ensures count == Inv(lst[l..r + 1])
    decreases r - l
  {
    if l == r {
      SingleRange(lst, l);
      return lst, 0;
    }
    var m := (r + l) / 2;
    var res1, c1 := MergeInvCount(lst, l, m);
    var res2, c2 := MergeInvCount(res1, m + 1, r);
    var c3;
    HalvesSorted(lst, res1, res2, l, m, r);
    res, c3 := MergeRange(res2, l, m + 1, r);
    count := c1 + c2 + c3;
    Combine(lst, res1, res2, res, l, m, r, c1, c2, c3);
  }

  /** A range of one element is sorted and has no inversions. */
  lemma SingleRange(lst: seq<int>, l: nat)
    requires l < |lst|
    ensures SortsRange(lst, lst, l, l) && Inv(lst[l..l + 1]) == 0
  {
    assert lst[l..l + 1][..0] == [];
  }

  /** The left half sorted by the first call stays sorted through the second. */
  lemma HalvesSorted(lst: seq<int>, res1: seq<int>, res2: seq<int>, l: nat, m: nat, r: nat)
    requires l <= m < r
    requires SortsRange(lst, res1, l, m) && SortsRange(res1, res2, m + 1, r)
    ensures Sorted(res2[l..m + 1]) && Sorted(res2[m + 1..r + 1])
  {
    assert res2[l..m + 1] == res2[..m + 1][l..];
    assert res1[l..m + 1] == res1[..m + 1][l..];
  }

  /** After the two recursive calls, the halves hold the original halves'
      elements, the right half's count is taken on the original right half,
      and nothing outside [l, r] has moved. */
  lemma Halves(lst: seq<int>, res1: seq<int>, res2: seq<int>, l: nat, m: nat, r: nat)
    requires l <= m < r
    requires SortsRange(lst, res1, l, m) && SortsRange(res1, res2, m + 1, r)
    ensures multiset(res2[l..m + 1]) == multiset(lst[l..m + 1])
    ensures multiset(res2[m + 1..r + 1]) == multiset(lst[m + 1..r + 1])
    ensures res1[m + 1..r + 1] == lst[m + 1..r + 1]
    ensures res2[..l] == lst[..l] && res2[r + 1..] == lst[r + 1..]
  {
    assert res2[l..m + 1] == res2[..m + 1][l..];
    assert res1[l..m + 1] == res1[..m + 1][l..];
    assert res1[m + 1..r + 1] == lst[m + 1..r + 1] by {
      assert res1[m + 1..r + 1] == res1[m + 1..][..r - m];
      assert lst[m + 1..r + 1] == lst[m + 1..][..r - m];
    }
    assert res2[..l] == res2[..m + 1][..l];
    assert res1[..l] == res1[..m + 1][..l];
    assert res2[r + 1..] == lst[r + 1..] by {
      assert res1[r + 1..] == res1[m + 1..][r - m..];
      assert lst[r + 1..] == lst[m + 1..][r - m..];
    }
  }

  /** The merged range holds the original range's elements, sorted, and the
      three counts add up to the original range's inversions. */
  lemma Combine(lst: seq<int>, res1: seq<int>, res2: seq<int>, res: seq<int>, l: nat, m: nat, r: nat, c1: nat, c2: nat, c3: nat)
    requires l <= m < r
    requires SortsRange(lst, res1, l, m) && SortsRange(res1, res2, m + 1, r) && SortsRange(res2, res, l, r)
    requires c1 == Inv(lst[l..m + 1]) && c2 == Inv(res1[m + 1..r + 1])
    requires c3 == Cross(res2[l..m + 1], res2[m + 1..r + 1])
    ensures SortsRange(lst, res, l, r)
    ensures c1 + c2 + c3 == Inv(lst[l..r + 1])
  {
    Halves(lst, res1, res2, l, m, r);
    CountOfHalves(lst, res2, l, m, r, c1, c2, c3);
    JoinHalves(lst, res2, l, m, r);
  }

  /** The three counts add up to the inversions of the whole range. */
  lemma CountOfHalves(lst: seq<int>, res2: seq<int>, l: nat, m: nat, r: nat, c1: nat, c2: nat, c3: nat)
    requires l <= m < r < |lst| && |res2| == |lst|
    requires multiset(res2[l..m + 1]) == multiset(lst[l..m + 1])
    requires multiset(res2[m + 1..r + 1]) == multiset(lst[m + 1..r + 1])
    requires c1 == Inv(lst[l..m + 1]) && c2 == Inv(lst[m + 1..r + 1])
    requires c3 == Cross(res2[l..m + 1], res2[m + 1..r + 1])
    ensures c1 + c2 + c3 == Inv(lst[l..r + 1])
  {
    CrossPermLeft(res2[l..m + 1], lst[l..m + 1], res2[m + 1..r + 1]);
    CrossPermRight(lst[l..m + 1], res2[m + 1..r + 1], lst[m + 1..r + 1]);
    assert lst[l..r + 1] == lst[l..m + 1] + lst[m + 1..r + 1];
    InvAppend(lst[l..m + 1], lst[m + 1..r + 1]);
  }

  lemma JoinHalves(lst: seq<int>, res2: seq<int>, l: nat, m: nat, r: nat)
    requires l <= m < r < |lst| && |res2| == |lst|
    requires multiset(res2[l..m + 1]) == multiset(lst[l..m + 1])
    requires multiset(res2[m + 1..r + 1]) == multiset(lst[m + 1..r + 1])
    ensures multiset(res2[l..r + 1]) == multiset(lst[l..r + 1])
  {
    assert lst[l..r + 1] == lst[l..m + 1] + lst[m + 1..r + 1];
    assert res2[l..r + 1] == res2[l..m + 1] + res2[m + 1..r + 1];
  }

  lemma OneInversion(x: int, y: int)
    ensures Inv([x]) == 0
    ensures Greater([x], y) == (if x > y then 1 else 0)
  {
    assert [x][..0] == [];
  }

  /** The unrolled cases of `inversions` count the pairs directly. */
  lemma SmallInversions(v: seq<int>)
    ensures |v| < 2 ==> Inv(v) == 0
    ensures |v| == 2 ==> Inv(v) == (if v[1] < v[0] then 1 else 0)
    ensures |v| == 3 ==> Inv(v) == (if v[0] > v[1] then 1 else 0) + (if v[0] > v[2] then 1 else 0) + (if v[1] > v[2] then 1 else 0)
  {
    if |v| == 1 {
      assert v[..0] == [];
    } else if |v| == 2 {
      OneInversion(v[0], v[1]);
      assert v[..1] == [v[0]];
      assert Inv(v) == Inv([v[0]]) + Greater([v[0]], v[1]);
    } else if |v| == 3 {
      OneInversion(v[0], v[1]);
      OneInversion(v[0], v[2]);
      assert v[..2] == [v[0], v[1]];
      assert [v[0], v[1]][..1] == [v[0]];
      assert Inv(v) == Inv([v[0], v[1]]) + Greater([v[0], v[1]], v[2]);
      assert Greater([v[0], v[1]], v[2]) == Greater([v[0]], v[2]) + (if v[1] > v[2] then 1 else 0);
      assert Inv([v[0], v[1]]) == Inv([v[0]]) + Greater([v[0]], v[1]);
    }
  }

  /** `inversions(v)`: the small cases unrolled, the rest by `mergeInvCount`. */
  method Inversions(v: seq<int>) returns (n: nat)
    ensures n == Inv(v)
  {
    if |v| < 2 {
      SmallInversions(v);
      return 0;
    }
    if |v| == 2 {
      SmallInversions(v);
      return if v[1] < v[0] then 1 else 0;
    }
    if |v| == 3 {
      SmallInversions(v);
      return (if v[0] > v[1] then 1 else 0) + (if v[0] > v[2] then 1 else 0) + (if v[1] > v[2] then 1 else 0);
    }
    var sorted;
    sorted, n := MergeInvCount(v, 0, |v| - 1);
    assert v[0..|v|] == v;
  }

  // ---------------------------------------------------------------------------
  // The return type of `merge`

  const Two31: nat := 0x8000_0000
  const Two32: nat := 0x1_0000_0000
  const Two64: nat := 0x1_0000_0000_0000_0000

  /** The `size_t` count converted to the `int` that `merge` returns. */
  function ToInt32(c: nat): (v: int)
    ensures -(Two31 as int) <= v < Two31
    ensures (v - c) % Two32 == 0
  {
    var w := c % Two32;
    if w >= Two31 then w - Two32 else w
  }

  /** `size_t += int`: the int converted modulo 2^64 and added with wrap-around. */
  function AddToSize(acc: nat, v: int): nat
  {
    (acc + v % Two64) % Two64
  }

  /** `mergeInvCount` as written, with `merge` returning `int`. The count a
      merge computes depends only on the elements of the two halves
      (`CrossPermLeft`, `CrossPermRight`), so it is taken from the halves as
      they were before sorting. */
  function MergeInvCountAsWritten(s: seq<int>, l: nat, r: nat): nat
    requires l <= r < |s|
    decreases r - l, 1
  {
    if l < r then SplitCountAsWritten(s, l, r) else 0
  }

  /** The body of `mergeInvCount` as written for a range of two or more
      elements: count both halves, then add what merging them returns. */
  function SplitCountAsWritten(s: seq<int>, l: nat, r: nat): nat
    requires l < r < |s|
    decreases r - l, 0
  {
    var m := (r + l) / 2;
    var ret := AddToSize(0, MergeInvCountAsWritten(s, l, m));
    var ret2 := AddToSize(ret, MergeInvCountAsWritten(s, m + 1, r));
    AddToSize(ret2, ToInt32(Cross(s[l..m + 1], s[m + 1..r + 1]) % Two64))
  }

  /** `inversions` as written. */
  function InversionsAsWritten(v: seq<int>): nat
  {
    if |v| < 2 then 0
    else if |v| == 2 then (if v[1] < v[0] then 1 else 0)
    else if |v| == 3 then (if v[0] > v[1] then 1 else 0) + (if v[0] > v[2] then 1 else 0) + (if v[1] > v[2] then 1 else 0)
    else MergeInvCountAsWritten(v, 0, |v| - 1)
  }

  /** On a range holding one value throughout every merge counts nothing,
      so the as-written count is 0. */
  lemma {:induction false} AsWrittenConstant(s: seq<int>, l: nat, r: nat, c: int)
    requires l <= r < |s|
    requires forall i :: l <= i <= r ==> s[i] == c
    ensures MergeInvCountAsWritten(s, l, r) == 0
    decreases r - l
  {
    if l < r {
      var m := (r + l) / 2;
      ConstantCross(s, l, m, r, c);
      AsWrittenConstant(s, l, m, c);
      AsWrittenConstant(s, m + 1, r, c);
      AsWrittenZero(s, l, r);
    }
  }

  /** No inversion lies across a split of a range holding one value. */
  lemma ConstantCross(s: seq<int>, l: nat, m: nat, r: nat, c: int)
    requires l <= m < r < |s|
    requires forall i :: l <= i <= r ==> s[i] == c
    ensures Cross(s[l..m + 1], s[m + 1..r + 1]) == 0
  {
    var a, b := s[l..m + 1], s[m + 1..r + 1];
    forall i, j | 0 <= i < |a| && 0 <= j < |b|
      ensures a[i] <= b[j]
    {
      assert a[i] == s[l + i] && b[j] == s[m + 1 + j];
    }
    CrossOrdered(a, b);
  }

  /** With no inversions in either half nor between them, the as-written
      count is 0. */
  lemma AsWrittenZero(s: seq<int>, l: nat, r: nat)
    requires l < r < |s|
    requires var m := (r + l) / 2;
      MergeInvCountAsWritten(s, l, m) == 0 && MergeInvCountAsWritten(s, m + 1, r) == 0 &&
      Cross(s[l..m + 1], s[m + 1..r + 1]) == 0
    ensures MergeInvCountAsWritten(s, l, r) == 0
  {
    AsWrittenUnfold(s, l, r);
    NothingAdded();
  }

  /** One level of `mergeInvCount` as written. */
  lemma AsWrittenUnfold(s: seq<int>, l: nat, r: nat)
    requires l < r < |s|
    ensures var m := (r + l) / 2;
      MergeInvCountAsWritten(s, l, r) ==
      AddToSize(AddToSize(AddToSize(0, MergeInvCountAsWritten(s, l, m)), MergeInvCountAsWritten(s, m + 1, r)),
                ToInt32(Cross(s[l..m + 1], s[m + 1..r + 1]) % Two64))
  {
  }

  lemma NothingAdded()
    ensures AddToSize(AddToSize(AddToSize(0, 0), 0), ToInt32(0 % Two64)) == 0
  {
  }

  const Half: nat := 0x1_0000

  function Constant(n: nat, c: int): (s: seq<int>)
    ensures |s| == n && forall i :: 0 <= i < n ==> s[i] == c
  {
    seq(n, i => c)
  }

  lemma {:induction false} CrossConstant(a: seq<int>, j: nat)
    requires forall i :: 0 <= i < |a| ==> a[i] == 1
    ensures Cross(a, Constant(j, 0)) == j * |a|
    decreases j
  {
    if j > 0 {
      var b := Constant(j, 0);
      assert b[..j - 1] == Constant(j - 1, 0);
      assert b[j - 1] == 0;
      CrossConstant(a, j - 1);
      GreaterSplit(a, 0, 0);
      assert Cross(a, b) == Cross(a, b[..j - 1]) + Greater(a, 0);
      MulStep(j, |a|);
    }
  }

  lemma MulStep(j: nat, n: nat)
    requires j > 0
    ensures (j - 1) * n + n == j * n
  {
  }

  /** 65536 ones followed by 65536 zeros hold 2^32 inversions, all of them
      across the last merge; `merge` counts them exactly but its `int` result
      wraps to 0, and so does `inversions` as written. */
  lemma TruncationCounterexample()
    ensures var s := Constant(Half, 1) + Constant(Half, 0);
      Inv(s) == Two32 && InversionsAsWritten(s) == 0
  {
    var a, b := Constant(Half, 1), Constant(Half, 0);
    var s := a + b;
    InvAppend(a, b);
    SortedNoInversions(a);
    SortedNoInversions(b);
    CrossConstant(a, Half);
    var m := (|s| - 1) / 2;
    assert s[0..m + 1] == a;
    assert s[m + 1..|s|] == b;
    AsWrittenConstant(s, 0, m, 1);
    AsWrittenConstant(s, m + 1, |s| - 1, 0);
    AsWrittenUnfold(s, 0, |s| - 1);
    WrapsToZero();
  }

  lemma WrapsToZero()
    ensures AddToSize(AddToSize(AddToSize(0, 0), 0), ToInt32(Two32 % Two64)) == 0
  {
  }
}
