/** The eviction policy of the trip cache (`pruneIfNeeded` in
    src/pfaedle/router/TripCache.cpp): once the cache holds more than its
    byte budget, the files under its root are listed, sorted oldest first
    (by modification time, ties broken by path) and removed in that order
    until the total fits. Removing a file is an operation of the file
    system that may fail; its outcome is the parameter `removable`. */
module Pruning {
  import opened Bytes
  import opened CStrings

  /** A regular file found under the cache root. */
  datatype FileEntry = FileEntry(path: string, size: U64, mtime: int)

  /** The sort comparator: older first; at equal times, the smaller path. */
  predicate Older(a: FileEntry, b: FileEntry)
  {
    if a.mtime == b.mtime then StrLess(a.path, b.path) else a.mtime < b.mtime
  }

  lemma OlderIrreflexive(a: FileEntry)
    ensures !Older(a, a)
  {
    StrLessIrreflexive(a.path);
  }

  lemma OlderTransitive(a: FileEntry, b: FileEntry, c: FileEntry)
    requires Older(a, b) && Older(b, c)
    ensures Older(a, c)
  {
    if a.mtime == b.mtime == c.mtime {
      StrLessTransitive(a.path, b.path, c.path);
    }
  }

  lemma OlderAsymmetric(a: FileEntry, b: FileEntry)
    requires Older(a, b)
    ensures !Older(b, a)
  {
    if a.mtime == b.mtime {
      StrLessAsymmetric(a.path, b.path);
    }
  }

  /** Entries that are not older than each other have the same time and
      the same path. */
  lemma OlderTotal(a: FileEntry, b: FileEntry)
    ensures Older(a, b) || Older(b, a) || (a.mtime == b.mtime && a.path == b.path)
  {
    StrLessTotal(a.path, b.path);
  }

  /** Being not older is transitive: the comparator is a strict weak order. */
  lemma NotOlderTransitive(a: FileEntry, b: FileEntry, c: FileEntry)
    requires !Older(b, a) && !Older(c, b)
    ensures !Older(c, a)
  {
    if a.mtime == b.mtime == c.mtime {
      StrNotLessTransitive(a.path, b.path, c.path);
    }
  }

  /** No entry is older than an entry before it. */
  ghost predicate OldestFirst(s: seq<FileEntry>)
  {
    forall i, j :: 0 <= i < j < |s| ==> !Older(s[j], s[i])
  }

  /** No two entries name the same file. */
  ghost predicate DistinctPaths(s: seq<FileEntry>)
  {
    forall i, j :: 0 <= i < j < |s| ==> s[i].path != s[j].path
  }

  /** Insert x in front of the first entry not older than it. */
  function InsertEntry(x: FileEntry, s: seq<FileEntry>): (r: seq<FileEntry>)
    ensures multiset(r) == multiset(s) + multiset{x}
    ensures |r| == |s| + 1
  {
    if s == [] then [x]
    else if !Older(s[0], x) then [x] + s
    else
      assert s == [s[0]] + s[1..];
      [s[0]] + InsertEntry(x, s[1..])
  }

  /** An entry no younger than any entry of an oldest-first sequence can
      go in front of it. */
  lemma ConsOldestFirst(x: FileEntry, s: seq<FileEntry>)
    requires OldestFirst(s)
    requires forall k :: 0 <= k < |s| ==> !Older(s[k], x)
    ensures OldestFirst([x] + s)
  {
    var r := [x] + s;
    forall i, j | 0 <= i < j < |r|
      ensures !Older(r[j], r[i])
    {
      assert r[j] == s[j - 1];
      if i > 0 {
        assert r[i] == s[i - 1];
      }
    }
  }

  /** What holds for every entry of a sequence holds for every entry of a
      permutation of it. */
  lemma AfterAllPermutation(a: seq<FileEntry>, b: seq<FileEntry>, x: FileEntry)
    requires multiset(a) == multiset(b)
    requires forall k :: 0 <= k < |b| ==> !Older(b[k], x)
    ensures forall k :: 0 <= k < |a| ==> !Older(a[k], x)
  {
    forall k | 0 <= k < |a|
      ensures !Older(a[k], x)
    {
      assert a[k] in multiset(b);
      var m :| 0 <= m < |b| && b[m] == a[k];
    }
  }

  lemma {:induction false} InsertOldestFirst(x: FileEntry, s: seq<FileEntry>)
    requires OldestFirst(s)
    ensures OldestFirst(InsertEntry(x, s))
  {
    if s != [] && Older(s[0], x) {
      var rest := InsertEntry(x, s[1..]);
      assert OldestFirst(s[1..]) by {
        forall i, j | 0 <= i < j < |s| - 1
          ensures !Older(s[1..][j], s[1..][i])
        {
          assert s[1..][i] == s[i + 1] && s[1..][j] == s[j + 1];
        }
      }
      InsertOldestFirst(x, s[1..]);
      forall k | 0 <= k < |[x] + s[1..]|
        ensures !Older(([x] + s[1..])[k], s[0])
      {
        if k == 0 {
          OlderAsymmetric(s[0], x);
        } else {
          assert ([x] + s[1..])[k] == s[k];
        }
      }
      AfterAllPermutation(rest, [x] + s[1..], s[0]);
      ConsOldestFirst(s[0], rest);
    } else {
      forall k | 0 <= k < |s|
        ensures !Older(s[k], x)
      {
        if s != [] {
          assert !Older(s[0], x);
          if k > 0 {
            assert !Older(s[k], s[0]);
            NotOlderTransitive(x, s[0], s[k]);
          }
        }
      }
      ConsOldestFirst(x, s);
    }
  }

  /** The `std::sort` of the listing: any oldest-first arrangement is a
      possible outcome, and an insertion sort gives one. */
  function SortEntries(s: seq<FileEntry>): (r: seq<FileEntry>)
    ensures OldestFirst(r)
    ensures multiset(r) == multiset(s)
    ensures |r| == |s|
  {
    if s == [] then []
    else
      assert s == [s[0]] + s[1..];
      InsertOldestFirst(s[0], SortEntries(s[1..]));
      InsertEntry(s[0], SortEntries(s[1..]))
  }

  /** The total size of a listing, summed in `uint64_t`. */
  function Total(s: seq<FileEntry>): (t: U64)
  {
    if s == [] then 0 else (Total(s[..|s| - 1]) + s[|s| - 1].size) % Two64
  }

  /** The total of the files seen, in exact arithmetic. */
  function SizeSum(s: seq<FileEntry>): nat
  {
    if s == [] then 0 else s[0].size + SizeSum(s[1..])
  }

  /** The entries whose files can be removed, in order. */
  function Removable(s: seq<FileEntry>, removable: string -> bool): (r: seq<FileEntry>)
    ensures |r| <= |s|
  {
    if s == [] then []
    else if removable(s[0].path) then [s[0]] + Removable(s[1..], removable)
    else Removable(s[1..], removable)
  }

  lemma {:induction false} RemovableMembers(s: seq<FileEntry>, removable: string -> bool, x: FileEntry)
    ensures x in Removable(s, removable) <==> x in s && removable(x.path)
  {
    if s != [] {
      RemovableMembers(s[1..], removable, x);
      assert s == [s[0]] + s[1..];
    }
  }

  /** The eviction loop over the sorted entries: it stops as soon as the
      total fits; an entry whose file is removed is evicted and its size
      taken off the total in `uint64_t` arithmetic; an entry whose removal
      fails is passed over. */
  function Evict(entries: seq<FileEntry>, total: U64, maxBytes: U64, removable: string -> bool): (r: (seq<FileEntry>, U64))
  {
    if entries == [] || total <= maxBytes then ([], total)
    else if removable(entries[0].path) then
      var rest := Evict(entries[1..], (total - entries[0].size) % Two64, maxBytes, removable);
      ([entries[0]] + rest.0, rest.1)
    else Evict(entries[1..], total, maxBytes, removable)
  }

  /** How many entries the eviction loop looks at before it stops. */
  function Examined(entries: seq<FileEntry>, total: U64, maxBytes: U64, removable: string -> bool): (k: nat)
  {
    if entries == [] || total <= maxBytes then 0
    else if removable(entries[0].path) then
      1 + Examined(entries[1..], (total - entries[0].size) % Two64, maxBytes, removable)
    else 1 + Examined(entries[1..], total, maxBytes, removable)
  }

  /** The loop looks at a prefix of the entries and evicts exactly the
      removable ones among them; it stops early only once the total fits. */
  lemma {:induction false} EvictPrefix(entries: seq<FileEntry>, total: U64, maxBytes: U64, removable: string -> bool)
    ensures var k := Examined(entries, total, maxBytes, removable);
      k <= |entries| &&
      Evict(entries, total, maxBytes, removable).0 == Removable(entries[..k], removable) &&
      (k < |entries| ==> Evict(entries, total, maxBytes, removable).1 <= maxBytes)
  {
    if entries == [] || total <= maxBytes {
      assert entries[..0] == [];
    } else {
      var e := entries[0];
      if removable(e.path) {
        var next := (total - e.size) % Two64;
        EvictPrefix(entries[1..], next, maxBytes, removable);
        var k := Examined(entries[1..], next, maxBytes, removable);
        var ev := Evict(entries[1..], next, maxBytes, removable);
        assert Evict(entries, total, maxBytes, removable) == ([e] + ev.0, ev.1);
        assert Examined(entries, total, maxBytes, removable) == k + 1;
        RemovableCons(entries, k, removable);
      } else {
        EvictPrefix(entries[1..], total, maxBytes, removable);
        var k := Examined(entries[1..], total, maxBytes, removable);
        assert Evict(entries, total, maxBytes, removable) == Evict(entries[1..], total, maxBytes, removable);
        assert Examined(entries, total, maxBytes, removable) == k + 1;
        RemovableCons(entries, k, removable);
      }
    }
  }

  /** Filtering a prefix one longer than a prefix of the tail. */
  lemma RemovableCons(s: seq<FileEntry>, k: nat, removable: string -> bool)
    requires k < |s|
    ensures Removable(s[..k + 1], removable) ==
      (if removable(s[0].path) then [s[0]] else []) + Removable(s[1..][..k], removable)
  {
    assert s[..k + 1][1..] == s[1..][..k];
  }

  /** The entries evicted are removable entries of the list. */
  lemma EvictMembers(entries: seq<FileEntry>, total: U64, maxBytes: U64, removable: string -> bool, x: FileEntry)
    requires x in Evict(entries, total, maxBytes, removable).0
    ensures x in entries && removable(x.path)
  {
    EvictPrefix(entries, total, maxBytes, removable);
    var k := Examined(entries, total, maxBytes, removable);
    RemovableMembers(entries[..k], removable, x);
    var i :| 0 <= i < k && entries[..k][i] == x;
    assert entries[i] == x;
  }

  /** The total the loop ends with is the one it started from less the
      sizes it evicted, modulo 2^64. */
  lemma {:induction false} EvictTotal(entries: seq<FileEntry>, total: U64, maxBytes: U64, removable: string -> bool)
    ensures var r := Evict(entries, total, maxBytes, removable);
      Accounts(Outcome(r.1, r.0), total)
  {
    if entries != [] && total > maxBytes {
      var e := entries[0];
      var next := if removable(e.path) then (total - e.size) % Two64 else total;
      EvictTotal(entries[1..], next, maxBytes, removable);
      var ev := Evict(entries[1..], next, maxBytes, removable);
      if removable(e.path) {
        assert ([e] + ev.0)[1..] == ev.0;
        ModSub(total, e.size, SizeSum(ev.0));
      }
    }
  }

  /** Subtracting in two wrapped steps is subtracting the sum. */
  lemma ModSub(t: int, a: int, b: int)
    ensures ((t - a) % Two64 - b) % Two64 == (t - (a + b)) % Two64
  {
    var q := (t - a) / Two64;
    assert (t - a) % Two64 == (t - a) - q * Two64;
    ModShift(t - (a + b), q);
  }

  lemma ModShift(x: int, q: int)
    ensures (x + q * Two64) % Two64 == x % Two64
  {
  }

  /** Oldest first: an entry the loop evicts is never younger than an
      entry it could have removed but kept; with distinct paths it is
      strictly older. */
  lemma EvictOldestFirst(entries: seq<FileEntry>, total: U64, maxBytes: U64, removable: string -> bool, e: FileEntry, f: FileEntry)
    requires OldestFirst(entries)
    requires e in Evict(entries, total, maxBytes, removable).0
    requires f in entries && removable(f.path) && f !in Evict(entries, total, maxBytes, removable).0
    ensures !Older(f, e)
    ensures DistinctPaths(entries) ==> Older(e, f)
  {
    EvictPrefix(entries, total, maxBytes, removable);
    var k := Examined(entries, total, maxBytes, removable);
    RemovableMembers(entries[..k], removable, e);
    RemovableMembers(entries[..k], removable, f);
    assert e in entries[..k];
    var i :| 0 <= i < k && entries[..k][i] == e;
    var j :| 0 <= j < |entries| && entries[j] == f;
    assert f !in entries[..k];
    assert j >= k by {
      assert forall m :: 0 <= m < k ==> entries[..k][m] == entries[m];
    }
    assert entries[i] == e;
    assert !Older(entries[j], entries[i]);
    if DistinctPaths(entries) {
      assert e.path != f.path;
      OlderTotal(e, f);
    }
  }

  /** What a pruning pass leaves: the byte count the cache believes it
      holds, and the entries removed. */
  datatype Outcome = Outcome(currentBytes: U64, evicted: seq<FileEntry>)

  /** `pruneIfNeeded`, given the byte budget (0: unlimited), the running
      byte count, and the files found under the root in walk order. */
  function Prune(maxBytes: U64, currentBytes: U64, listing: seq<FileEntry>, removable: string -> bool): (r: Outcome)
    ensures maxBytes == 0 || currentBytes <= maxBytes ==> r == Outcome(currentBytes, [])
  {
    if maxBytes == 0 || currentBytes <= maxBytes then Outcome(currentBytes, [])
    else
      var total := Total(listing);
      if total <= maxBytes then Outcome(total, [])
      else
        var sorted := SortEntries(listing);
        var ev := Evict(sorted, total, maxBytes, removable);
        Outcome(ev.1, ev.0)
  }

  /** A pass evicts only files it listed and could remove. */
  lemma PruneMembers(maxBytes: U64, currentBytes: U64, listing: seq<FileEntry>, removable: string -> bool, x: FileEntry)
    requires x in Prune(maxBytes, currentBytes, listing, removable).evicted
    ensures x in listing && removable(x.path)
  {
    var total := Total(listing);
    var sorted := SortEntries(listing);
    var ev := Evict(sorted, total, maxBytes, removable);
    assert Prune(maxBytes, currentBytes, listing, removable).evicted == ev.0;
    EvictMembers(sorted, total, maxBytes, removable, x);
    assert x in multiset(sorted);
  }

  /** A pass that runs keeps as its count the listed total less the sizes
      it evicted. */
  lemma PruneTotal(maxBytes: U64, currentBytes: U64, listing: seq<FileEntry>, removable: string -> bool)
    requires maxBytes > 0 && currentBytes > maxBytes
    ensures Accounts(Prune(maxBytes, currentBytes, listing, removable), Total(listing))
  {
    var total := Total(listing);
    if total > maxBytes {
      var sorted := SortEntries(listing);
      var ev := Evict(sorted, total, maxBytes, removable);
      assert Prune(maxBytes, currentBytes, listing, removable) == Outcome(ev.1, ev.0);
      EvictTotal(sorted, total, maxBytes, removable);
    } else {
      assert Prune(maxBytes, currentBytes, listing, removable) == Outcome(total, []);
      ModSmall(total);
    }
  }

  /** The count kept is the total less the sizes evicted, modulo 2^64. */
  ghost predicate Accounts(r: Outcome, total: int)
  {
    r.currentBytes == (total - SizeSum(r.evicted)) % Two64
  }

  lemma ModSmall(x: U64)
    ensures Accounts(Outcome(x, []), x)
  {
  }

  /** A pass that runs ends within budget, or with every removable file
      gone. */
  lemma PruneFits(maxBytes: U64, currentBytes: U64, listing: seq<FileEntry>, removable: string -> bool)
    requires maxBytes > 0 && currentBytes > maxBytes
    ensures var r := Prune(maxBytes, currentBytes, listing, removable);
      r.currentBytes <= maxBytes ||
      forall x :: x in listing && removable(x.path) ==> x in r.evicted
  {
    var total := Total(listing);
    if total > maxBytes {
      var sorted := SortEntries(listing);
      var ev := Evict(sorted, total, maxBytes, removable);
      assert Prune(maxBytes, currentBytes, listing, removable) == Outcome(ev.1, ev.0);
      EvictPrefix(sorted, total, maxBytes, removable);
      var k := Examined(sorted, total, maxBytes, removable);
      if k == |sorted| {
        assert sorted[..k] == sorted;
        forall x | x in listing && removable(x.path)
          ensures x in ev.0
        {
          assert x in multiset(sorted);
          RemovableMembers(sorted, removable, x);
        }
      }
    }
  }

  /** The pass evicts oldest first: no file it kept but could have removed
      is older than a file it evicted. */
  lemma PruneOldestFirst(maxBytes: U64, currentBytes: U64, listing: seq<FileEntry>, removable: string -> bool, e: FileEntry, f: FileEntry)
    requires e in Prune(maxBytes, currentBytes, listing, removable).evicted
    requires f in listing && removable(f.path)
    requires f !in Prune(maxBytes, currentBytes, listing, removable).evicted
    ensures !Older(f, e)
  {
    var total := Total(listing);
    var sorted := SortEntries(listing);
    assert f in multiset(sorted);
    EvictOldestFirst(sorted, total, maxBytes, removable, e, f);
  }
}
