/** The state of a trip cache (`TripCache` in src/pfaedle/router/TripCache.cpp)
    and what `store`, `lookup` and `remove` do to it: the files under the
    cache root, the running byte count, the edge index, and the counters
    that `stats()` reports. The file system is the map `files`; whether a
    directory can be created, a file written or removed is a parameter of
    each operation, as is the clock that sets modification times. */
module TripCacheState {
  import opened Bytes
  import opened Wrappers
  import opened EdgeIndex
  import opened EntryFormat
  import opened Pruning
  import opened Paths

  /** A regular file: its bytes and its modification time. */
  datatype File = File(bytes: seq<Byte>, mtime: int)

  type Files = map<string, File>

  /** The counters of `TripCacheStats`; `size_t` is taken to be 64 bits. */
  datatype Counters = Counters(
    hits: U64,
    misses: U64,
    stores: U64,
    storeSkipped: U64,
    errors: U64,
    evictions: U64,
    bytesRead: U64,
    bytesWritten: U64)

  const NoCounters: Counters := Counters(0, 0, 0, 0, 0, 0, 0, 0)

  /** An atomic `fetch_add` on a 64-bit counter. */
  function Bump(x: U64, n: nat): (r: U64)
    ensures x + n < Two64 ==> r == x + n
  {
    (x + n) % Two64
  }

  datatype Cache<E> = Cache(
    enabled: bool,
    root: string,
    maxBytes: U64,
    currentBytes: U64,
    files: Files,
    index: Index<E>,
    counters: Counters)

  /** The listing entry of a file, as `stat` reports it. */
  function EntryOf(path: string, f: File): FileEntry
  {
    FileEntry(path, |f.bytes| % Two64, f.mtime)
  }

  /** A sequence lists each file exactly once. */
  ghost predicate Lists(s: seq<FileEntry>, files: Files)
  {
    |s| == |files| &&
    (forall i :: 0 <= i < |s| ==> s[i].path in files && s[i] == EntryOf(s[i].path, files[s[i].path])) &&
    (forall p :: p in files ==> EntryOf(p, files[p]) in s) &&
    DistinctPaths(s)
  }

  /** The directory walk of `collectFiles`: some order listing every file
      once; which order is left open. */
  ghost function Walk(files: Files): (r: seq<FileEntry>)
    ensures Lists(r, files)
    decreases |files|
  {
    if files == map[] then []
    else
      var p :| p in files;
      var rest := files - {p};
      assert rest.Keys == files.Keys - {p};
      var w := Walk(rest);
      WalkStep(w, rest, files, p);
      w + [EntryOf(p, files[p])]
  }

  lemma WalkStep(w: seq<FileEntry>, rest: Files, files: Files, p: string)
    requires p in files && rest == files - {p} && Lists(w, rest)
    ensures Lists(w + [EntryOf(p, files[p])], files)
  {
    var s := w + [EntryOf(p, files[p])];
    assert files.Keys == rest.Keys + {p};
    forall q | q in files
      ensures EntryOf(q, files[q]) in s
    {
      if q != p {
        assert EntryOf(q, rest[q]) in w;
      } else {
        assert s[|w|] == EntryOf(p, files[p]);
      }
    }
    forall i | 0 <= i < |s|
      ensures s[i].path in files && s[i] == EntryOf(s[i].path, files[s[i].path])
    {
      if i < |w| {
        assert s[i] == w[i];
      }
    }
    forall i, j | 0 <= i < j < |s|
      ensures s[i].path != s[j].path
    {
      if j == |w| {
        assert s[i] == w[i] && w[i].path in rest;
      } else {
        assert s[i] == w[i] && s[j] == w[j];
      }
    }
  }

  /** The options the cache is opened with. */
  datatype Options = Options(enabled: bool, baseDir: string, maxBytes: U64, graphHash: string, paramsHash: string)

  /** The constructor: the cache is enabled only with a graph, both
      fingerprints and a root directory that exists or can be created;
      it then indexes the graph's edges and counts the bytes already under
      its root. */
  ghost function Open<E>(opts: Options, graph: Option<seq<E>>, fwd: E -> EdgeHash, rev: E -> EdgeHash,
                         dirOk: bool, files: Files): (c: Cache<E>)
    ensures c.enabled <==> opts.enabled && graph.Some? && opts.graphHash != "" && opts.paramsHash != "" && dirOk
    ensures c.enabled ==> c.root == CacheRoot(opts.baseDir, opts.graphHash, opts.paramsHash)
    ensures c.enabled ==> c.index == BuildIndex(graph.value, fwd, rev) && c.currentBytes == Total(Walk(files))
    ensures c.counters == NoCounters && c.maxBytes == opts.maxBytes
  {
    // When only the directory cannot be created the source has already set
    // its root; a disabled cache never reads it, so it is left empty here.
    var off := Cache(false, "", opts.maxBytes, 0, files, map[], NoCounters);
    if !(opts.enabled && graph.Some?) then off
    else if opts.graphHash == "" || opts.paramsHash == "" then off
    else if !dirOk then off
    else
      Cache(true, CacheRoot(opts.baseDir, opts.graphHash, opts.paramsHash), opts.maxBytes,
            Total(Walk(files)), files, BuildIndex(graph.value, fwd, rev), NoCounters)
  }

  /** `updateFileTimestamp`: `utime` sets the file's time to `now` when it
      succeeds; when it fails the source only logs, and the file keeps its
      old time, which is what pruning later orders by. */
  function Touch(f: File, now: int, touchOk: bool): (r: File)
    ensures r.bytes == f.bytes
    ensures touchOk ==> r.mtime == now
    ensures !touchOk ==> r == f
  {
    if touchOk then f.(mtime := now) else f
  }

  /** What `lookup` leaves and hands back. */
  datatype Found<E> = Found(cache: Cache<E>, hops: Option<seq<Hop<E>>>)

  /** `lookup`: a missing file is a miss; a file that does not decode is an
      error and a miss, and is removed when `removeOk`; a file that decodes
      is a hit, adds its size to the bytes read and is touched. */
  function Lookup<E>(c: Cache<E>, key: string, removeOk: bool, now: int, touchOk: bool): (r: Found<E>)
    ensures !c.enabled ==> r == Found(c, None)
    ensures r.cache.enabled == c.enabled && r.cache.root == c.root && r.cache.index == c.index
    ensures r.cache.currentBytes == c.currentBytes && r.cache.maxBytes == c.maxBytes
    ensures r.cache.files.Keys <= c.files.Keys
    ensures forall p :: p in r.cache.files ==> r.cache.files[p].bytes == c.files[p].bytes
    ensures c.enabled && r.hops.Some? ==>
      (EntryPath(c.root, key) in c.files &&
       r.cache.counters ==
         c.counters.(hits := Bump(c.counters.hits, 1),
                     bytesRead := Bump(c.counters.bytesRead, |c.files[EntryPath(c.root, key)].bytes| % Two64)))
    ensures c.enabled && r.hops.None? ==>
      r.cache.counters.misses == Bump(c.counters.misses, 1) && r.cache.counters.hits == c.counters.hits
    ensures c.enabled && r.hops.Some? ==>
      var path := EntryPath(c.root, key);
      path in r.cache.files && r.cache.files[path] == Touch(c.files[path], now, touchOk)
    ensures c.enabled ==>
      var path := EntryPath(c.root, key);
      (r.hops.Some? <==> path in c.files && ReadEntry(c.files[path].bytes, c.index).Ok?)
    ensures r.hops.Some? ==>
      var path := EntryPath(c.root, key);
      path in c.files && r.hops.value == ReadEntry(c.files[path].bytes, c.index).value
  {
    if !c.enabled then Found(c, None)
    else
      var path := EntryPath(c.root, key);
      if path !in c.files then
        Found(c.(counters := c.counters.(misses := Bump(c.counters.misses, 1))), None)
      else
        var f := c.files[path];
        match ReadEntry(f.bytes, c.index)
        case Err(_) =>
          var counters := c.counters.(errors := Bump(c.counters.errors, 1), misses := Bump(c.counters.misses, 1));
          var files := if removeOk then c.files - {path} else c.files;
          Found(c.(files := files, counters := counters), None)
        case Ok(hops) =>
          var counters := c.counters.(hits := Bump(c.counters.hits, 1),
                                      bytesRead := Bump(c.counters.bytesRead, |f.bytes| % Two64));
          Found(c.(files := c.files[path := Touch(f, now, touchOk)], counters := counters), Some(hops))
  }

  /** The files left once the listed entries are removed. */
  function Without(files: Files, evicted: seq<FileEntry>): (r: Files)
    ensures r.Keys <= files.Keys
    ensures forall p :: p in r ==> r[p] == files[p]
    ensures forall p :: p in files ==> (p in r <==> forall x :: x in evicted ==> x.path != p)
  {
    map p | p in files && (forall x :: x in evicted ==> x.path != p) :: files[p]
  }

  /** `pruneIfNeeded` on the cache state. */
  ghost function PruneCache<E>(c: Cache<E>, removable: string -> bool): (r: Cache<E>)
    ensures r.files.Keys <= c.files.Keys
    ensures forall p :: p in r.files ==> r.files[p] == c.files[p]
    ensures r.enabled == c.enabled && r.root == c.root && r.index == c.index && r.maxBytes == c.maxBytes
  {
    var out := Prune(c.maxBytes, c.currentBytes, Walk(c.files), removable);
    c.(files := Without(c.files, out.evicted),
       currentBytes := out.currentBytes,
       counters := c.counters.(evictions := Bump(c.counters.evictions, |out.evicted|)))
  }

  /** Without a budget, or within it, pruning changes nothing. */
  lemma PruneCacheWithinBudget<E>(c: Cache<E>, removable: string -> bool)
    requires c.maxBytes == 0 || c.currentBytes <= c.maxBytes
    ensures PruneCache(c, removable) == c
  {
    var r := PruneCache(c, removable);
    assert r.files == c.files;
  }

  /** Pruning evicts oldest first: a file that was removed is never younger
      than a file that could have been removed but was kept. */
  lemma PruneCacheOldestFirst<E>(c: Cache<E>, removable: string -> bool, p: string, q: string)
    requires p in c.files && p !in PruneCache(c, removable).files
    requires q in PruneCache(c, removable).files && removable(q)
    ensures !Older(EntryOf(q, c.files[q]), EntryOf(p, c.files[p]))
  {
    var listing := Walk(c.files);
    var out := Prune(c.maxBytes, c.currentBytes, listing, removable);
    var x :| x in out.evicted && x.path == p;
    PruneMembers(c.maxBytes, c.currentBytes, listing, removable, x);
    var i :| 0 <= i < |listing| && listing[i] == x;
    assert x == EntryOf(p, c.files[p]);
    var y := EntryOf(q, c.files[q]);
    assert y in listing;
    assert y !in out.evicted;
    PruneOldestFirst(c.maxBytes, c.currentBytes, listing, removable, x, y);
  }

  /** How `writeEntry` ends. The stream opens with truncation before any
      byte is written, so a failure after the open (a write or the close)
      leaves the file behind holding the first `kept` bytes, or all of them
      when `kept` is larger; only a failed open creates nothing. */
  datatype WriteResult = WriteDone | OpenFailed | CutShort(kept: nat)

  /** The bytes a write that ended with `w` left in the file. */
  function Left(bytes: seq<Byte>, w: WriteResult): (r: seq<Byte>)
    ensures r <= bytes
    ensures w.CutShort? && w.kept <= |bytes| ==> |r| == w.kept
    ensures !(w.CutShort? && w.kept < |bytes|) ==> r == bytes
  {
    if w.CutShort? && w.kept < |bytes| then bytes[..w.kept] else bytes
  }

  /** `store`: nothing for a disabled cache or an empty key; an existing
      entry is never rewritten, only counted as skipped and touched; a
      missing parent directory or a failed write is an error, and a write
      that failed after the open leaves its truncated file behind;
      otherwise the encoded hops become the entry, the bytes written and
      the running count grow by its size, and the cache is pruned. */
  ghost function Store<E>(c: Cache<E>, key: string, hops: seq<Hop<E>>, hash: E -> EdgeHash, now: int,
                          touchOk: bool, dirOk: bool, write: WriteResult, removable: string -> bool): (r: Cache<E>)
    ensures r.enabled == c.enabled && r.root == c.root && r.index == c.index && r.maxBytes == c.maxBytes
    ensures r.files.Keys <= c.files.Keys + {EntryPath(c.root, key)}
    ensures forall p :: p in c.files && p in r.files ==> r.files[p].bytes == c.files[p].bytes
    ensures var path := EntryPath(c.root, key);
      path !in c.files && path in r.files ==> r.files[path].bytes <= WriteEntry(hops, hash)
  {
    if !c.enabled || key == "" then c
    else
      var path := EntryPath(c.root, key);
      if path in c.files then
        c.(files := c.files[path := Touch(c.files[path], now, touchOk)],
           counters := c.counters.(storeSkipped := Bump(c.counters.storeSkipped, 1)))
      else if ParentPath(path) != "" && !dirOk then
        c.(counters := c.counters.(errors := Bump(c.counters.errors, 1)))
      else if write.OpenFailed? then
        c.(counters := c.counters.(errors := Bump(c.counters.errors, 1)))
      else if write.CutShort? then
        c.(files := c.files[path := File(Left(WriteEntry(hops, hash), write), now)],
           counters := c.counters.(errors := Bump(c.counters.errors, 1)))
      else PruneCache(Written(c, path, WriteEntry(hops, hash), now), removable)
  }

  /** A new entry in place: its bytes counted as written and held. */
  function Written<E>(c: Cache<E>, path: string, bytes: seq<Byte>, now: int): (r: Cache<E>)
    ensures path in r.files && r.files[path].bytes == bytes
    ensures r.files.Keys == c.files.Keys + {path}
    ensures forall p :: p in c.files && p != path ==> r.files[p] == c.files[p]
    ensures r.enabled == c.enabled && r.root == c.root && r.index == c.index && r.maxBytes == c.maxBytes
    ensures r.counters == c.counters.(bytesWritten := Bump(c.counters.bytesWritten, |bytes| % Two64),
                                      stores := Bump(c.counters.stores, 1))
    ensures r.currentBytes == Bump(c.currentBytes, |bytes| % Two64)
  {
    var size := |bytes| % Two64;
    c.(files := c.files[path := File(bytes, now)],
       currentBytes := Bump(c.currentBytes, size),
       counters := c.counters.(bytesWritten := Bump(c.counters.bytesWritten, size),
                               stores := Bump(c.counters.stores, 1)))
  }

  /** `remove`: the entry of the key is deleted when it exists and can be
      removed; the running count drops by its size unless that would go
      below zero. */
  function Remove<E>(c: Cache<E>, key: string, removeOk: bool): (r: Cache<E>)
    ensures var path := EntryPath(c.root, key);
      if c.enabled && path in c.files && removeOk then
        var size := |c.files[path].bytes| % Two64;
        r.files == c.files - {path} && r.counters == c.counters &&
        r.root == c.root && r.index == c.index && r.maxBytes == c.maxBytes && r.enabled &&
        r.currentBytes == (if c.currentBytes >= size then c.currentBytes - size else c.currentBytes)
      else r == c
  {
    if !c.enabled then c
    else
      var path := EntryPath(c.root, key);
      if path !in c.files || !removeOk then c
      else
        var size := |c.files[path].bytes| % Two64;
        c.(files := c.files - {path},
           currentBytes := if c.currentBytes >= size then c.currentBytes - size else c.currentBytes)
  }

  /** Storing under a key whose entry exists leaves every file's bytes and
      every counter but `storeSkipped` as they were. */
  lemma StoreExisting<E>(c: Cache<E>, key: string, hops: seq<Hop<E>>, hash: E -> EdgeHash, now: int,
                         touchOk: bool, dirOk: bool, write: WriteResult, removable: string -> bool)
    requires c.enabled && key != "" && EntryPath(c.root, key) in c.files
    ensures var r := Store(c, key, hops, hash, now, touchOk, dirOk, write, removable);
      var path := EntryPath(c.root, key);
      r.files.Keys == c.files.Keys &&
      r.files[path] == Touch(c.files[path], now, touchOk) &&
      (forall p :: p in c.files && p != path ==> r.files[p] == c.files[p]) &&
      (forall p :: p in c.files ==> r.files[p].bytes == c.files[p].bytes) &&
      r.counters == c.counters.(storeSkipped := Bump(c.counters.storeSkipped, 1)) &&
      r.currentBytes == c.currentBytes
  {
  }

  /** A store that fails to create the directory or to open the file
      changes nothing but the error count. */
  lemma StoreFailure<E>(c: Cache<E>, key: string, hops: seq<Hop<E>>, hash: E -> EdgeHash, now: int,
                        touchOk: bool, dirOk: bool, write: WriteResult, removable: string -> bool)
    requires c.enabled && key != "" && EntryPath(c.root, key) !in c.files
    requires (ParentPath(EntryPath(c.root, key)) != "" && !dirOk) || write.OpenFailed?
    ensures Store(c, key, hops, hash, now, touchOk, dirOk, write, removable) ==
      c.(counters := c.counters.(errors := Bump(c.counters.errors, 1)))
  {
  }

  /** A write that fails after the open counts only an error, yet leaves a
      file at the entry path holding a prefix of the encoded entry, which
      the running byte count does not include. */
  lemma StoreCutShort<E>(c: Cache<E>, key: string, hops: seq<Hop<E>>, hash: E -> EdgeHash, now: int,
                         touchOk: bool, dirOk: bool, kept: nat, removable: string -> bool)
    requires c.enabled && key != "" && EntryPath(c.root, key) !in c.files
    requires ParentPath(EntryPath(c.root, key)) == "" || dirOk
    ensures var r := Store(c, key, hops, hash, now, touchOk, dirOk, CutShort(kept), removable);
      var path := EntryPath(c.root, key);
      var bytes := WriteEntry(hops, hash);
      r.files.Keys == c.files.Keys + {path} &&
      (forall p :: p in c.files ==> r.files[p] == c.files[p]) &&
      r.files[path].mtime == now &&
      r.files[path].bytes <= bytes &&
      |r.files[path].bytes| == (if kept < |bytes| then kept else |bytes|) &&
      r.counters == c.counters.(errors := Bump(c.counters.errors, 1)) &&
      r.currentBytes == c.currentBytes
  {
  }

  /** After a write that failed past the open, storing the key again finds
      the truncated file and skips it: the file is never rewritten. */
  lemma StoreAfterCutShort<E>(c: Cache<E>, key: string, hops: seq<Hop<E>>, hash: E -> EdgeHash, now: int,
                              touchOk: bool, dirOk: bool, kept: nat, removable: string -> bool,
                              later: int, touchLaterOk: bool, write: WriteResult)
    requires c.enabled && key != "" && EntryPath(c.root, key) !in c.files
    requires ParentPath(EntryPath(c.root, key)) == "" || dirOk
    ensures var s := Store(c, key, hops, hash, now, touchOk, dirOk, CutShort(kept), removable);
      var r := Store(s, key, hops, hash, later, touchLaterOk, dirOk, write, removable);
      var path := EntryPath(c.root, key);
      path in r.files && r.files[path].bytes == Left(WriteEntry(hops, hash), CutShort(kept)) &&
      r.counters == c.counters.(errors := Bump(c.counters.errors, 1),
                                storeSkipped := Bump(c.counters.storeSkipped, 1))
  {
    var s := Store(c, key, hops, hash, now, touchOk, dirOk, CutShort(kept), removable);
    StoreExisting(s, key, hops, hash, later, touchLaterOk, dirOk, write, removable);
  }

  /** With no byte budget, a store of hops whose edges resolve back to
      themselves is followed by a hit that returns those hops, with each
      point whose edge is present reset to the default, and counts one
      store and one hit. */
  lemma StoreThenLookup<E>(c: Cache<E>, key: string, hops: seq<Hop<E>>, hash: E -> EdgeHash, now: int,
                           touchOk: bool, dirOk: bool, removable: string -> bool, removeOk: bool, later: int,
                           touchLaterOk: bool)
    requires c.enabled && key != "" && c.maxBytes == 0
    requires EntryPath(c.root, key) !in c.files
    requires ParentPath(EntryPath(c.root, key)) == "" || dirOk
    requires |hops| < Two32
    requires forall i :: 0 <= i < |hops| ==> |hops[i].edges| < Two32 && Resolvable(hops[i], hash, c.index)
    ensures var s := Store(c, key, hops, hash, now, touchOk, dirOk, WriteDone, removable);
      var r := Lookup(s, key, removeOk, later, touchLaterOk);
      r.hops == Some(CanonicalAll(hops)) &&
      r.cache.counters.stores == Bump(c.counters.stores, 1) &&
      r.cache.counters.hits == Bump(c.counters.hits, 1) &&
      r.cache.counters.misses == c.counters.misses
  {
    var path := EntryPath(c.root, key);
    var s := Store(c, key, hops, hash, now, touchOk, dirOk, WriteDone, removable);
    assert path in s.files && s.files[path].bytes == WriteEntry(hops, hash);
    ReadWriteEntry(hops, hash, c.index);
  }

  /** A lookup of a key without an entry is a miss and changes nothing
      else. */
  lemma LookupMissing<E>(c: Cache<E>, key: string, removeOk: bool, now: int, touchOk: bool)
    requires c.enabled && EntryPath(c.root, key) !in c.files
    ensures Lookup(c, key, removeOk, now, touchOk) ==
      Found(c.(counters := c.counters.(misses := Bump(c.counters.misses, 1))), None)
  {
  }

  /** An entry that does not decode counts as an error and a miss, and is
      gone afterwards when it can be removed. */
  lemma LookupCorrupt<E>(c: Cache<E>, key: string, removeOk: bool, now: int, touchOk: bool)
    requires c.enabled && EntryPath(c.root, key) in c.files
    requires ReadEntry(c.files[EntryPath(c.root, key)].bytes, c.index).Err?
    ensures var r := Lookup(c, key, removeOk, now, touchOk);
      r.hops == None &&
      r.cache.counters == c.counters.(errors := Bump(c.counters.errors, 1), misses := Bump(c.counters.misses, 1)) &&
      (removeOk <==> EntryPath(c.root, key) !in r.cache.files)
  {
  }
}
