/** The trip cache's index from edge hashes to graph edges, built by
    `rebuildEdgeIndex` in src/pfaedle/router/TripCache.cpp and read by
    `resolveEdge`. An edge is indexed under the hash of its forward
    traversal and, when that differs, under the hash of its reverse
    traversal. The hashes themselves (MurmurHash3 over sampled coordinates)
    are inputs here. */
module EdgeIndex {
  import opened Bytes
  import opened Wrappers

  /** A 128-bit edge hash as two 64-bit words. */
  datatype EdgeHash = EdgeHash(lo: U64, hi: U64)

  type Index<E> = map<EdgeHash, seq<E>>

  /** The edges filed under h; none when h is not a key. */
  function Bucket<E>(idx: Index<E>, h: EdgeHash): seq<E>
  {
    if h in idx then idx[h] else []
  }

  /** `_edgeIndex[h].push_back(e)`. */
  function Push<E>(idx: Index<E>, h: EdgeHash, e: E): Index<E>
  {
    idx[h := Bucket(idx, h) + [e]]
  }

  /** `rebuildEdgeIndex` over the out-edges of all nodes, in graph order;
      a palindromic edge, whose two hashes agree, is filed once. */
  function BuildIndex<E>(edges: seq<E>, fwd: E -> EdgeHash, rev: E -> EdgeHash): Index<E>
  {
    if edges == [] then map[]
    else
      var e := edges[|edges| - 1];
      var idx := Push(BuildIndex(edges[..|edges| - 1], fwd, rev), fwd(e), e);
      if rev(e) != fwd(e) then Push(idx, rev(e), e) else idx
  }

  /** The edges, in graph order, that hash to h in either direction. */
  function HashingTo<E>(edges: seq<E>, fwd: E -> EdgeHash, rev: E -> EdgeHash, h: EdgeHash): (r: seq<E>)
    ensures |r| <= |edges|
  {
    if edges == [] then []
    else
      var e := edges[|edges| - 1];
      var init := HashingTo(edges[..|edges| - 1], fwd, rev, h);
      if fwd(e) == h || rev(e) == h then init + [e] else init
  }

  /** Each bucket of the rebuilt index holds exactly the edges hashing to its
      key in either direction, in graph order, each of them once. */
  lemma {:induction false} BuildIndexBuckets<E>(edges: seq<E>, fwd: E -> EdgeHash, rev: E -> EdgeHash, h: EdgeHash)
    ensures Bucket(BuildIndex(edges, fwd, rev), h) == HashingTo(edges, fwd, rev, h)
  {
    if edges != [] {
      BuildIndexBuckets(edges[..|edges| - 1], fwd, rev, h);
    }
  }

  /** An edge list without repeats gives buckets without repeats. */
  lemma {:induction false} HashingToOnce<E>(edges: seq<E>, fwd: E -> EdgeHash, rev: E -> EdgeHash, h: EdgeHash, e: E)
    ensures multiset(HashingTo(edges, fwd, rev, h))[e] <= multiset(edges)[e]
  {
    if edges != [] {
      var init := edges[..|edges| - 1];
      HashingToOnce(init, fwd, rev, h, e);
      assert edges == init + [edges[|edges| - 1]];
    }
  }

  /** `resolveEdge`: the first edge filed under h. */
  function Resolve<E>(idx: Index<E>, h: EdgeHash): Option<E>
  {
    if Bucket(idx, h) == [] then None else Some(Bucket(idx, h)[0])
  }

  /** A hash resolves to the first edge, in graph order, hashing to it in
      either direction, and to nothing when no edge does. */
  lemma ResolveFirst<E>(edges: seq<E>, fwd: E -> EdgeHash, rev: E -> EdgeHash, h: EdgeHash)
    ensures var hs := HashingTo(edges, fwd, rev, h);
      Resolve(BuildIndex(edges, fwd, rev), h) == if hs == [] then None else Some(hs[0])
  {
    BuildIndexBuckets(edges, fwd, rev, h);
  }
}
