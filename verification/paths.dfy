/** The path helpers of src/pfaedle/router/TripCache.cpp: joining two path
    components, the parent directory of a path, and where a cache entry lives
    on disk. */
module Paths {

  /** `joinPath`: an empty side yields the other; otherwise exactly one '/'
      is kept at the junction when both sides bring one. */
  function JoinPath(base: string, comp: string): string
  {
    if base == [] then comp
    else if comp == [] then base
    else if base[|base| - 1] == '/' then
      if comp[0] == '/' then base + comp[1..] else base + comp
    else
      if comp[0] == '/' then base + comp else base + "/" + comp
  }

  /** s without one trailing '/'. */
  function DropTrailingSlash(s: string): (r: string)
    ensures |r| <= |s|
  {
    if s != [] && s[|s| - 1] == '/' then s[..|s| - 1] else s
  }

  /** s without one leading '/'. */
  function DropLeadingSlash(s: string): (r: string)
    ensures |r| <= |s|
  {
    if s != [] && s[0] == '/' then s[1..] else s
  }

  /** Joining two non-empty components puts a single '/' between them once
      one '/' is dropped from each side of the junction; an empty side
      contributes nothing. */
  lemma JoinPathJunction(base: string, comp: string)
    ensures base == [] ==> JoinPath(base, comp) == comp
    ensures base != [] && comp == [] ==> JoinPath(base, comp) == base
    ensures base != [] && comp != [] ==>
      JoinPath(base, comp) == DropTrailingSlash(base) + "/" + DropLeadingSlash(comp)
  {
    if base != [] && comp != [] {
      var b, c := DropTrailingSlash(base), DropLeadingSlash(comp);
      if base[|base| - 1] == '/' {
        assert base == b + "/";
        if comp[0] != '/' {
          assert base + comp == b + "/" + c;
        }
      } else if comp[0] == '/' {
        assert comp == "/" + c;
        assert base + comp == b + "/" + c;
      }
    }
  }

  /** `find_last_of('/')`: the index of the last '/', or -1. */
  function LastSlash(s: string): (p: int)
    ensures -1 <= p < |s|
    ensures p >= 0 ==> s[p] == '/'
    ensures forall k :: p < k < |s| ==> s[k] != '/'
  {
    if s == [] then -1
    else if s[|s| - 1] == '/' then |s| - 1
    else LastSlash(s[..|s| - 1])
  }

  /** `parentPath`: everything before the last '/'; the root "/" when that
      '/' is the first character; empty when there is no '/'. */
  function ParentPath(path: string): string
  {
    if path == [] then ""
    else
      var pos := LastSlash(path);
      if pos < 0 then ""
      else if pos == 0 then "/"
      else path[..pos]
  }

  /** The parent of a directory joined with a name that holds no '/' is
      that directory. */
  lemma ParentOfJoin(dir: string, name: string)
    requires dir != [] && (dir == "/" || dir[|dir| - 1] != '/')
    requires name != [] && '/' !in name
    ensures ParentPath(JoinPath(dir, name)) == dir
  {
    var p := JoinPath(dir, name);
    if dir == "/" {
      assert p == "/" + name;
      forall k | 0 < k < |p|
        ensures p[k] != '/'
      {
        assert p[k] == name[k - 1] && name[k - 1] in name;
      }
    } else {
      assert p == dir + "/" + name;
      forall k | |dir| < k < |p|
        ensures p[k] != '/'
      {
        assert p[k] == name[k - |dir| - 1] && name[k - |dir| - 1] in name;
      }
      assert p[|dir|] == '/';
      assert p[..|dir|] == dir;
    }
  }

  /** The directory the cache lives in: `<baseDir>/trip-cache/v3/<graph
      fingerprint>/<parameter fingerprint>`. */
  function CacheRoot(baseDir: string, graphHash: string, paramsHash: string): string
  {
    JoinPath(JoinPath(JoinPath(JoinPath(baseDir, "trip-cache"), "v3"), graphHash), paramsHash)
  }

  /** `entryPath`: entries are sharded by the first two characters of
      their key. */
  function EntryPath(root: string, key: string): string
  {
    var dir := if |key| >= 2 then JoinPath(root, key[..2]) else root;
    JoinPath(dir, key + ".bin")
  }

  /** A name that can sit between two '/' of a path. */
  predicate PlainName(s: string)
  {
    s != [] && '/' !in s
  }

  /** With fingerprints and a key free of '/', the root is the five parts
      joined by '/', an entry is `<root>/<first two characters>/<key>.bin`
      (or `<root>/<key>.bin` for a shorter key), and the directory `store`
      creates for it is the entry's parent. */
  lemma EntryPathShape(baseDir: string, graphHash: string, paramsHash: string, key: string)
    requires PlainName(baseDir) && PlainName(graphHash) && PlainName(paramsHash)
    requires '/' !in key
    ensures CacheRoot(baseDir, graphHash, paramsHash) ==
      baseDir + "/trip-cache/v3/" + graphHash + "/" + paramsHash
    ensures var root := CacheRoot(baseDir, graphHash, paramsHash);
      |key| >= 2 ==> EntryPath(root, key) == root + "/" + key[..2] + "/" + key + ".bin"
    ensures var root := CacheRoot(baseDir, graphHash, paramsHash);
      |key| < 2 ==> EntryPath(root, key) == root + "/" + key + ".bin"
    ensures var root := CacheRoot(baseDir, graphHash, paramsHash);
      ParentPath(EntryPath(root, key)) == if |key| >= 2 then root + "/" + key[..2] else root
  {
    var a := JoinPath(baseDir, "trip-cache");
    assert a == baseDir + "/trip-cache";
    var b := JoinPath(a, "v3");
    assert b == baseDir + "/trip-cache/v3";
    var c := JoinPath(b, graphHash);
    assert c == baseDir + "/trip-cache/v3/" + graphHash;
    var root := JoinPath(c, paramsHash);
    assert root == baseDir + "/trip-cache/v3/" + graphHash + "/" + paramsHash;
    assert root[|root| - 1] == paramsHash[|paramsHash| - 1];
    var name := key + ".bin";
    assert '/' !in name by {
      assert forall k :: 0 <= k < |key| ==> name[k] == key[k];
      assert forall k :: |key| <= k < |name| ==> name[k] == ".bin"[k - |key|];
    }
    if |key| >= 2 {
      assert '/' !in key[..2] by {
        assert key[..2][0] == key[0] && key[..2][1] == key[1];
      }
      var dir := JoinPath(root, key[..2]);
      assert dir == root + "/" + key[..2];
      assert dir[|dir| - 1] == key[1];
      assert EntryPath(root, key) == dir + "/" + name;
      ParentOfJoin(dir, name);
    } else {
      assert EntryPath(root, key) == root + "/" + name;
      ParentOfJoin(root, name);
    }
  }
}
