/** The binary format of a trip-cache entry (`writeEntry` and `readEntry` in
    src/pfaedle/router/TripCache.cpp): a magic "PFC3", the format version 3,
    the number of hops, then per hop four presence flags, the two progress
    values, the start and end points when there is no start or end edge,
    the edge hashes, and the start and end edge hashes. Doubles are opaque
    8-byte blobs; edges are written as their forward hash and resolved
    through the edge index when read. */
module EntryFormat {
  import opened Bytes
  import opened Wrappers
  import opened EdgeIndex
  import TripKeys

  /** A double as the eight bytes it occupies. */
  type Double = s: seq<Byte> | |s| == 8 witness [0, 0, 0, 0, 0, 0, 0, 0]

  /** The bytes of 0.0, the coordinates of a default-constructed point. */
  const ZeroDouble: Double := [0, 0, 0, 0, 0, 0, 0, 0]

  type Point = (Double, Double)

  const ZeroPoint: Point := (ZeroDouble, ZeroDouble)

  /** One hop of a cached trip: its edges, optional start and end edges,
      progress along them, and start and end points. */
  datatype Hop<E> = Hop(
    edges: seq<E>,
    start: Option<E>,
    end: Option<E>,
    progrStart: Double,
    progrEnd: Double,
    pointStart: Point,
    pointEnd: Point)

  const Version: U32 := 3

  /** 'P', 'F', 'C' and the digit of the version. */
  const Magic: seq<Byte> := [0x50, 0x46, 0x43, 0x30 + Version]

  // ---------------------------------------------------------------------
  // Writing
  // ---------------------------------------------------------------------

  function Flag(b: bool): Byte
  {
    if b then 1 else 0
  }

  /** The file is produced front to back; each writer below gives the
      bytes of its item followed by `rest`, the bytes written after it. */
  function HashThen(h: EdgeHash, rest: seq<Byte>): (s: seq<Byte>)
    ensures |s| == 16 + |rest|
  {
    EncodeU64(h.lo) + (EncodeU64(h.hi) + rest)
  }

  /** A point is written only when it is present. */
  function PointThen(present: bool, p: Point, rest: seq<Byte>): (s: seq<Byte>)
    ensures |s| == (if present then 16 else 0) + |rest|
  {
    if present then p.0 + (p.1 + rest) else rest
  }

  /** The hash written for an optional edge: zero when it is absent. */
  function HashOf<E>(e: Option<E>, hash: E -> EdgeHash): EdgeHash
  {
    if e.Some? then hash(e.value) else EdgeHash(0, 0)
  }

  function EdgesThen<E>(edges: seq<E>, hash: E -> EdgeHash, rest: seq<Byte>): (s: seq<Byte>)
    ensures |s| == 16 * |edges| + |rest|
  {
    if edges == [] then rest else HashThen(hash(edges[0]), EdgesThen(edges[1..], hash, rest))
  }

  /** One hop: flags, progress values, the points of a hop without start or
      end edge, the edge count truncated to uint32_t, the edge hashes, and
      the start and end hashes. */
  function HopThen<E>(h: Hop<E>, hash: E -> EdgeHash, rest: seq<Byte>): seq<Byte>
  {
    [Flag(h.start.Some?), Flag(h.end.Some?), Flag(h.start.None?), Flag(h.end.None?)]
      + (h.progrStart + (h.progrEnd
      + PointThen(h.start.None?, h.pointStart,
          PointThen(h.end.None?, h.pointEnd,
            EncodeU32(|h.edges| % Two32)
              + EdgesThen(h.edges, hash,
                  HashThen(HashOf(h.start, hash), HashThen(HashOf(h.end, hash), rest)))))))
  }

  function HopsThen<E>(hops: seq<Hop<E>>, hash: E -> EdgeHash, rest: seq<Byte>): seq<Byte>
  {
    if hops == [] then rest else HopThen(hops[0], hash, HopsThen(hops[1..], hash, rest))
  }

  /** `writeEntry`: the bytes of the file, with every edge written as its
      forward hash. */
  function WriteEntry<E>(hops: seq<Hop<E>>, hash: E -> EdgeHash): seq<Byte>
  {
    Magic + (EncodeU32(Version) + (EncodeU32(|hops| % Two32) + HopsThen(hops, hash, [])))
  }

  /** A hop takes 4 flag bytes, 16 bytes of progress, 16 bytes for each
      point written, a 4-byte edge count, 16 bytes per edge and 32 bytes of
      start and end hashes; a point is written exactly when its edge is
      absent. */
  lemma HopSize<E>(h: Hop<E>, hash: E -> EdgeHash)
    ensures |HopThen(h, hash, [])| ==
      4 + 16 + (if h.start.None? then 16 else 0) + (if h.end.None? then 16 else 0)
        + 4 + 16 * |h.edges| + 32
  {
  }

  // ---------------------------------------------------------------------
  // Reading
  // ---------------------------------------------------------------------

  /** Why `readEntry` gives up. Opening the file is not modelled. */
  datatype ReadError =
    | InvalidMagic
    | VersionMismatch
    | HopCountReadFailed
    | EdgeCountReadFailed
    | EdgeHashReadFailed
    | UnresolvedEdge(h: EdgeHash)
    | StartEndHashReadFailed
    | UnresolvedStart(h: EdgeHash)
    | UnresolvedEnd(h: EdgeHash)

  /** The text `readEntry` reports for each failure. */
  function Reason(err: ReadError): string
  {
    match err
    case InvalidMagic => "invalid magic"
    case VersionMismatch => "version mismatch"
    case HopCountReadFailed => "hop count read failed"
    case EdgeCountReadFailed => "edge count read failed"
    case EdgeHashReadFailed => "edge hash read failed"
    case UnresolvedEdge(h) => "unresolved edge hash=" + TripKeys.ToHex(h.hi) + TripKeys.ToHex(h.lo)
    case StartEndHashReadFailed => "start/end hash read failed"
    case UnresolvedStart(h) => "unresolved start hash=" + TripKeys.ToHex(h.hi) + TripKeys.ToHex(h.lo)
    case UnresolvedEnd(h) => "unresolved end hash=" + TripKeys.ToHex(h.hi) + TripKeys.ToHex(h.lo)
  }

  function ReadU32(s: seq<Byte>): U32
    requires |s| == 4
  {
    DecodeFits(s);
    FromLittleEndian(s)
  }

  function ReadU64(s: seq<Byte>): U64
    requires |s| == 8
  {
    DecodeFits(s);
    FromLittleEndian(s)
  }

  function ReadHash(s: seq<Byte>): EdgeHash
    requires |s| == 16
  {
    EdgeHash(ReadU64(s[..8]), ReadU64(s[8..]))
  }

  /** What precedes the edge list of a hop. */
  datatype Head = Head(
    hasStartEdge: bool,
    hasEndEdge: bool,
    hasStartPoint: bool,
    hasEndPoint: bool,
    progrStart: Double,
    progrEnd: Double,
    pointStart: Point,
    pointEnd: Point,
    edgeCount: U32)

  /** A point that is present, or the default point. */
  function TakePoint(present: bool, s: seq<Byte>): (r: Option<(Point, seq<Byte>)>)
    ensures r.Some? ==> |r.value.1| <= |s|
  {
    if !present then Some((ZeroPoint, s))
    else if |s| < 16 then None
    else
      var x: Double, y: Double := s[..8], s[8..16];
      Some(((x, y), s[16..]))
  }

  /** The fields before the edge list, and what follows them; None when the
      bytes run out first, which the source notices when the edge count
      cannot be read. A point not present reads as the default point. */
  function ReadHead(s: seq<Byte>): (r: Option<(Head, seq<Byte>)>)
    ensures r.Some? ==> |r.value.1| < |s|
  {
    if |s| < 20 then None
    else
      var hasStartPoint, hasEndPoint := s[2] != 0, s[3] != 0;
      match ReadPoints(hasStartPoint, hasEndPoint, s[20..])
      case None => None
      case Some((pointStart, pointEnd, count, rest)) =>
        Some((Head(s[0] != 0, s[1] != 0, hasStartPoint, hasEndPoint, s[4..12], s[12..20],
                   pointStart, pointEnd, count), rest))
  }

  /** The points present, then the edge count. */
  function ReadPoints(hasStartPoint: bool, hasEndPoint: bool, s: seq<Byte>): (r: Option<(Point, Point, U32, seq<Byte>)>)
    ensures r.Some? ==> |r.value.3| < |s|
  {
    match TakePoint(hasStartPoint, s)
    case None => None
    case Some((pointStart, s1)) =>
      match TakePoint(hasEndPoint, s1)
      case None => None
      case Some((pointEnd, s2)) =>
        if |s2| < 4 then None
        else Some((pointStart, pointEnd, ReadU32(s2[..4]), s2[4..]))
  }

  /** The edge list: each hash is read and resolved before the next. */
  function ReadEdges<E>(s: seq<Byte>, n: nat, idx: Index<E>): (r: Result<(seq<E>, seq<Byte>), ReadError>)
    ensures r.Ok? ==> |r.value.1| <= |s|
    decreases n
  {
    if n == 0 then Ok(([], s))
    else if |s| < 16 then Err(EdgeHashReadFailed)
    else
      var h := ReadHash(s[..16]);
      match Resolve(idx, h)
      case None => Err(UnresolvedEdge(h))
      case Some(e) =>
        match ReadEdges(s[16..], n - 1, idx)
        case Err(err) => Err(err)
        case Ok((es, rest)) => Ok(([e] + es, rest))
  }

  /** The edge named by a flag and a hash: absent when the flag is clear,
      an error when the hash does not resolve. */
  function ReadOptional<E>(flag: bool, h: EdgeHash, idx: Index<E>, err: ReadError): Result<Option<E>, ReadError>
  {
    if !flag then Ok(None)
    else
      match Resolve(idx, h)
      case None => Err(err)
      case Some(e) => Ok(Some(e))
  }

  function ReadHop<E>(s: seq<Byte>, idx: Index<E>): (r: Result<(Hop<E>, seq<Byte>), ReadError>)
    ensures r.Ok? ==> |r.value.1| < |s|
  {
    match ReadHead(s)
    case None => Err(EdgeCountReadFailed)
    case Some((hd, s1)) =>
      match ReadEdges(s1, hd.edgeCount, idx)
      case Err(err) => Err(err)
      case Ok((edges, s2)) =>
        if |s2| < 32 then Err(StartEndHashReadFailed)
        else
          var startHash, endHash := ReadHash(s2[..16]), ReadHash(s2[16..32]);
          match ReadOptional(hd.hasStartEdge, startHash, idx, UnresolvedStart(startHash))
          case Err(err) => Err(err)
          case Ok(start) =>
            match ReadOptional(hd.hasEndEdge, endHash, idx, UnresolvedEnd(endHash))
            case Err(err) => Err(err)
            case Ok(end) =>
              Ok((Hop(edges, start, end, hd.progrStart, hd.progrEnd, hd.pointStart, hd.pointEnd), s2[32..]))
  }

  function ReadHops<E>(s: seq<Byte>, n: nat, idx: Index<E>): Result<seq<Hop<E>>, ReadError>
    decreases n
  {
    if n == 0 then Ok([])
    else
      match ReadHop(s, idx)
      case Err(err) => Err(err)
      case Ok((hop, rest)) =>
        match ReadHops(rest, n - 1, idx)
        case Err(err) => Err(err)
        case Ok(hops) => Ok([hop] + hops)
  }

  /** `readEntry`: check magic and version, read the hop count, read that
      many hops; bytes after the last hop are ignored. */
  function ReadEntry<E>(b: seq<Byte>, idx: Index<E>): Result<seq<Hop<E>>, ReadError>
  {
    if |b| < 4 || b[..4] != Magic then Err(InvalidMagic)
    else if |b| < 8 || ReadU32(b[4..8]) != Version then Err(VersionMismatch)
    else if |b| < 12 then Err(HopCountReadFailed)
    else ReadHops(b[12..], ReadU32(b[8..12]), idx)
  }

  // ---------------------------------------------------------------------
  // Round trip
  // ---------------------------------------------------------------------

  /** What reading gives back for a written hop: a point whose edge is
      present is not stored and reads as the default point. */
  function Canonical<E>(h: Hop<E>): Hop<E>
  {
    h.(pointStart := if h.start.Some? then ZeroPoint else h.pointStart,
       pointEnd := if h.end.Some? then ZeroPoint else h.pointEnd)
  }

  function CanonicalAll<E>(hops: seq<Hop<E>>): (r: seq<Hop<E>>)
    ensures |r| == |hops|
  {
    if hops == [] then [] else [Canonical(hops[0])] + CanonicalAll(hops[1..])
  }

  /** Every edge the hop mentions resolves back to itself from its hash. */
  ghost predicate Resolvable<E>(h: Hop<E>, hash: E -> EdgeHash, idx: Index<E>)
  {
    (forall i :: 0 <= i < |h.edges| ==> Resolve(idx, hash(h.edges[i])) == Some(h.edges[i])) &&
    (h.start.Some? ==> Resolve(idx, hash(h.start.value)) == Some(h.start.value)) &&
    (h.end.Some? ==> Resolve(idx, hash(h.end.value)) == Some(h.end.value))
  }

  lemma ReadHashThen(h: EdgeHash, rest: seq<Byte>)
    ensures ReadHash(HashThen(h, rest)[..16]) == h
    ensures HashThen(h, rest)[16..] == rest
  {
    var s := HashThen(h, rest);
    assert s[..16][..8] == EncodeU64(h.lo) && s[..16][8..] == EncodeU64(h.hi);
    DecodeEncode(0, h.lo);
    DecodeEncode(0, h.hi);
  }

  lemma {:induction false} ReadEdgesThen<E>(edges: seq<E>, hash: E -> EdgeHash, idx: Index<E>, rest: seq<Byte>)
    requires forall i :: 0 <= i < |edges| ==> Resolve(idx, hash(edges[i])) == Some(edges[i])
    ensures ReadEdges(EdgesThen(edges, hash, rest), |edges|, idx) == Ok((edges, rest))
  {
    if edges != [] {
      var e := edges[0];
      ReadHashThen(hash(e), EdgesThen(edges[1..], hash, rest));
      ReadEdgesThen(edges[1..], hash, idx, rest);
      assert edges == [e] + edges[1..];
    }
  }

  lemma TakePointThen(present: bool, p: Point, rest: seq<Byte>)
    ensures TakePoint(present, PointThen(present, p, rest)) ==
      Some((if present then p else ZeroPoint, rest))
  {
    if present {
      var s := PointThen(present, p, rest);
      assert s[..8] == p.0 && s[8..16] == p.1 && s[16..] == rest;
    }
  }

  /** The bytes after the progress values of a written hop. */
  function AfterProgress<E>(h: Hop<E>, hash: E -> EdgeHash, rest: seq<Byte>): seq<Byte>
  {
    PointThen(h.start.None?, h.pointStart,
      PointThen(h.end.None?, h.pointEnd,
        EncodeU32(|h.edges| % Two32) + EdgesAfterCount(h, hash, rest)))
  }

  /** The bytes after the edge count of a written hop. */
  function EdgesAfterCount<E>(h: Hop<E>, hash: E -> EdgeHash, rest: seq<Byte>): seq<Byte>
  {
    EdgesThen(h.edges, hash, HashThen(HashOf(h.start, hash), HashThen(HashOf(h.end, hash), rest)))
  }

  lemma HopPrefix<E>(h: Hop<E>, hash: E -> EdgeHash, rest: seq<Byte>)
    ensures var s := HopThen(h, hash, rest);
      |s| >= 20 && s[0] == Flag(h.start.Some?) && s[1] == Flag(h.end.Some?) &&
      s[2] == Flag(h.start.None?) && s[3] == Flag(h.end.None?) &&
      s[4..12] == h.progrStart && s[12..20] == h.progrEnd &&
      s[20..] == AfterProgress(h, hash, rest)
  {
  }

  lemma ReadHeadThen<E>(h: Hop<E>, hash: E -> EdgeHash, rest: seq<Byte>)
    requires |h.edges| < Two32
    ensures ReadHead(HopThen(h, hash, rest)) ==
      Some((Head(h.start.Some?, h.end.Some?, h.start.None?, h.end.None?, h.progrStart, h.progrEnd,
                 Canonical(h).pointStart, Canonical(h).pointEnd, |h.edges|), EdgesAfterCount(h, hash, rest)))
  {
    HopPrefix(h, hash, rest);
    ReadPointsThen(h, hash, rest);
  }

  lemma ReadPointsThen<E>(h: Hop<E>, hash: E -> EdgeHash, rest: seq<Byte>)
    requires |h.edges| < Two32
    ensures ReadPoints(h.start.None?, h.end.None?, AfterProgress(h, hash, rest)) ==
      Some((Canonical(h).pointStart, Canonical(h).pointEnd, |h.edges|, EdgesAfterCount(h, hash, rest)))
  {
    var n: U32 := |h.edges|;
    var after := EdgesAfterCount(h, hash, rest);
    assert n == |h.edges| % Two32;
    assert AfterProgress(h, hash, rest) ==
      PointThen(h.start.None?, h.pointStart, PointThen(h.end.None?, h.pointEnd, EncodeU32(n) + after));
    ReadPointsOf(h.start.None?, h.pointStart, h.end.None?, h.pointEnd, n, after);
  }

  lemma ReadPointsOf(a: bool, p: Point, b: bool, q: Point, n: U32, after: seq<Byte>)
    ensures ReadPoints(a, b, PointThen(a, p, PointThen(b, q, EncodeU32(n) + after))) ==
      Some((if a then p else ZeroPoint, if b then q else ZeroPoint, n, after))
  {
    var s2 := EncodeU32(n) + after;
    TakePointThen(a, p, PointThen(b, q, s2));
    TakePointThen(b, q, s2);
    assert s2[..4] == EncodeU32(n) && s2[4..] == after;
    DecodeEncode(n, 0);
  }

  lemma ReadHopThen<E>(h: Hop<E>, hash: E -> EdgeHash, idx: Index<E>, rest: seq<Byte>)
    requires |h.edges| < Two32 && Resolvable(h, hash, idx)
    ensures ReadHop(HopThen(h, hash, rest), idx) == Ok((Canonical(h), rest))
  {
    var startH, endH := HashOf(h.start, hash), HashOf(h.end, hash);
    var tail := HashThen(startH, HashThen(endH, rest));
    ReadHeadThen(h, hash, rest);
    assert EdgesAfterCount(h, hash, rest) == EdgesThen(h.edges, hash, tail);
    ReadEdgesThen(h.edges, hash, idx, tail);
    ReadHashThen(startH, HashThen(endH, rest));
    ReadHashThen(endH, rest);
    assert tail[..16] == HashThen(startH, HashThen(endH, rest))[..16];
    assert tail[16..32] == HashThen(endH, rest)[..16];
    assert tail[32..] == rest;
  }

  lemma {:induction false} ReadHopsThen<E>(hops: seq<Hop<E>>, hash: E -> EdgeHash, idx: Index<E>)
    requires forall i :: 0 <= i < |hops| ==> |hops[i].edges| < Two32 && Resolvable(hops[i], hash, idx)
    ensures ReadHops(HopsThen(hops, hash, []), |hops|, idx) ==
      Ok(CanonicalAll(hops))
  {
    if hops != [] {
      ReadHopThen(hops[0], hash, idx, HopsThen(hops[1..], hash, []));
      ReadHopsThen(hops[1..], hash, idx);
    }
  }

  /** Reading a written entry gives back its hops, with each point whose
      edge is present reset to the default, provided there are fewer than
      2^32 hops and edges per hop and every edge resolves to itself from its
      hash. */
  lemma ReadWriteEntry<E>(hops: seq<Hop<E>>, hash: E -> EdgeHash, idx: Index<E>)
    requires |hops| < Two32
    requires forall i :: 0 <= i < |hops| ==> |hops[i].edges| < Two32 && Resolvable(hops[i], hash, idx)
    ensures ReadEntry(WriteEntry(hops, hash), idx) ==
      Ok(CanonicalAll(hops))
  {
    EntryHeader(hops, hash);
    ReadHopsThen(hops, hash, idx);
  }

  /** The fixed fields of a written entry read back as written. */
  lemma EntryHeader<E>(hops: seq<Hop<E>>, hash: E -> EdgeHash)
    requires |hops| < Two32
    ensures var b := WriteEntry(hops, hash);
      |b| >= 12 && b[..4] == Magic && ReadU32(b[4..8]) == Version &&
      ReadU32(b[8..12]) == |hops| && b[12..] == HopsThen(hops, hash, [])
  {
    var b := WriteEntry(hops, hash);
    var body := HopsThen(hops, hash, []);
    var n: U32 := |hops| % Two32;
    var b2 := EncodeU32(n) + body;
    var b1 := EncodeU32(Version) + b2;
    assert n == |hops|;
    assert b == Magic + b1;
    assert b[..4] == Magic && b[4..] == b1;
    assert b1[..4] == EncodeU32(Version) && b1[4..] == b2;
    assert b2[..4] == EncodeU32(n) && b2[4..] == body;
    assert b[4..8] == b1[..4] && b[8..12] == b2[..4] && b[12..] == body;
    DecodeEncode(Version, 0);
    DecodeEncode(n, 0);
  }
}
