/** The key and fingerprint helpers of src/pfaedle/router/TripCache.cpp:
    packing a quantised coordinate into 64 bits, fixed-width hexadecimal,
    the canonical key of a set of transport modes, and the seed derived
    from the graph and parameter fingerprints. */
module TripKeys {
  import opened CStrings
  import opened Bytes
  import opened Sorting

  // ---------------------------------------------------------------------
  // packCoord
  // ---------------------------------------------------------------------

  type I32 = x: int | -0x8000_0000 <= x < 0x8000_0000

  /** `static_cast<uint32_t>` of a 32-bit signed value: two's complement. */
  function AsU32(x: I32): (u: U32)
    ensures x >= 0 ==> u == x
    ensures x < 0 ==> u == x + Two32
  {
    x % Two32
  }

  /** The signed value a 32-bit pattern stands for. */
  function AsI32(u: U32): I32
  {
    if u < 0x8000_0000 then u else u - Two32
  }

  /** `packCoord`: the latitude's 32-bit pattern in the high half and the
      longitude's in the low half. The halves occupy disjoint bits, so the
      source's `|` of the shifted halves is their sum. */
  function PackCoord(lat: I32, lon: I32): U64
  {
    AsU32(lat) * Two32 + AsU32(lon)
  }

  /** Unpacking recovers both coordinates, so no two coordinate pairs pack
      alike. */
  lemma PackCoordRoundTrip(lat: I32, lon: I32)
    ensures AsI32(PackCoord(lat, lon) / Two32) == lat
    ensures AsI32(PackCoord(lat, lon) % Two32) == lon
  {
    var hi, lo := AsU32(lat), AsU32(lon);
    assert PackCoord(lat, lon) / Two32 == hi;
    assert PackCoord(lat, lon) % Two32 == lo;
  }

  lemma PackCoordInjective(lat: I32, lon: I32, lat': I32, lon': I32)
    requires PackCoord(lat, lon) == PackCoord(lat', lon')
    ensures lat == lat' && lon == lon'
  {
    PackCoordRoundTrip(lat, lon);
    PackCoordRoundTrip(lat', lon');
  }

  // ---------------------------------------------------------------------
  // toHex, digestToHex
  // ---------------------------------------------------------------------

  /** `toHex` with its default width: lower-case hexadecimal padded with
      '0' to 16 characters. */
  function ToHex(v: U64): string
  {
    ZeroPad(HexOf(v), 16)
  }

  lemma Pow16Facts()
    ensures Pow16(8) == Two32 && Pow16(16) == Two64
  {
    assert Pow16(4) == 0x1_0000;
    assert Pow16(8) == 0x1_0000_0000;
    assert Pow16(12) == 0x1_0000_0000_0000;
  }

  /** Every uint64_t prints as exactly 16 lower-case hex digits that read
      back as the value. */
  lemma ToHexFacts(v: U64)
    ensures |ToHex(v)| == 16
    ensures forall i :: 0 <= i < 16 ==> IsLowerHex(ToHex(v)[i]) && 0 <= HexValue(ToHex(v)[i]) < 16
    ensures HexNumber(ToHex(v)) == v
  {
    Pow16Facts();
    HexOfLength(v, 16);
    HexOfRoundTrip(v);
    ZeroPadValue(HexOf(v), 16);
    var h := HexOf(v);
    var r := ToHex(v);
    forall i | 0 <= i < 16
      ensures IsLowerHex(r[i]) && 0 <= HexValue(r[i]) < 16
    {
      if i >= 16 - |h| {
        assert r[i] == r[16 - |h|..][i - (16 - |h|)] == h[i - (16 - |h|)];
      }
    }
  }

  /** `digestToHex`: the high word's digits, then the low word's. */
  function DigestToHex(lo: U64, hi: U64): string
  {
    ToHex(hi) + ToHex(lo)
  }

  /** A digest prints as 32 hex digits: the first 16 read back as the high
      word, the last 16 as the low word, and all 32 as the 128-bit number
      hi * 2^64 + lo. */
  lemma DigestToHexFacts(lo: U64, hi: U64)
    ensures |DigestToHex(lo, hi)| == 32
    ensures HexNumber(DigestToHex(lo, hi)[..16]) == hi
    ensures HexNumber(DigestToHex(lo, hi)[16..]) == lo
    ensures HexNumber(DigestToHex(lo, hi)) == hi * Two64 + lo
  {
    ToHexFacts(lo);
    ToHexFacts(hi);
    Pow16Facts();
    var d := DigestToHex(lo, hi);
    assert d[..16] == ToHex(hi) && d[16..] == ToHex(lo);
    HexNumberAppend(ToHex(hi), ToHex(lo));
  }

  // ---------------------------------------------------------------------
  // motSetKey
  // ---------------------------------------------------------------------

  /** Decimal digits of a natural number, as `operator<<` prints them. */
  function NatDecimal(n: nat): (s: string)
    ensures |s| >= 1
    ensures forall i :: 0 <= i < |s| ==> IsDigit(s[i])
  {
    if n < 10 then [('0' as int + n) as char]
    else NatDecimal(n / 10) + [('0' as int + n % 10) as char]
  }

  /** An `int` as `operator<<` prints it. */
  function IntDecimal(n: int): string
  {
    if n < 0 then "-" + NatDecimal(-n) else NatDecimal(n)
  }

  /** The parts separated by `sep`. */
  function Join(parts: seq<string>, sep: char): string
  {
    if parts == [] then ""
    else if |parts| == 1 then parts[0]
    else Join(parts[..|parts| - 1], sep) + [sep] + parts[|parts| - 1]
  }

  function Identity(x: int): int
  {
    x
  }

  /** `motSetKey`: the mode codes in ascending order, printed in decimal and
      joined by ','. */
  function MotSetKey(mots: seq<int>): string
  {
    var sorted := SortBy(mots, Identity);
    Join(seq(|sorted|, i requires 0 <= i < |sorted| => IntDecimal(sorted[i])), ',')
  }

  /** Two ascending sequences with the same elements start alike. */
  lemma SameHead(a: seq<int>, b: seq<int>)
    requires SortedBy(a, Identity) && SortedBy(b, Identity)
    requires multiset(a) == multiset(b) && a != []
    ensures b != [] && a[0] == b[0]
  {
    assert a[0] in multiset(b);
    var j :| 0 <= j < |b| && b[j] == a[0];
    assert b[0] in multiset(a);
    var i :| 0 <= i < |a| && a[i] == b[0];
    assert Identity(b[0]) <= Identity(b[j]);
    assert Identity(a[0]) <= Identity(a[i]);
  }

  /** Two ascending sequences with the same elements are the same sequence. */
  lemma {:induction false} SortedUnique(a: seq<int>, b: seq<int>)
    requires SortedBy(a, Identity) && SortedBy(b, Identity)
    requires multiset(a) == multiset(b)
    ensures a == b
  {
    if a == [] {
      assert |b| == |multiset(b)| == 0;
    } else {
      SameHead(a, b);
      assert a == [a[0]] + a[1..] && b == [b[0]] + b[1..];
      assert multiset(a) == multiset{a[0]} + multiset(a[1..]);
      assert multiset(b) == multiset{b[0]} + multiset(b[1..]);
      assert multiset(a[1..]) == multiset(a) - multiset{a[0]};
      assert multiset(b[1..]) == multiset(b) - multiset{b[0]};
      SortedTail(a);
      SortedTail(b);
      SortedUnique(a[1..], b[1..]);
    }
  }

  lemma SortedTail(a: seq<int>)
    requires a != [] && SortedBy(a, Identity)
    ensures SortedBy(a[1..], Identity)
  {
    forall i, j | 0 <= i < j < |a| - 1
      ensures Identity(a[1..][i]) <= Identity(a[1..][j])
    {
      assert a[1..][i] == a[i + 1] && a[1..][j] == a[j + 1];
    }
  }

  /** The key depends only on which modes are present, not on the order in
      which the set yields them. */
  lemma MotSetKeyOrderFree(a: seq<int>, b: seq<int>)
    requires multiset(a) == multiset(b)
    ensures MotSetKey(a) == MotSetKey(b)
  {
    SortedUnique(SortBy(a, Identity), SortBy(b, Identity));
  }

  /** The key of a single mode is its code; a longer key is the key of the
      lower codes, a ',' and the highest code. */
  lemma MotSetKeyShape(mots: seq<int>)
    ensures |mots| == 0 ==> MotSetKey(mots) == ""
    ensures |mots| == 1 ==> MotSetKey(mots) == IntDecimal(mots[0])
  {
    if |mots| == 1 {
      assert SortBy(mots, Identity) == mots by {
        assert multiset(SortBy(mots, Identity)) == multiset{mots[0]};
        var s := SortBy(mots, Identity);
        assert s[0] in multiset(s);
      }
    }
  }

  /** An ascending list of codes is printed in the order given. */
  lemma MotSetKeyOfSorted(s: seq<int>)
    requires SortedBy(s, Identity)
    ensures MotSetKey(s) == Join(seq(|s|, i requires 0 <= i < |s| => IntDecimal(s[i])), ',')
  {
    SortedUnique(SortBy(s, Identity), s);
  }

  // ---------------------------------------------------------------------
  // deriveDeterministicSeed
  // ---------------------------------------------------------------------

  /** The number of leading hexadecimal digits of s. */
  function HexRun(s: string): (n: nat)
    ensures n <= |s|
    ensures forall i :: 0 <= i < n ==> 0 <= HexValue(s[i]) < 16
    ensures n < |s| ==> HexValue(s[n]) < 0
  {
    if s == [] || HexValue(s[0]) < 0 then 0 else 1 + HexRun(s[1..])
  }

  /** Reading an `unsigned` with `std::hex` from s: the leading hexadecimal
      digits, and 0 when there are none. */
  function ReadHex(s: string): nat
  {
    HexNumberBound(s[..HexRun(s)]);
    HexNumber(s[..HexRun(s)])
  }

  lemma ReadHexBound(s: string)
    requires |s| <= 8
    ensures ReadHex(s) < Two32
  {
    var t := s[..HexRun(s)];
    HexNumberBound(t);
    Pow16Facts();
    Pow16Monotone(|t|, 8);
  }

  lemma {:induction false} Pow16Monotone(j: nat, k: nat)
    requires j <= k
    ensures Pow16(j) <= Pow16(k)
    decreases k
  {
    if j < k {
      Pow16Monotone(j, k - 1);
    }
  }

  /** `mixComponent`: the first up-to-8 characters read as hex, XOR the
      last 8 characters read as hex when there are at least 8. */
  function MixComponent(hex: string): bv32
  {
    if hex == [] then 0
    else
      var head := hex[..if |hex| < 8 then |hex| else 8];
      ReadHexBound(head);
      var hi := ReadHex(head) as bv32;
      if |hex| >= 8 then
        ReadHexBound(hex[|hex| - 8..]);
        hi ^ ReadHex(hex[|hex| - 8..]) as bv32
      else hi
  }

  const SeedBasis: bv32 := 0x811C9DC5
  const GoldenRatio: bv32 := 0x9e3779b9
  const ZeroSeedReplacement: bv32 := 0x9747b28c

  /** One `mix` step, in unsigned 32-bit arithmetic. */
  function Mix(seed: bv32, value: bv32): bv32
  {
    seed ^ (value + GoldenRatio + (seed << 6) + (seed >> 2))
  }

  /** `deriveDeterministicSeed`: mix both fingerprints into the basis and
      replace a zero result. */
  function DeriveSeed(graphHash: string, paramsHash: string): (seed: bv32)
    ensures seed != 0
  {
    var s := Mix(Mix(SeedBasis, MixComponent(graphHash)), MixComponent(paramsHash));
    if s == 0 then ZeroSeedReplacement else s
  }

  /** A string of hex digits reads as its whole value. */
  lemma ReadHexAll(s: string)
    requires forall i :: 0 <= i < |s| ==> 0 <= HexValue(s[i]) < 16
    ensures ReadHex(s) == HexNumber(s)
  {
    assert HexRun(s) == |s|;
    assert s[..|s|] == s;
  }

  /** For a printed digest the component is the top 32 bits of the high
      word XOR the bottom 32 bits of the low word. */
  lemma MixComponentOfDigest(lo: U64, hi: U64)
    ensures MixComponent(DigestToHex(lo, hi)) == (hi / Two32) as bv32 ^ (lo % Two32) as bv32
  {
    var d := DigestToHex(lo, hi);
    DigestEnds(lo, hi);
    MixComponentLong(d);
  }

  /** The first eight digits of a digest read as the top half of the high
      word, the last eight as the bottom half of the low word. */
  lemma DigestEnds(lo: U64, hi: U64)
    ensures |DigestToHex(lo, hi)| == 32
    ensures ReadHex(DigestToHex(lo, hi)[..8]) == hi / Two32
    ensures ReadHex(DigestToHex(lo, hi)[24..]) == lo % Two32
  {
    var d := DigestToHex(lo, hi);
    ToHexFacts(lo);
    ToHexFacts(hi);
    Pow16Facts();
    var h, l := ToHex(hi), ToHex(lo);
    assert d[..8] == h[..8];
    assert d[24..] == l[8..];
    HexWords(h, hi);
    HexWords(l, lo);
    ReadHexAll(h[..8]);
    ReadHexAll(l[8..]);
  }

  /** With at least eight characters, both ends are read. */
  lemma MixComponentLong(hex: string)
    requires |hex| >= 8
    ensures ReadHex(hex[..8]) < Two32 && ReadHex(hex[|hex| - 8..]) < Two32
    ensures MixComponent(hex) == ReadHex(hex[..8]) as bv32 ^ ReadHex(hex[|hex| - 8..]) as bv32
  {
    ReadHexBound(hex[..8]);
    ReadHexBound(hex[|hex| - 8..]);
  }

  /** The two halves of 16 hex digits worth v are v's high and low 32 bits. */
  lemma HexWords(s: string, v: U64)
    requires |s| == 16 && HexNumber(s) == v
    requires forall i :: 0 <= i < 16 ==> 0 <= HexValue(s[i]) < 16
    requires Pow16(8) == Two32
    ensures HexNumber(s[..8]) == v / Two32 && HexNumber(s[8..]) == v % Two32
  {
    assert s == s[..8] + s[8..];
    HexNumberAppend(s[..8], s[8..]);
    HexNumberBound(s[8..]);
    HexNumberBound(s[..8]);
    var a, b := HexNumber(s[..8]), HexNumber(s[8..]);
    assert v == a * Two32 + b && 0 <= b < Two32;
  }

  /** A fingerprint of exactly eight characters reads the same substring
      twice and so contributes nothing. */
  lemma MixComponentEight(hex: string)
    requires |hex| == 8
    ensures MixComponent(hex) == 0
  {
    var h := hex[..8];
    assert h == hex[|hex| - 8..];
    ReadHexBound(h);
    var x := ReadHex(h) as bv32;
    assert MixComponent(hex) == x ^ x;
  }
}
