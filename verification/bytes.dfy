/** Bytes and the fixed-width unsigned integers the trip cache writes to
    disk. Integers are stored in little-endian byte order, the order of the
    x86-64 hosts the program runs on. */
module Bytes {

  type Byte = b: int | 0 <= b < 256

  const Two32: nat := 0x1_0000_0000
  const Two64: nat := 0x1_0000_0000_0000_0000

  type U32 = n: nat | n < Two32
  type U64 = n: nat | n < Two64

  /** Powers of 256. */
  function Pow256(n: nat): (p: nat)
    ensures p >= 1
  {
    if n == 0 then 1 else 256 * Pow256(n - 1)
  }

  lemma Pow256Facts()
    ensures Pow256(4) == Two32 && Pow256(8) == Two64
  {
    assert Pow256(2) == 0x1_0000;
    assert Pow256(4) == 0x1_0000_0000;
    assert Pow256(6) == 0x1_0000_0000_0000;
  }

  /** The n low-order bytes of v, least significant first. */
  function LittleEndian(v: nat, n: nat): (s: seq<Byte>)
    ensures |s| == n
  {
    if n == 0 then [] else [v % 256] + LittleEndian(v / 256, n - 1)
  }

  /** The number that a little-endian byte string stands for. */
  function FromLittleEndian(s: seq<Byte>): (v: nat)
  {
    if s == [] then 0 else s[0] + 256 * FromLittleEndian(s[1..])
  }

  lemma {:induction false} FromLittleEndianBound(s: seq<Byte>)
    ensures FromLittleEndian(s) < Pow256(|s|)
  {
    if s != [] {
      FromLittleEndianBound(s[1..]);
      var rest := FromLittleEndian(s[1..]);
      assert rest + 1 <= Pow256(|s| - 1);
      assert 256 * (rest + 1) <= 256 * Pow256(|s| - 1);
    }
  }

  /** Encoding a number that fits in n bytes and decoding it gives it back. */
  lemma {:induction false} LittleEndianRoundTrip(v: nat, n: nat)
    requires v < Pow256(n)
    ensures FromLittleEndian(LittleEndian(v, n)) == v
  {
    if n > 0 {
      var s := LittleEndian(v, n);
      assert s[1..] == LittleEndian(v / 256, n - 1);
      assert v / 256 < Pow256(n - 1);
      LittleEndianRoundTrip(v / 256, n - 1);
    }
  }

  /** Decoding n bytes and encoding the result gives the same bytes. */
  lemma {:induction false} FromLittleEndianRoundTrip(s: seq<Byte>)
    ensures LittleEndian(FromLittleEndian(s), |s|) == s
  {
    if s != [] {
      var v := FromLittleEndian(s);
      assert v % 256 == s[0] && v / 256 == FromLittleEndian(s[1..]);
      FromLittleEndianRoundTrip(s[1..]);
    }
  }

  function EncodeU32(v: U32): (s: seq<Byte>)
    ensures |s| == 4
  {
    LittleEndian(v, 4)
  }

  function EncodeU64(v: U64): (s: seq<Byte>)
    ensures |s| == 8
  {
    LittleEndian(v, 8)
  }

  /** Reading back a written uint32_t or uint64_t gives the value written. */
  lemma DecodeEncode(a: U32, b: U64)
    ensures FromLittleEndian(EncodeU32(a)) == a
    ensures FromLittleEndian(EncodeU64(b)) == b
  {
    Pow256Facts();
    LittleEndianRoundTrip(a, 4);
    LittleEndianRoundTrip(b, 8);
  }

  /** The value of four or eight bytes is a uint32_t or a uint64_t. */
  lemma DecodeFits(s: seq<Byte>)
    ensures |s| == 4 ==> FromLittleEndian(s) < Two32
    ensures |s| == 8 ==> FromLittleEndian(s) < Two64
  {
    Pow256Facts();
    FromLittleEndianBound(s);
  }
}
