/** The small helpers of src/util/Misc.h and src/util/Misc.cpp: a
    default-valued sparse matrix, `factorial` and `atoul` on 64-bit unsigned
    integers, the trailing-zero trimming of `formatFloat`, `rgbToHex` and the
    HTML colour-name normaliser. */
module Misc {
  import opened CStrings
  import opened Wrappers

  const Two32: nat := 0x1_0000_0000
  const Two64: nat := 0x1_0000_0000_0000_0000

  // ---------------------------------------------------------------------
  // SparseMatrix
  // ---------------------------------------------------------------------

  /** A map from key pairs to values that reads `def` wherever nothing was
      set. The default is a template argument of the source class. */
  datatype SparseMatrix<K(==), V> = SparseMatrix(vals: map<(K, K), V>, def: V)

  function EmptyMatrix<K(==), V>(def: V): (m: SparseMatrix<K, V>)
    ensures m.vals == map[] && m.def == def
  {
    SparseMatrix(map[], def)
  }

  function Get<K(==), V>(m: SparseMatrix<K, V>, x: K, y: K): V
  {
    if (x, y) in m.vals then m.vals[(x, y)] else m.def
  }

  function Set<K(==), V>(m: SparseMatrix<K, V>, x: K, y: K, v: V): SparseMatrix<K, V>
  {
    m.(vals := m.vals[(x, y) := v])
  }

  /** Reading the cell just written gives the value written. */
  lemma GetSetSame<K, V>(m: SparseMatrix<K, V>, x: K, y: K, v: V)
    ensures Get(Set(m, x, y, v), x, y) == v
  {
  }

  /** Writing one cell leaves every other cell, and the default, as it was. */
  lemma GetSetOther<K, V>(m: SparseMatrix<K, V>, x: K, y: K, v: V, x': K, y': K)
    requires (x', y') != (x, y)
    ensures Get(Set(m, x, y, v), x', y') == Get(m, x', y')
    ensures Set(m, x, y, v).def == m.def
  {
  }

  /** The matrix obtained by applying the writes in `ops` in order. */
  function SetAll<K(==), V>(m: SparseMatrix<K, V>, ops: seq<(K, K, V)>): SparseMatrix<K, V>
  {
    if ops == [] then m
    else
      var last := ops[|ops| - 1];
      Set(SetAll(m, ops[..|ops| - 1]), last.0, last.1, last.2)
  }

  /** The value of the last write to key k in `ops`, or `def` if there is none. */
  function LastWrite<K(==), V>(ops: seq<(K, K, V)>, k: (K, K), def: V): (v: V)
    ensures (forall i :: 0 <= i < |ops| ==> (ops[i].0, ops[i].1) != k) ==> v == def
    ensures (exists i :: 0 <= i < |ops| && (ops[i].0, ops[i].1) == k) ==>
      exists i :: 0 <= i < |ops| && (ops[i].0, ops[i].1) == k && ops[i].2 == v &&
        forall j :: i < j < |ops| ==> (ops[j].0, ops[j].1) != k
  {
    if ops == [] then def
    else
      var last := ops[|ops| - 1];
      if (last.0, last.1) == k then last.2 else LastWrite(ops[..|ops| - 1], k, def)
  }

  /** After any sequence of writes to an empty matrix, `get` returns the
      default for a key never written and the last value written otherwise. */
  lemma {:induction false} GetAfterWrites<K, V>(def: V, ops: seq<(K, K, V)>, x: K, y: K)
    ensures Get(SetAll(EmptyMatrix(def), ops), x, y) == LastWrite(ops, (x, y), def)
  {
    if ops != [] {
      var last := ops[|ops| - 1];
      GetAfterWrites(def, ops[..|ops| - 1], x, y);
      if (last.0, last.1) != (x, y) {
        GetSetOther(SetAll(EmptyMatrix(def), ops[..|ops| - 1]), last.0, last.1, last.2, x, y);
      }
    }
  }

  // ---------------------------------------------------------------------
  // Modular arithmetic on uint64_t
  // ---------------------------------------------------------------------

  /** Adding a multiple of 2^64 does not change a remainder modulo 2^64. */
  lemma ModAddMultiple(y: int, k: int)
    ensures (y + k * Two64) % Two64 == y % Two64
  {
    var q, r := y / Two64, y % Two64;
    assert y == q * Two64 + r;
    assert y + k * Two64 == (q + k) * Two64 + r;
  }

  /** Reducing x modulo 2^64 before multiplying and adding changes nothing
      modulo 2^64. */
  lemma ModMulAdd(x: int, a: int, d: int)
    ensures ((x % Two64) * a + d) % Two64 == (x * a + d) % Two64
  {
    var q, r := x / Two64, x % Two64;
    assert x == q * Two64 + r;
    assert x * a == (q * Two64) * a + r * a;
    assert (q * Two64) * a == (q * a) * Two64;
    ModAddMultiple(r * a + d, q * a);
  }

  // ---------------------------------------------------------------------
  // factorial
  // ---------------------------------------------------------------------

  /** n! over the integers. */
  function MathFactorial(n: nat): (r: nat)
    ensures r >= 1
  {
    if n == 0 then 1 else n * MathFactorial(n - 1)
  }

  /** `factorial` on uint64_t: 1 below 2, and n times factorial(n - 1)
      with the product wrapped to 64 bits. */
  function Factorial(n: nat): (r: nat)
    requires n < Two64
    ensures r < Two64
  {
    if n < 2 then 1 else (n * Factorial(n - 1)) % Two64
  }

  /** The 64-bit factorial is the true factorial reduced modulo 2^64. */
  lemma {:induction false} FactorialIsMathFactorial(n: nat)
    requires n < Two64
    ensures Factorial(n) == MathFactorial(n) % Two64
  {
    if n >= 2 {
      FactorialIsMathFactorial(n - 1);
      ModMulAdd(MathFactorial(n - 1), n, 0);
      assert MathFactorial(n - 1) * n == n * MathFactorial(n - 1);
      assert Factorial(n - 1) * n == n * Factorial(n - 1);
    } else if n == 1 {
      assert MathFactorial(1) == 1;
    }
  }

  lemma NoSmallerProduct(f: nat, m: nat)
    requires m >= 1
    ensures f <= m * f
  {
    assert m * f == f + (m - 1) * f;
  }

  /** The factorial grows with its argument. */
  lemma {:induction false} MathFactorialMonotone(n: nat, m: nat)
    requires n <= m
    ensures MathFactorial(n) <= MathFactorial(m)
    decreases m - n
  {
    if n < m {
      MathFactorialMonotone(n + 1, m);
      var f := MathFactorial(n);
      assert MathFactorial(n + 1) == (n + 1) * f;
      NoSmallerProduct(f, n + 1);
    }
  }

  lemma MathFactorial20()
    ensures MathFactorial(20) == 2432902008176640000
  {
    assert MathFactorial(1) == 1;
    assert MathFactorial(2) == 2;
    assert MathFactorial(3) == 6;
    assert MathFactorial(4) == 24;
    assert MathFactorial(5) == 120;
    assert MathFactorial(6) == 720;
    assert MathFactorial(7) == 5040;
    assert MathFactorial(8) == 40320;
    assert MathFactorial(9) == 362880;
    assert MathFactorial(10) == 3628800;
    assert MathFactorial(11) == 39916800;
    assert MathFactorial(12) == 479001600;
    assert MathFactorial(13) == 6227020800;
    assert MathFactorial(14) == 87178291200;
    assert MathFactorial(15) == 1307674368000;
    assert MathFactorial(16) == 20922789888000;
    assert MathFactorial(17) == 355687428096000;
    assert MathFactorial(18) == 6402373705728000;
    assert MathFactorial(19) == 121645100408832000;
    assert MathFactorial(20) == 2432902008176640000;
  }

  /** Up to 20!, `factorial` is exact: 0! = 1! = 1 and n! = n * (n - 1)!. */
  lemma FactorialExact(n: nat)
    requires n <= 20
    ensures Factorial(n) == MathFactorial(n)
    ensures n >= 1 ==> Factorial(n) == n * Factorial(n - 1)
  {
    MathFactorial20();
    FactorialFits(n, 20);
    if n >= 1 {
      FactorialFits(n - 1, 20);
      assert MathFactorial(n) == n * MathFactorial(n - 1);
    }
  }

  /** Below any m whose factorial is under 2^64, `factorial` computes n!. */
  lemma FactorialFits(n: nat, m: nat)
    requires n <= m && MathFactorial(m) < Two64
    ensures Factorial(n) == MathFactorial(n)
  {
    var f := MathFactorial(n);
    MathFactorialMonotone(n, m);
    FactorialIsMathFactorial(n);
    assert 0 <= f < Two64;
    assert f % Two64 == f;
  }

  // ---------------------------------------------------------------------
  // atoul
  // ---------------------------------------------------------------------

  /** What one character adds in `atoul`: its offset from '0', which is
      negative or above 9 for characters that are not digits. */
  function DigitValue(c: char): int
  {
    c as int - '0' as int
  }

  /** The value `atoul` accumulates over the characters of s (none of them
      NUL): each step multiplies by 10 and adds the digit, wrapped to 64 bits. */
  function AtoulOf(s: string): (r: nat)
    ensures r < Two64
  {
    if s == [] then 0 else (AtoulOf(s[..|s| - 1]) * 10 + DigitValue(s[|s| - 1])) % Two64
  }

  predicate AllDigits(s: string)
  {
    forall i :: 0 <= i < |s| ==> IsDigit(s[i])
  }

  /** The decimal value of a string of digits. */
  function Decimal(s: string): (r: nat)
    requires AllDigits(s)
  {
    if s == [] then 0 else Decimal(s[..|s| - 1]) * 10 + DigitValue(s[|s| - 1])
  }

  /** `atoul` of a digit string is its decimal value modulo 2^64; in
      particular atoul("") = 0 and, without overflow,
      atoul(s + [d]) = 10 * atoul(s) + d. */
  lemma {:induction false} AtoulIsDecimal(s: string)
    requires AllDigits(s)
    ensures AtoulOf(s) == Decimal(s) % Two64
  {
    if s != [] {
      var init := s[..|s| - 1];
      AtoulIsDecimal(init);
      ModMulAdd(Decimal(init), 10, DigitValue(s[|s| - 1]));
    }
  }

  /** Appending a digit multiplies by ten and adds the digit, as long as the
      result stays below 2^64. */
  lemma AtoulAppend(s: string, d: char)
    requires AllDigits(s) && IsDigit(d)
    requires 10 * AtoulOf(s) + DigitValue(d) < Two64
    ensures AtoulOf(s + [d]) == 10 * AtoulOf(s) + DigitValue(d)
  {
    assert (s + [d])[..|s|] == s;
  }

  /** `atoul`: read characters up to the terminating NUL. */
  method Atoul(p: string) returns (ret: nat)
    ensures ret == AtoulOf(p[..CLength(p)])
    ensures AllDigits(p[..CLength(p)]) ==> ret == Decimal(p[..CLength(p)]) % Two64
  {
    ret := 0;
    var i := 0;
    while CharAt(p, i) != '\0'
      invariant i <= CLength(p)
      invariant ret == AtoulOf(p[..i])
      decreases |p| - i
    {
      assert p[..i + 1][..i] == p[..i];
      ret := (ret * 10 + DigitValue(p[i])) % Two64;
      i := i + 1;
    }
    if AllDigits(p[..CLength(p)]) {
      AtoulIsDecimal(p[..CLength(p)]);
    }
  }

  // ---------------------------------------------------------------------
  // formatFloat: trailing-zero trimming
  // ---------------------------------------------------------------------

  /** The index of the last character that is not '0', or -1 when there is
      none (`find_last_not_of('0')`). */
  function LastNotZero(s: string): (p: int)
    ensures -1 <= p < |s|
    ensures p >= 0 ==> s[p] != '0'
    ensures forall k :: p < k < |s| ==> s[k] == '0'
  {
    if s == [] then -1
    else if s[|s| - 1] != '0' then |s| - 1
    else LastNotZero(s[..|s| - 1])
  }

  /** The step of `formatFloat` after formatting: a result that ends in '0'
      and holds a '.' loses its trailing zeros, and the '.' too when nothing
      follows it. The formatted text is never empty. */
  function TrimZeros(s: string): (r: string)
    requires |s| > 0
  {
    if s[|s| - 1] == '0' && '.' in s then
      var p := LastNotZero(s);
      assert p >= 0 by {
        var k :| 0 <= k < |s| && s[k] == '.';
      }
      if s[p] == '.' then s[..p] else s[..p + 1]
    else s
  }

  /** What trimming removes: a prefix is kept, everything cut is '0' except
      that the first character cut may be the '.'; text without '.' is kept
      whole. */
  lemma TrimZerosShape(s: string)
    requires |s| > 0
    ensures |TrimZeros(s)| <= |s| && TrimZeros(s) == s[..|TrimZeros(s)|]
    ensures forall k :: |TrimZeros(s)| < k < |s| ==> s[k] == '0'
    ensures |TrimZeros(s)| < |s| ==> s[|TrimZeros(s)|] in {'0', '.'}
    ensures '.' !in s ==> TrimZeros(s) == s
  {
  }

  /** At most one '.' in the text, as in any formatted number. */
  predicate OneDotAtMost(s: string)
  {
    forall i, j :: 0 <= i < j < |s| ==> !(s[i] == '.' && s[j] == '.')
  }

  /** Trimming a formatted number twice is trimming it once. */
  lemma TrimZerosIdempotent(s: string)
    requires |s| > 0 && OneDotAtMost(s)
    requires |TrimZeros(s)| > 0
    ensures TrimZeros(TrimZeros(s)) == TrimZeros(s)
  {
    var r := TrimZeros(s);
    TrimZerosShape(s);
    if r != s && s[|r|] == '.' {
      assert '.' !in r by {
        forall k | 0 <= k < |r|
          ensures r[k] != '.'
        {
          assert s[k] == r[k];
        }
      }
    }
  }

  /** The last character that is not '0' is found wherever only zeros
      follow it. */
  lemma LastNotZeroAt(s: string, p: nat)
    requires p < |s| && s[p] != '0'
    requires forall k :: p < k < |s| ==> s[k] == '0'
    ensures LastNotZero(s) == p
  {
  }

  /** Trimming "<digits>.<digits>" followed by zeros, when the digits after
      the '.' end in something other than '0': the text up to that last
      digit is kept. */
  lemma TrimFraction(s: string, dot: nat, n: nat)
    requires dot < n - 1 && n < |s| && s[dot] == '.' && s[n - 1] !in {'0', '.'}
    requires forall k :: n <= k < |s| ==> s[k] == '0'
    ensures TrimZeros(s) == s[..n]
  {
    LastNotZeroAt(s, n - 1);
  }

  /** Trimming "<digits>." followed by zeros drops the '.' as well. */
  lemma TrimWhole(s: string, dot: nat)
    requires dot < |s| - 1 && s[dot] == '.'
    requires forall k :: dot < k < |s| ==> s[k] == '0'
    ensures TrimZeros(s) == s[..dot]
  {
    LastNotZeroAt(s, dot);
  }

  /** The outputs of `fmt` that the source's own examples keep or trim. */
  lemma TrimZerosKeeps()
    ensures TrimZeros("15.564") == "15.564"
    ensures TrimZeros("16") == "16"
  {
  }

  lemma TrimZerosWholeExamples()
    ensures TrimZeros("15.0000000000") == "15"
    ensures TrimZeros("0.0000000000") == "0"
    ensures TrimZeros("-1.0000000000") == "-1"
  {
    TrimWhole("15.0000000000", 2);
    TrimWhole("0.0000000000", 1);
    TrimWhole("-1.0000000000", 2);
  }

  lemma TrimZerosFractionExamples()
    ensures TrimZeros("15.0100000000") == "15.01"
    ensures TrimZeros("-15.0000010000") == "-15.000001"
  {
    TrimFraction("15.0100000000", 2, 5);
    TrimFraction("-15.0000010000", 3, 10);
  }

  // ---------------------------------------------------------------------
  // rgbToHex
  // ---------------------------------------------------------------------

  /** One component: an `int` printed with `%02x` is read as unsigned int,
      that is modulo 2^32, and padded with '0' to at least two digits. */
  function Component(v: int): string
  {
    ZeroPad(HexOf(v % Two32), 2)
  }

  /** `rgbToHex`: the three components printed into a 16-byte buffer, so at
      most 15 characters survive. */
  function RgbToHex(r: int, g: int, b: int): (s: string)
    ensures |s| <= 15
  {
    var full := Component(r) + Component(g) + Component(b);
    if |full| <= 15 then full else full[..15]
  }

  /** A component in 0..255 prints as two hex digits that read back as it. */
  lemma ComponentByte(v: int)
    requires 0 <= v < 256
    ensures |Component(v)| == 2
    ensures HexNumber(Component(v)) == v
    ensures forall i :: 0 <= i < 2 ==> 0 <= HexValue(Component(v)[i]) < 16
  {
    assert v % Two32 == v;
    var hi, lo := HexDigit(v / 16), HexDigit(v % 16);
    HexDigitValue(v / 16);
    HexDigitValue(v % 16);
    if v < 16 {
      assert HexOf(v) == [lo];
      assert Component(v) == ['0', lo];
      assert ['0', lo][..1] == ['0'];
      assert HexNumber(['0']) == 0 by {
        assert ['0'][..0] == [];
      }
    } else {
      assert HexOf(v / 16) == [hi];
      assert HexOf(v) == [hi, lo];
      assert Component(v) == [hi, lo];
      assert [hi, lo][..1] == [hi];
      assert HexNumber([hi]) == v / 16 by {
        assert [hi][..0] == [];
      }
    }
  }

  /** For components in 0..255 the colour is six hex digits, two per
      component in red, green, blue order, each pair reading back as its
      component. */
  lemma RgbToHexBytes(r: int, g: int, b: int)
    requires 0 <= r < 256 && 0 <= g < 256 && 0 <= b < 256
    ensures |RgbToHex(r, g, b)| == 6
    ensures forall i :: 0 <= i < 6 ==> 0 <= HexValue(RgbToHex(r, g, b)[i]) < 16
    ensures HexNumber(RgbToHex(r, g, b)[0..2]) == r
    ensures HexNumber(RgbToHex(r, g, b)[2..4]) == g
    ensures HexNumber(RgbToHex(r, g, b)[4..6]) == b
  {
    ComponentByte(r);
    ComponentByte(g);
    ComponentByte(b);
    var cr, cg, cb := Component(r), Component(g), Component(b);
    assert RgbToHex(r, g, b) == cr + cg + cb;
    HexTriple(cr, cg, cb, r, g, b);
  }

  /** Three two-digit hex strings side by side. */
  lemma HexTriple(x: string, y: string, z: string, r: int, g: int, b: int)
    requires |x| == 2 && |y| == 2 && |z| == 2
    requires HexNumber(x) == r && HexNumber(y) == g && HexNumber(z) == b
    requires forall i :: 0 <= i < 2 ==> 0 <= HexValue(x[i]) < 16 && 0 <= HexValue(y[i]) < 16 && 0 <= HexValue(z[i]) < 16
    ensures var s := x + y + z;
      |s| == 6 && (forall i :: 0 <= i < 6 ==> 0 <= HexValue(s[i]) < 16) &&
      HexNumber(s[0..2]) == r && HexNumber(s[2..4]) == g && HexNumber(s[4..6]) == b
  {
    var s := x + y + z;
    assert s[0..2] == x && s[2..4] == y && s[4..6] == z;
    assert s[0] == x[0] && s[1] == x[1] && s[2] == y[0] && s[3] == y[1] && s[4] == z[0] && s[5] == z[1];
  }

  // ---------------------------------------------------------------------
  // normHtmlColor
  // ---------------------------------------------------------------------

  /** HTML_COLOR_NAMES: lower-case colour names and their hex values, in
      the source's alphabetical order, one constant per initial letter. */
  const ColorsA: seq<(string, string)> := [
    ("aliceblue", "F0F8FF"), ("antiquewhite", "FAEBD7"), ("aqua", "00FFFF"),
    ("aquamarine", "7FFFD4"), ("azure", "F0FFFF")
  ]

  const ColorsB: seq<(string, string)> := [
    ("beige", "F5F5DC"), ("bisque", "FFE4C4"), ("black", "000000"),
    ("blanchedalmond", "FFEBCD"), ("blue", "0000FF"), ("blueviolet", "8A2BE2"),
    ("brown", "A52A2A"), ("burlywood", "DEB887")
  ]

  const ColorsC: seq<(string, string)> := [
    ("cadetblue", "5F9EA0"), ("chartreuse", "7FFF00"), ("chocolate", "D2691E"),
    ("coral", "FF7F50"), ("cornflowerblue", "6495ED"), ("cornsilk", "FFF8DC"),
    ("crimson", "DC143C"), ("cyan", "00FFFF")
  ]

  const ColorsD: seq<(string, string)> := [
    ("darkblue", "00008B"), ("darkcyan", "008B8B"), ("darkgoldenrod", "B8860B"),
    ("darkgray", "A9A9A9"), ("darkgreen", "006400"), ("darkgrey", "A9A9A9"),
    ("darkkhaki", "BDB76B"), ("darkmagenta", "8B008B"), ("darkolivegreen", "556B2F"),
    ("darkorange", "FF8C00"), ("darkorchid", "9932CC"), ("darkred", "8B0000"),
    ("darksalmon", "E9967A"), ("darkseagreen", "8FBC8F"), ("darkslateblue", "483D8B"),
    ("darkslategray", "2F4F4F"), ("darkslategrey", "2F4F4F"), ("darkturquoise", "00CED1"),
    ("darkviolet", "9400D3"), ("deeppink", "FF1493"), ("deepskyblue", "00BFFF"),
    ("dimgray", "696969"), ("dimgrey", "696969"), ("dodgerblue", "1E90FF")
  ]

  const ColorsF: seq<(string, string)> := [
    ("firebrick", "B22222"), ("floralwhite", "FFFAF0"), ("forestgreen", "228B22"),
    ("fuchsia", "FF00FF")
  ]

  const ColorsG: seq<(string, string)> := [
    ("gainsboro", "DCDCDC"), ("ghostwhite", "F8F8FF"), ("gold", "FFD700"),
    ("goldenrod", "DAA520"), ("gray", "808080"), ("green", "008000"),
    ("greenyellow", "ADFF2F"), ("grey", "808080")
  ]

  const ColorsH: seq<(string, string)> := [
    ("honeydew", "F0FFF0"), ("hotpink", "FF69B4")
  ]

  const ColorsI: seq<(string, string)> := [
    ("indianred", "CD5C5C"), ("indigo", "4B0082"), ("ivory", "FFFFF0")
  ]

  const ColorsK: seq<(string, string)> := [
    ("khaki", "F0E68C")
  ]

  const ColorsL: seq<(string, string)> := [
    ("lavender", "E6E6FA"), ("lavenderblush", "FFF0F5"), ("lawngreen", "7CFC00"),
    ("lemonchiffon", "FFFACD"), ("lightblue", "ADD8E6"), ("lightcoral", "F08080"),
    ("lightcyan", "E0FFFF"), ("lightgoldenrodyellow", "FAFAD2"), ("lightgray", "D3D3D3"),
    ("lightgreen", "90EE90"), ("lightgrey", "D3D3D3"), ("lightpink", "FFB6C1"),
    ("lightsalmon", "FFA07A"), ("lightseagreen", "20B2AA"), ("lightskyblue", "87CEFA"),
    ("lightslategray", "778899"), ("lightslategrey", "778899"), ("lightsteelblue", "B0C4DE"),
    ("lightyellow", "FFFFE0"), ("lime", "00FF00"), ("limegreen", "32CD32"),
    ("linen", "FAF0E6")
  ]

  const ColorsM: seq<(string, string)> := [
    ("magenta", "FF00FF"), ("maroon", "800000"), ("mediumaquamarine", "66CDAA"),
    ("mediumblue", "0000CD"), ("mediumorchid", "BA55D3"), ("mediumpurple", "9370DB"),
    ("mediumseagreen", "3CB371"), ("mediumslateblue", "7B68EE"), ("mediumspringgreen", "00FA9A"),
    ("mediumturquoise", "48D1CC"), ("mediumvioletred", "C71585"), ("midnightblue", "191970"),
    ("mintcream", "F5FFFA"), ("mistyrose", "FFE4E1"), ("moccasin", "FFE4B5")
  ]

  const ColorsN: seq<(string, string)> := [
    ("navajowhite", "FFDEAD"), ("navy", "000080")
  ]

  const ColorsO: seq<(string, string)> := [
    ("oldlace", "FDF5E6"), ("olive", "808000"), ("olivedrab", "6B8E23"),
    ("orange", "FFA500"), ("orangered", "FF4500"), ("orchid", "DA70D6")
  ]

  const ColorsP: seq<(string, string)> := [
    ("palegoldenrod", "EEE8AA"), ("palegreen", "98FB98"), ("paleturquoise", "AFEEEE"),
    ("palevioletred", "DB7093"), ("papayawhip", "FFEFD5"), ("peachpuff", "FFDAB9"),
    ("peru", "CD853F"), ("pink", "FFC0CB"), ("plum", "DDA0DD"),
    ("powderblue", "B0E0E6"), ("purple", "800080")
  ]

  const ColorsR: seq<(string, string)> := [
    ("red", "FF0000"), ("rosybrown", "BC8F8F"), ("royalblue", "4169E1")
  ]

  const ColorsS: seq<(string, string)> := [
    ("saddlebrown", "8B4513"), ("salmon", "FA8072"), ("sandybrown", "F4A460"),
    ("seagreen", "2E8B57"), ("seashell", "FFF5EE"), ("sienna", "A0522D"),
    ("silver", "C0C0C0"), ("skyblue", "87CEEB"), ("slateblue", "6A5ACD"),
    ("slategray", "708090"), ("slategrey", "708090"), ("snow", "FFFAFA"),
    ("springgreen", "00FF7F"), ("steelblue", "4682B4")
  ]

  const ColorsT: seq<(string, string)> := [
    ("tan", "D2B48C"), ("teal", "008080"), ("thistle", "D8BFD8"),
    ("tomato", "FF6347"), ("turquoise", "40E0D0")
  ]

  const ColorsV: seq<(string, string)> := [
    ("violet", "EE82EE")
  ]

  const ColorsW: seq<(string, string)> := [
    ("wheat", "F5DEB3"), ("white", "FFFFFF"), ("whitesmoke", "F5F5F5")
  ]

  const ColorsY: seq<(string, string)> := [
    ("yellow", "FFFF00"), ("yellowgreen", "9ACD32")
  ]

  const HtmlColorNames: seq<(string, string)> := ColorsA + ColorsLater

  const ColorsLater: seq<(string, string)> :=
    ColorsB + ColorsC + ColorsD + ColorsF + ColorsG + ColorsH +
    ColorsI + ColorsK + ColorsL + ColorsM + ColorsN + ColorsO + ColorsP +
    ColorsR + ColorsS + ColorsT + ColorsV + ColorsW + ColorsY

  /** `std::map::find`: the value of the first entry with key k. */
  function Find(t: seq<(string, string)>, k: string): (r: Option<string>)
    ensures r.None? <==> forall i :: 0 <= i < |t| ==> t[i].0 != k
    ensures r.Some? ==> exists i :: 0 <= i < |t| && t[i] == (k, r.value) &&
                                    (forall j :: 0 <= j < i ==> t[j].0 != k)
  {
    if t == [] then None
    else if t[0].0 == k then Some(t[0].1)
    else
      var r := Find(t[1..], k);
      assert r.Some? ==> exists i :: 0 <= i < |t| && t[i] == (k, r.value) &&
                                     (forall j :: 0 <= j < i ==> t[j].0 != k) by {
        if r.Some? {
          var i :| 0 <= i < |t| - 1 && t[1..][i] == (k, r.value) &&
            forall j :: 0 <= j < i ==> t[1..][j].0 != k;
          assert t[i + 1] == (k, r.value);
        }
      }
      r
  }

  /** `normHtmlColor`: the hex value of a known colour name, compared after
      lower-casing; any other text comes back unchanged. */
  function NormHtmlColor(col: string): (r: string)
    ensures (forall i :: 0 <= i < |HtmlColorNames| ==> HtmlColorNames[i].0 != LowerAll(col)) ==> r == col
    ensures (exists i :: 0 <= i < |HtmlColorNames| && HtmlColorNames[i].0 == LowerAll(col)) ==>
      exists i :: 0 <= i < |HtmlColorNames| && HtmlColorNames[i] == (LowerAll(col), r)
  {
    match Find(HtmlColorNames, LowerAll(col))
    case Some(v) => v
    case None => col
  }

  /** Names that differ only in letter case normalise alike, unless neither
      is a known name, and then each comes back as written. */
  lemma NormCaseInsensitive(a: string, b: string)
    requires LowerAll(a) == LowerAll(b)
    ensures NormHtmlColor(a) == NormHtmlColor(b) || (NormHtmlColor(a) == a && NormHtmlColor(b) == b)
  {
  }

  /** `std::map::find` stops at a first entry with the key. */
  lemma FindHead(t: seq<(string, string)>, rest: seq<(string, string)>, k: string)
    requires |t| > 0 && t[0].0 == k
    ensures Find(t + rest, k) == Some(t[0].1)
  {
    assert (t + rest)[0] == t[0];
  }

  lemma LowerAliceBlue()
    ensures LowerAll("AliceBlue") == "aliceblue"
  {
    var l := LowerAll("AliceBlue");
    assert l[0] == 'a' && l[1] == 'l' && l[2] == 'i' && l[3] == 'c' && l[4] == 'e';
    assert l[5] == 'b' && l[6] == 'l' && l[7] == 'u' && l[8] == 'e';
  }

  /** A known name in mixed case maps to its table value. */
  lemma NormExample()
    ensures NormHtmlColor("AliceBlue") == "F0F8FF"
  {
    LowerAliceBlue();
    FindHead(ColorsA, ColorsLater, "aliceblue");
  }
}
