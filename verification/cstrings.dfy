/** Character-level helpers for NUL-terminated strings and ASCII text. */
module CStrings {

  /** The character a `const char*` yields at offset i: past the end of the
      string the terminating NUL is read. */
  function CharAt(s: string, i: nat): char
  {
    if i < |s| then s[i] else '\0'
  }

  /** True when a C loop that stops at the first NUL reaches offset i: none of
      the characters at offsets 0..i is NUL. */
  predicate Live(s: string, i: nat)
  {
    forall k :: 0 <= k <= i ==> CharAt(s, k) != '\0'
  }

  /** `strlen`: the number of characters before the first NUL, or the whole
      sequence when it holds none. */
  function CLength(s: string): (n: nat)
    ensures n <= |s|
    ensures forall k :: 0 <= k < n ==> s[k] != '\0'
    ensures n < |s| ==> s[n] == '\0'
  {
    if s == [] || s[0] == '\0' then 0 else 1 + CLength(s[1..])
  }

  /** `tolower` in the C locale: only ASCII upper-case letters change. */
  function ToLower(c: char): char
  {
    if 'A' <= c <= 'Z' then (c as int + 32) as char else c
  }

  function LowerAll(s: string): (r: string)
    ensures |r| == |s|
    ensures forall i :: 0 <= i < |s| ==> r[i] == ToLower(s[i])
  {
    if s == [] then [] else [ToLower(s[0])] + LowerAll(s[1..])
  }

  predicate IsDigit(c: char)
  {
    '0' <= c <= '9'
  }

  /** A digit of lower-case hexadecimal. */
  predicate IsLowerHex(c: char)
  {
    '0' <= c <= '9' || 'a' <= c <= 'f'
  }

  /** Lower-case hexadecimal digit for a value below 16. */
  function HexDigit(d: nat): (c: char)
    requires d < 16
    ensures IsLowerHex(c)
  {
    if d < 10 then ('0' as int + d) as char else ('a' as int + d - 10) as char
  }

  /** Value of a hexadecimal digit of either case; -1 for any other character. */
  function HexValue(c: char): int
  {
    if '0' <= c <= '9' then c as int - '0' as int
    else if 'a' <= c <= 'f' then c as int - 'a' as int + 10
    else if 'A' <= c <= 'F' then c as int - 'A' as int + 10
    else -1
  }

  lemma HexDigitValue(d: nat)
    requires d < 16
    ensures HexValue(HexDigit(d)) == d
  {
  }

  /** `%x`: lower-case hexadecimal without leading zeros ("0" for zero). */
  function HexOf(n: nat): (s: string)
    ensures 1 <= |s|
    ensures forall i :: 0 <= i < |s| ==> IsLowerHex(s[i]) && 0 <= HexValue(s[i]) < 16
  {
    if n < 16 then [HexDigit(n)] else HexOf(n / 16) + [HexDigit(n % 16)]
  }

  /** The value of a string of hexadecimal digits. */
  function HexNumber(s: string): int
  {
    if s == [] then 0 else HexNumber(s[..|s| - 1]) * 16 + HexValue(s[|s| - 1])
  }

  lemma {:induction false} HexOfRoundTrip(n: nat)
    ensures HexNumber(HexOf(n)) == n
  {
    if n >= 16 {
      var s := HexOf(n);
      assert s[..|s| - 1] == HexOf(n / 16);
      HexOfRoundTrip(n / 16);
      HexDigitValue(n % 16);
    } else {
      HexDigitValue(n);
      assert HexOf(n)[..0] == [];
    }
  }

  /** k copies of '0'. */
  function Zeros(k: nat): (z: string)
    ensures |z| == k
    ensures forall i :: 0 <= i < k ==> z[i] == '0'
  {
    if k == 0 then [] else Zeros(k - 1) + ['0']
  }

  /** `setw(w)` with `setfill('0')`: s padded on the left with '0' to at
      least w characters. */
  function ZeroPad(s: string, w: nat): (r: string)
    ensures |r| == if |s| < w then w else |s|
    ensures forall i :: 0 <= i < |r| - |s| ==> r[i] == '0'
    ensures r[|r| - |s|..] == s
  {
    if |s| < w then Zeros(w - |s|) + s else s
  }

  /** Leading zeros do not change the value of a hexadecimal string. */
  lemma {:induction false} HexNumberZeros(k: nat, s: string)
    ensures HexNumber(Zeros(k) + s) == HexNumber(s)
    decreases |s|, k
  {
    if s == [] {
      assert Zeros(k) + s == Zeros(k);
      if k > 0 {
        assert Zeros(k)[..k - 1] == Zeros(k - 1) + [];
        HexNumberZeros(k - 1, []);
      }
    } else {
      assert (Zeros(k) + s)[..|Zeros(k) + s| - 1] == Zeros(k) + s[..|s| - 1];
      HexNumberZeros(k, s[..|s| - 1]);
    }
  }

  lemma ZeroPadValue(s: string, w: nat)
    ensures HexNumber(ZeroPad(s, w)) == HexNumber(s)
  {
    if |s| < w {
      HexNumberZeros(w - |s|, s);
    }
  }

  /** Powers of sixteen. */
  function Pow16(k: nat): (p: nat)
    ensures p >= 1
  {
    if k == 0 then 1 else 16 * Pow16(k - 1)
  }

  /** A number below 16^k has at most k hexadecimal digits. */
  lemma {:induction false} HexOfLength(n: nat, k: nat)
    requires 1 <= k && n < Pow16(k)
    ensures |HexOf(n)| <= k
  {
    if n >= 16 {
      assert k >= 2;
      HexOfLength(n / 16, k - 1);
    }
  }

  /** The value of a concatenation: the digits of b are the low-order ones. */
  lemma {:induction false} HexNumberAppend(a: string, b: string)
    ensures HexNumber(a + b) == HexNumber(a) * Pow16(|b|) + HexNumber(b)
  {
    if b == [] {
      assert a + b == a;
    } else {
      var c := a + b;
      assert c[..|c| - 1] == a + b[..|b| - 1];
      HexNumberAppend(a, b[..|b| - 1]);
      var x, y, d := HexNumber(a), HexNumber(b[..|b| - 1]), HexValue(b[|b| - 1]);
      assert HexNumber(c) == HexNumber(c[..|c| - 1]) * 16 + d;
      assert HexNumber(b) == y * 16 + d;
      assert Pow16(|b|) == Pow16(|b| - 1) * 16;
      ShiftDigit(x, Pow16(|b| - 1), y, d);
    }
  }

  lemma ShiftDigit(x: int, p: int, y: int, d: int)
    ensures (x * p + y) * 16 + d == x * (p * 16) + (y * 16 + d)
  {
  }

  /** A string of k hexadecimal digits is worth less than 16^k. */
  lemma {:induction false} HexNumberBound(s: string)
    requires forall i :: 0 <= i < |s| ==> 0 <= HexValue(s[i]) < 16
    ensures 0 <= HexNumber(s) < Pow16(|s|)
  {
    if s != [] {
      HexNumberBound(s[..|s| - 1]);
    }
  }

  /** `std::string::operator<`: lexicographic order on character codes. */
  predicate StrLess(a: string, b: string)
  {
    if b == [] then false
    else if a == [] then true
    else a[0] < b[0] || (a[0] == b[0] && StrLess(a[1..], b[1..]))
  }

  lemma {:induction false} StrLessIrreflexive(a: string)
    ensures !StrLess(a, a)
  {
    if a != [] {
      StrLessIrreflexive(a[1..]);
    }
  }

  lemma {:induction false} StrLessTransitive(a: string, b: string, c: string)
    requires StrLess(a, b) && StrLess(b, c)
    ensures StrLess(a, c)
  {
    if a != [] && a[0] == b[0] && b[0] == c[0] {
      StrLessTransitive(a[1..], b[1..], c[1..]);
    }
  }

  /** Two strings are equal or one is below the other. */
  lemma {:induction false} StrLessTotal(a: string, b: string)
    ensures a == b || StrLess(a, b) || StrLess(b, a)
  {
    if a != [] && b != [] && a[0] == b[0] {
      StrLessTotal(a[1..], b[1..]);
      if a[1..] == b[1..] {
        assert a == [a[0]] + a[1..] && b == [b[0]] + b[1..];
      }
    }
  }

  lemma {:induction false} StrLessAsymmetric(a: string, b: string)
    requires StrLess(a, b)
    ensures !StrLess(b, a)
  {
    if a != [] && b != [] && a[0] == b[0] {
      StrLessAsymmetric(a[1..], b[1..]);
    }
  }

  /** Not being below is transitive, so `StrLess` is a strict weak order. */
  lemma {:induction false} StrNotLessTransitive(a: string, b: string, c: string)
    requires !StrLess(b, a) && !StrLess(c, b)
    ensures !StrLess(c, a)
  {
    if a != [] && b != [] && c != [] && a[0] == b[0] == c[0] {
      StrNotLessTransitive(a[1..], b[1..], c[1..]);
    }
  }
}
