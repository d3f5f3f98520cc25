/** The self-contained helpers of src/util/geo/Geo.cpp: the WKT type-tag
    recogniser (OGC Simple Feature Access Part 1, section 7), the packing of
    eight booleans into a byte, and the two-dimensional cross product. */
module Geo {
  import opened CStrings
  import Wrappers

  // ---------------------------------------------------------------------------
  // WKT type tags

  datatype WKTType = None | Point | LineString | Polygon | MultiPoint | MultiLineString | MultiPolygon | Collection

  /** The `uint8_t` value of the enum. */
  function Code(t: WKTType): (c: bv8)
    ensures c <= 7 && (c == 0 <==> t == None)
  {
    match t
    case None => 0
    case Point => 1
    case LineString => 2
    case Polygon => 3
    case MultiPoint => 4
    case MultiLineString => 5
    case MultiPolygon => 6
    case Collection => 7
  }

  /** The keywords in the order the source tests them, in upper case as the
      source spells them. */
  const Keywords: seq<string> :=
    ["POINT", "LINESTRING", "POLYGON", "MULTIPOINT", "MULTILINESTRING", "MULTIPOLYGON", "GEOMETRYCOLLECTION"]

  /** The number of keywords the source tests. */
  const Tests: nat := 7

  /** The type whose keyword the source tests i-th. */
  function Tested(i: nat): (t: WKTType)
    requires i < Tests
    ensures t != None
  {
    if i == 0 then Point
    else if i == 1 then LineString
    else if i == 2 then Polygon
    else if i == 3 then MultiPoint
    else if i == 4 then MultiLineString
    else if i == 5 then MultiPolygon
    else Collection
  }

  /** Where a type comes in the testing order. */
  function Rank(t: WKTType): (i: nat)
    requires t != None
    ensures i < Tests && Tested(i) == t
  {
    match t
    case Point => 0
    case LineString => 1
    case Polygon => 2
    case MultiPoint => 3
    case MultiLineString => 4
    case MultiPolygon => 5
    case Collection => 6
  }

  /** The testing order lists every type once. */
  lemma RankTested(i: nat)
    requires i < Tests
    ensures Rank(Tested(i)) == i
  {
  }

  /** The keyword tested for each type. */
  function Keyword(t: WKTType): string
    requires t != None
  {
    Keywords[Rank(t)]
  }

  predicate IsBlank(c: char)
  {
    c == ' ' || c == '\n' || c == '\t' || c == '\r'
  }

  /** The condition of the skip loop at offset i: a blank, a quote, or an 'm'
      (either case) that is not followed by 'u' (either case) or is followed
      by a blank. */
  predicate Skippable(s: string, i: nat)
  {
    SkippablePair(CharAt(s, i), CharAt(s, i + 1))
  }

  /** The same condition on the character c and the one after it, d. */
  predicate SkippablePair(c: char, d: char)
  {
    || IsBlank(c)
    || c == '"' || c == '\''
    || (ToLower(c) == 'm' && (IsBlank(d) || ToLower(d) != 'u'))
  }

  lemma SkippablePairLower(c: char, d: char)
    ensures SkippablePair(ToLower(c), ToLower(d)) == SkippablePair(c, d)
  {
  }

  /** The offset the skip loop stops at, starting from i. */
  function SkipFrom(s: string, i: nat): (j: nat)
    requires i <= |s|
    ensures i <= j <= |s|
    ensures !Skippable(s, j)
    decreases |s| - i
  {
    if Skippable(s, i) then
      assert i < |s|;  // the terminating NUL is never skippable
      SkipFrom(s, i + 1)
    else i
  }

  /** The skip loop passes over only skippable positions. */
  lemma {:induction false} SkipFromSkips(s: string, i: nat)
    requires i <= |s|
    ensures forall k :: i <= k < SkipFrom(s, i) ==> Skippable(s, k)
    decreases |s| - i
  {
    if Skippable(s, i) {
      SkipFromSkips(s, i + 1);
    }
  }

  function Skip(s: string): nat
  {
    SkipFrom(s, 0)
  }

  /** `strncicmp(kw, c + pos, |kw|) == 0` for a keyword without NUL,
      comparing one character at a time. */
  predicate KeywordAt(s: string, pos: nat, kw: string)
    decreases |kw|
  {
    |kw| == 0 || (FoldedAt(s, pos, 0) == ToLower(kw[0]) && KeywordAt(s, pos + 1, kw[1..]))
  }

  /** A keyword matches exactly when the next |kw| characters agree with it
      up to letter case. */
  lemma {:induction false} KeywordAtChars(s: string, pos: nat, kw: string)
    ensures KeywordAt(s, pos, kw) <==> forall k :: 0 <= k < |kw| ==> FoldedAt(s, pos, k) == ToLower(kw[k])
    decreases |kw|
  {
    if |kw| > 0 {
      KeywordAtChars(s, pos + 1, kw[1..]);
      forall k | 0 <= k < |kw| - 1
        ensures FoldedAt(s, pos + 1, k) == FoldedAt(s, pos, k + 1) && kw[1..][k] == kw[k + 1]
      {
      }
    }
  }

  /** The character k places after pos, case-folded. */
  function FoldedAt(s: string, pos: nat, k: nat): char
  {
    ToLower(CharAt(s, pos + k))
  }

  /** The index of the first of the keywords kws, from index i on, that
      matches at pos, or |kws| when none does. */
  function FirstMatch(s: string, pos: nat, kws: seq<string>, i: nat): (j: nat)
    requires i <= |kws|
    ensures i <= j <= |kws|
    decreases |kws| - i
  {
    if i == |kws| then i
    else if KeywordAt(s, pos, kws[i]) then i
    else FirstMatch(s, pos, kws, i + 1)
  }

  /** The keyword found matches at pos. */
  lemma {:induction false} FirstMatchFound(s: string, pos: nat, kws: seq<string>, i: nat)
    requires i <= |kws|
    ensures var j := FirstMatch(s, pos, kws, i); j < |kws| ==> KeywordAt(s, pos, kws[j])
    decreases |kws| - i
  {
    if i < |kws| && !KeywordAt(s, pos, kws[i]) {
      FirstMatchFound(s, pos, kws, i + 1);
    }
  }

  /** No keyword tested before the one found matches. */
  lemma {:induction false} FirstMatchBefore(s: string, pos: nat, kws: seq<string>, i: nat)
    requires i <= |kws|
    ensures forall k :: i <= k < FirstMatch(s, pos, kws, i) ==> !KeywordAt(s, pos, kws[k])
    decreases |kws| - i
  {
    if i < |kws| && !KeywordAt(s, pos, kws[i]) {
      FirstMatchBefore(s, pos, kws, i + 1);
    }
  }

  /** Result of `getWKTType(c, endr)`: the type and what is stored through
      `endr` — the offset just past the keyword, or None for the null pointer. */
  datatype Classified = Classified(kind: WKTType, end: Wrappers.Option<nat>)

  /** `getWKTType`: skip, then try the keywords in the source's order; on a
      match the end offset is just past the keyword (5, 10, 7, 10, 15, 12 or
      18 characters on). */
  function Classify(s: string): (r: Classified)
    ensures r.kind == None <==> r.end == Wrappers.None
    ensures r.kind != None ==> r.end == Wrappers.Some(Skip(s) + KeywordLength(r.kind))
  {
    ClassifyWith(s, Keywords)
  }

  /** The same procedure with the keywords to test as a parameter. */
  function ClassifyWith(s: string, kws: seq<string>): (r: Classified)
    ensures r.kind == None <==> r.end == Wrappers.None
    ensures r.kind != None ==> r.end == Wrappers.Some(Skip(s) + KeywordLength(r.kind))
  {
    var p := Skip(s);
    Outcome(FirstMatch(s, p, kws, 0), p)
  }

  /** The result when the j-th test is the first to succeed at offset p (no
      test succeeds when j is past the last one). */
  function Outcome(j: nat, p: nat): (r: Classified)
    ensures r.kind == None <==> r.end == Wrappers.None
    ensures r.kind != None ==> r.end == Wrappers.Some(p + KeywordLength(r.kind))
  {
    if j < Tests then Classified(Tested(j), Wrappers.Some(p + KeywordLength(Tested(j))))
    else Classified(None, Wrappers.None)
  }

  /** `getWKTType(const char*)` and `getWKTType(const std::string&)`: the same
      classification without an end pointer. */
  function WKTTypeOf(s: string): WKTType
  {
    Classify(s).kind
  }

  /** An offset below both lengths where two different keywords differ;
      all keywords are upper case, so they also differ after case folding. */
  function DifferAt(t: WKTType, u: WKTType): (k: nat)
    requires t != None && u != None && t != u
    ensures k < |Keyword(t)| && k < |Keyword(u)| && ToLower(Keyword(t)[k]) != ToLower(Keyword(u)[k])
  {
    if (t == MultiPoint || t == MultiPolygon) && (u == MultiPoint || u == MultiPolygon) then 7
    else if (t == MultiPoint || t == MultiLineString || t == MultiPolygon) &&
            (u == MultiPoint || u == MultiLineString || u == MultiPolygon) then 5
    else if (t == Point || t == Polygon) && (u == Point || u == Polygon) then 2
    else 0
  }

  /** Two different keywords never both match at one offset, so the order of
      the tests does not matter. */
  lemma {:induction false} KeywordsExclusive(s: string, pos: nat, t: WKTType, u: WKTType)
    requires t != None && u != None && t != u
    ensures !(KeywordAt(s, pos, Keyword(t)) && KeywordAt(s, pos, Keyword(u)))
  {
    var k := DifferAt(t, u);
    KeywordAtChars(s, pos, Keyword(t));
    KeywordAtChars(s, pos, Keyword(u));
    if KeywordAt(s, pos, Keyword(t)) {
      assert FoldedAt(s, pos, k) == ToLower(Keyword(t)[k]);
    }
  }

  /** The classifier returns t exactly when t's keyword follows the skipped prefix. */
  lemma {:induction false} ClassifyIff(s: string, t: WKTType)
    requires t != None
    ensures WKTTypeOf(s) == t <==> KeywordAt(s, Skip(s), Keyword(t))
  {
    var p := Skip(s);
    var j := FirstMatch(s, p, Keywords, 0);
    KeywordsShape();
    ClassifyUnfold(s);
    FirstMatchFound(s, p, Keywords, 0);
    FirstMatchBefore(s, p, Keywords, 0);
    if j < Tests {
      RankTested(j);
      if KeywordAt(s, p, Keyword(t)) && Tested(j) != t {
        KeywordsExclusive(s, p, t, Tested(j));
      }
    } else {
      assert Keyword(t) == Keywords[Rank(t)];
    }
  }

  /** No keyword follows the skipped prefix exactly when the result is NONE. */
  lemma {:induction false} ClassifyNone(s: string)
    ensures WKTTypeOf(s) == None <==>
              forall t: WKTType :: t != None ==> !KeywordAt(s, Skip(s), Keyword(t))
  {
    if WKTTypeOf(s) == None {
      forall t: WKTType | t != None
        ensures !KeywordAt(s, Skip(s), Keyword(t))
      {
        ClassifyIff(s, t);
      }
    } else {
      ClassifyIff(s, WKTTypeOf(s));
    }
  }

  lemma ToLowerIdempotent(c: char)
    ensures ToLower(ToLower(c)) == ToLower(c)
  {
  }

  lemma CharAtLower(s: string, i: nat)
    ensures CharAt(LowerAll(s), i) == ToLower(CharAt(s, i))
  {
  }

  /** Letter case never changes where the skip loop stops. */
  lemma {:induction false} SkipFromLower(s: string, i: nat)
    requires i <= |s|
    ensures SkipFrom(LowerAll(s), i) == SkipFrom(s, i)
    decreases |s| - i
  {
    var l := LowerAll(s);
    CharAtLower(s, i);
    CharAtLower(s, i + 1);
    SkippablePairLower(CharAt(s, i), CharAt(s, i + 1));
    assert Skippable(l, i) == Skippable(s, i);
    if Skippable(s, i) {
      SkipFromLower(s, i + 1);
    }
  }

  /** Two texts that agree up to letter case on the n characters from p1 and p2. */
  predicate AgreeFolded(s1: string, p1: nat, s2: string, p2: nat, n: nat)
  {
    forall k :: 0 <= k < n ==> FoldedAt(s1, p1, k) == FoldedAt(s2, p2, k)
  }

  /** Keyword tests only look at the next 18 characters up to letter case. */
  lemma {:induction false} FirstMatchAgree(s1: string, p1: nat, s2: string, p2: nat, kws: seq<string>, i: nat)
    requires i <= |kws|
    requires forall k :: 0 <= k < |kws| ==> |kws[k]| <= 18
    requires AgreeFolded(s1, p1, s2, p2, 18)
    ensures FirstMatch(s1, p1, kws, i) == FirstMatch(s2, p2, kws, i)
    decreases |kws| - i
  {
    if i < |kws| {
      KeywordAgree(s1, p1, s2, p2, kws[i]);
      FirstMatchAgree(s1, p1, s2, p2, kws, i + 1);
    }
  }

  /** The keyword lengths as numbers, so that offsets need not look inside
      the keyword strings. */
  function KeywordLength(t: WKTType): nat
  {
    match t
    case None => 0
    case Point => 5
    case LineString => 10
    case Polygon => 7
    case MultiPoint => 10
    case MultiLineString => 15
    case MultiPolygon => 12
    case Collection => 18
  }

  /** The numbers are the keywords' lengths, all at most 18. */
  lemma KeywordLengthIs(t: WKTType)
    requires t != None
    ensures |Keyword(t)| == KeywordLength(t) <= 18
  {
  }

  /** One keyword per type, none longer than 18 characters. */
  lemma KeywordsShape()
    ensures |Keywords| == Tests
    ensures forall i :: 0 <= i < Tests ==> |Keywords[i]| == KeywordLength(Tested(i)) <= 18
  {
    forall i | 0 <= i < Tests
      ensures |Keywords[i]| == KeywordLength(Tested(i)) <= 18
    {
      RankTested(i);
      KeywordLengthIs(Tested(i));
    }
  }

  /** A keyword of at most 18 characters matches at both places or at neither. */
  lemma {:induction false} KeywordAgree(s1: string, p1: nat, s2: string, p2: nat, kw: string)
    requires |kw| <= 18
    requires AgreeFolded(s1, p1, s2, p2, 18)
    ensures KeywordAt(s1, p1, kw) == KeywordAt(s2, p2, kw)
  {
    KeywordAtChars(s1, p1, kw);
    KeywordAtChars(s2, p2, kw);
  }

  /** The result with the end offset moved n characters on. */
  function Shift(r: Classified, n: nat): Classified
  {
    match r.end
    case None => r
    case Some(e) => Classified(r.kind, Wrappers.Some(e + n))
  }

  /** Two texts whose skipped prefixes differ in length by n and which agree
      up to letter case after them classify alike, with the end moved by n. */
  lemma {:induction false} ClassifyAgree(s1: string, s2: string, n: nat)
    requires Skip(s1) == Skip(s2) + n
    requires AgreeFolded(s1, Skip(s1), s2, Skip(s2), 18)
    ensures Classify(s1) == Shift(Classify(s2), n)
  {
    var p1, p2 := Skip(s1), Skip(s2);
    KeywordsShape();
    FirstMatchAgree(s1, p1, s2, p2, Keywords, 0);
    var j := FirstMatch(s1, p1, Keywords, 0);
    assert FirstMatch(s2, p2, Keywords, 0) == j;
    ClassifyUnfold(s1);
    ClassifyUnfold(s2);
    if j < Tests {
      var len := KeywordLength(Tested(j));
      assert Classify(s2) == Classified(Tested(j), Wrappers.Some(p2 + len));
      assert Classify(s1) == Classified(Tested(j), Wrappers.Some(p2 + len + n));
    }
  }

  lemma {:induction false} ClassifyUnfold(s: string)
    ensures var j := FirstMatch(s, Skip(s), Keywords, 0);
      |Keywords| == Tests &&
      Classify(s) == if j == Tests then Classified(None, Wrappers.None)
                     else Classified(Tested(j), Wrappers.Some(Skip(s) + KeywordLength(Tested(j))))
  {
    KeywordsShape();
    ClassifyWithUnfold(s, Keywords);
  }

  lemma {:induction false} ClassifyWithUnfold(s: string, kws: seq<string>)
    requires |kws| == Tests
    ensures var j := FirstMatch(s, Skip(s), kws, 0);
      ClassifyWith(s, kws) == if j == Tests then Classified(None, Wrappers.None)
                              else Classified(Tested(j), Wrappers.Some(Skip(s) + KeywordLength(Tested(j))))
  {
  }

  /** Keyword matching is case-insensitive: lower-casing the whole text gives
      the same type and end offset. */
  lemma {:induction false} ClassifyLower(s: string)
    ensures Classify(LowerAll(s)) == Classify(s)
  {
    var l := LowerAll(s);
    SkipFromLower(s, 0);
    var p := Skip(s);
    forall k | 0 <= k < 18
      ensures FoldedAt(l, p, k) == FoldedAt(s, p, k)
    {
      ToLowerIdempotent(CharAt(s, p + k));
    }
    ClassifyAgree(l, s, 0);
    assert Shift(Classify(s), 0) == Classify(s);
  }

  lemma {:induction false} SkipShift(c: char, s: string, i: nat)
    requires i <= |s|
    ensures SkipFrom([c] + s, i + 1) == SkipFrom(s, i) + 1
    decreases |s| - i
  {
    var cs := [c] + s;
    assert CharAt(cs, i + 1) == CharAt(s, i);
    assert CharAt(cs, i + 2) == CharAt(s, i + 1);
    assert Skippable(cs, i + 1) == Skippable(s, i);
    if Skippable(s, i) {
      SkipShift(c, s, i + 1);
    }
  }

  /** A skipped leading character only moves the end offset. */
  lemma {:induction false} SkipOne(c: char, s: string)
    requires Skippable([c] + s, 0)
    ensures Classify([c] + s) == Shift(Classify(s), 1)
  {
    var cs := [c] + s;
    SkipShift(c, s, 0);
    var p := Skip(s);
    assert Skip(cs) == p + 1;
    forall k | 0 <= k < 18
      ensures FoldedAt(cs, p + 1, k) == FoldedAt(s, p, k)
    {
      assert CharAt(cs, p + 1 + k) == CharAt(s, p + k);
    }
    ClassifyAgree(cs, s, 1);
  }

  /** A leading blank or quote is skipped. */
  lemma {:induction false} LeadingBlankSkipped(c: char, s: string)
    requires IsBlank(c) || c == '"' || c == '\''
    ensures Classify([c] + s) == Shift(Classify(s), 1)
  {
    SkipOne(c, s);
  }

  /** A leading measurement 'M' is skipped unless a 'u' follows, so
      "MLINESTRING" classifies like "LINESTRING". */
  lemma {:induction false} LeadingMSkipped(c: char, s: string)
    requires c == 'm' || c == 'M'
    requires ToLower(CharAt(s, 0)) != 'u'
    ensures Classify([c] + s) == Shift(Classify(s), 1)
  {
    assert CharAt([c] + s, 1) == CharAt(s, 0);
    SkipOne(c, s);
  }

  /** A keyword spelt out at the start of the text is recognised. */
  lemma {:induction false} KeywordFirst(t: WKTType, rest: string)
    requires t != None
    ensures WKTTypeOf(Keyword(t) + rest) == t
  {
    var s := Keyword(t) + rest;
    assert !Skippable(s, 0);
    assert Skip(s) == 0;
    forall k | 0 <= k < |Keyword(t)|
      ensures FoldedAt(s, 0, k) == ToLower(Keyword(t)[k])
    {
    }
    KeywordAtChars(s, 0, Keyword(t));
    ClassifyIff(s, t);
  }

  /** "MLINESTRING(0 0, 1 1)" is a line string (an example from the source's tests). */
  lemma ExampleMLineString()
    ensures WKTTypeOf("MLINESTRING(0 0, 1 1)") == LineString
  {
    var rest := "(0 0, 1 1)";
    var s := Keyword(LineString) + rest;
    assert "MLINESTRING(0 0, 1 1)" == ['M'] + s;
    assert CharAt(s, 0) == 'L';
    LeadingMSkipped('M', s);
    KeywordFirst(LineString, rest);
  }

  /** A keyword with a character that differs up to letter case does not match. */
  lemma {:induction false} KeywordMismatch(s: string, pos: nat, kw: string, k: nat)
    requires k < |kw| && FoldedAt(s, pos, k) != ToLower(kw[k])
    ensures !KeywordAt(s, pos, kw)
  {
    KeywordAtChars(s, pos, kw);
  }

  /** Two leading spaces do not change the type. */
  lemma {:induction false} TwoBlanksSkipped(s: string)
    ensures WKTTypeOf("  " + s) == WKTTypeOf(s)
  {
    assert "  " + s == [' '] + ([' '] + s);
    LeadingBlankSkipped(' ', [' '] + s);
    LeadingBlankSkipped(' ', s);
  }

  /** A misspelt keyword is not recognised, after the leading blanks are
      skipped: "  LINESTRIN (" is NONE. */
  lemma ExampleMisspelt()
    ensures WKTTypeOf("  LINESTRIN (0 0, 1 1)") == None
  {
    var s := "LINESTRIN (0 0, 1 1)";
    assert "  LINESTRIN (0 0, 1 1)" == "  " + s;
    TwoBlanksSkipped(s);
    MisspeltUnpadded(s);
  }

  /** The same text without its leading blanks. */
  lemma MisspeltUnpadded(s: string)
    requires s == "LINESTRIN (0 0, 1 1)"
    ensures WKTTypeOf(s) == None
  {
    assert !Skippable(s, 0);
    assert Skip(s) == 0;
    forall t: WKTType | t != None
      ensures !KeywordAt(s, 0, Keyword(t))
    {
      var k := if t == LineString then 9 else 0;
      assert FoldedAt(s, 0, k) != ToLower(Keyword(t)[k]);
      KeywordMismatch(s, 0, Keyword(t), k);
    }
    ClassifyNone(s);
  }

  // ---------------------------------------------------------------------------
  // boolArrToInt8

  /** Entry i as the source ORs it in: `(uint8_t)arr[i] << i`. */
  function BoolBit(b: bool, i: bv8): bv8
    requires i < 8
  {
    (if b then 1 else 0) << i
  }

  /** `boolArrToInt8`: the eight iterations of its loop, unrolled. */
  function BoolArrToInt8(arr: seq<bool>): bv8
    requires |arr| == 8
  {
    BoolBit(arr[0], 0) | BoolBit(arr[1], 1) | BoolBit(arr[2], 2) | BoolBit(arr[3], 3) |
    BoolBit(arr[4], 4) | BoolBit(arr[5], 5) | BoolBit(arr[6], 6) | BoolBit(arr[7], 7)
  }

  /** Reading the booleans back from the bits. */
  function Int8ToBoolArr(x: bv8): (arr: seq<bool>)
    ensures |arr| == 8
  {
    [x & 1 != 0, x & 2 != 0, x & 4 != 0, x & 8 != 0, x & 16 != 0, x & 32 != 0, x & 64 != 0, x & 128 != 0]
  }

  lemma BoolBits(b0: bool, b1: bool, b2: bool, b3: bool, b4: bool, b5: bool, b6: bool, b7: bool)
    ensures var x := BoolBit(b0, 0) | BoolBit(b1, 1) | BoolBit(b2, 2) | BoolBit(b3, 3) |
                     BoolBit(b4, 4) | BoolBit(b5, 5) | BoolBit(b6, 6) | BoolBit(b7, 7);
      (x & 1 != 0) == b0 && (x & 2 != 0) == b1 && (x & 4 != 0) == b2 && (x & 8 != 0) == b3 &&
      (x & 16 != 0) == b4 && (x & 32 != 0) == b5 && (x & 64 != 0) == b6 && (x & 128 != 0) == b7
  {
  }

  lemma UnpackBits(b0: bool, b1: bool, b2: bool, b3: bool, b4: bool, b5: bool, b6: bool, b7: bool, x: bv8)
    requires x == BoolBit(b0, 0) | BoolBit(b1, 1) | BoolBit(b2, 2) | BoolBit(b3, 3) |
                  BoolBit(b4, 4) | BoolBit(b5, 5) | BoolBit(b6, 6) | BoolBit(b7, 7)
    ensures Int8ToBoolArr(x) == [b0, b1, b2, b3, b4, b5, b6, b7]
  {
    BoolBits(b0, b1, b2, b3, b4, b5, b6, b7);
  }

  /** Bit i of the byte is set exactly when entry i is true. */
  lemma BoolArrRoundTrip(arr: seq<bool>)
    requires |arr| == 8
    ensures Int8ToBoolArr(BoolArrToInt8(arr)) == arr
  {
    var b0, b1, b2, b3, b4, b5, b6, b7 := arr[0], arr[1], arr[2], arr[3], arr[4], arr[5], arr[6], arr[7];
    EightElements(arr);
    UnpackBits(b0, b1, b2, b3, b4, b5, b6, b7, BoolArrToInt8(arr));
  }

  lemma EightElements(arr: seq<bool>)
    requires |arr| == 8
    ensures arr == [arr[0], arr[1], arr[2], arr[3], arr[4], arr[5], arr[6], arr[7]]
  {
  }

  /** Every byte is the packing of some array, so the packing is a bijection. */
  lemma Int8RoundTrip(x: bv8)
    ensures BoolArrToInt8(Int8ToBoolArr(x)) == x
  {
    UnpackByte(x);
  }

  lemma UnpackByte(x: bv8)
    ensures BoolBit(x & 1 != 0, 0) | BoolBit(x & 2 != 0, 1) | BoolBit(x & 4 != 0, 2) | BoolBit(x & 8 != 0, 3) |
            BoolBit(x & 16 != 0, 4) | BoolBit(x & 32 != 0, 5) | BoolBit(x & 64 != 0, 6) | BoolBit(x & 128 != 0, 7) == x
  {
  }

  lemma BoolArrInjective(a: seq<bool>, b: seq<bool>)
    requires |a| == 8 && |b| == 8
    ensures BoolArrToInt8(a) == BoolArrToInt8(b) <==> a == b
  {
    BoolArrRoundTrip(a);
    BoolArrRoundTrip(b);
  }

  // ---------------------------------------------------------------------------
  // crossProd

  /** `crossProd(x1, y1, x2, y2)` over integer coordinates. */
  function CrossProd(x1: int, y1: int, x2: int, y2: int): int
  {
    x1 * y2 - x2 * y1
  }

  lemma CrossProdAntisymmetric(x1: int, y1: int, x2: int, y2: int)
    ensures CrossProd(x1, y1, x2, y2) == -CrossProd(x2, y2, x1, y1)
  {
  }

  /** Parallel vectors — one a multiple of the other — have cross product 0. */
  lemma CrossProdParallel(x: int, y: int, k: int)
    ensures CrossProd(x, y, k * x, k * y) == 0
  {
    assert x * (k * y) == (k * x) * y;
  }
}
