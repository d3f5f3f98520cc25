/** The DE-9IM intersection matrix and pattern filter (OGC Simple Feature
    Access Part 1, sections 6.1.15.2 and 6.1.15.3) of src/util/geo/DE9IMatrix.h.
    The source packs the eight cells II, IB, IE, BI, BB, BE, EI, EB into a
    16-bit word, two bits per cell; the EE cell is not stored and is always 2.
    A matrix is modelled as its eight cell codes, and `Bits`/`FromBits` are
    the packing and unpacking, proved to be mutually inverse. */
module DE9IM {
  import opened CStrings

  /** Dimension codes of one cell. */
  const F: bv16 := 0
  const D0: bv16 := 1
  const D1: bv16 := 2
  const D2: bv16 := 3

  type Dim = v: bv16 | v <= D2

  /** Index of a stored cell. */
  type Cell = i: int | 0 <= i < 8

  const II: Cell := 0
  const IB: Cell := 1
  const IE: Cell := 2
  const BI: Cell := 3
  const BB: Cell := 4
  const BE: Cell := 5
  const EI: Cell := 6
  const EB: Cell := 7

  type Matrix = c: seq<Dim> | |c| == 8 witness [F, F, F, F, F, F, F, F]

  /** The default-constructed matrix: every cell F. */
  const Empty: Matrix := [F, F, F, F, F, F, F, F]

  // ---------------------------------------------------------------------------
  // The packed word

  /** Eight two-bit codes laid out as the source lays them out: cell i at bit 2i. */
  function Pack(c0: bv16, c1: bv16, c2: bv16, c3: bv16, c4: bv16, c5: bv16, c6: bv16, c7: bv16): bv16
  {
    c0 | (c1 << 2) | (c2 << 4) | (c3 << 6) | (c4 << 8) | (c5 << 10) | (c6 << 12) | (c7 << 14)
  }

  /** `getMatrix()`: the packed word. */
  function Bits(m: Matrix): bv16
  {
    Pack(m[0], m[1], m[2], m[3], m[4], m[5], m[6], m[7])
  }

  /** `DE9IMatrix(uint16_t)`: any word is a matrix. */
  function FromBits(x: bv16): Matrix
  {
    [x & 3, (x >> 2) & 3, (x >> 4) & 3, (x >> 6) & 3, (x >> 8) & 3, (x >> 10) & 3, (x >> 12) & 3, (x >> 14) & 3]
  }

  lemma UnpackPacked(c0: bv16, c1: bv16, c2: bv16, c3: bv16, c4: bv16, c5: bv16, c6: bv16, c7: bv16)
    requires c0 <= 3 && c1 <= 3 && c2 <= 3 && c3 <= 3 && c4 <= 3 && c5 <= 3 && c6 <= 3 && c7 <= 3
    ensures FromBits(Pack(c0, c1, c2, c3, c4, c5, c6, c7)) == [c0, c1, c2, c3, c4, c5, c6, c7]
  {
  }

  lemma BitsRoundTrip(m: Matrix)
    ensures FromBits(Bits(m)) == m
  {
    UnpackPacked(m[0], m[1], m[2], m[3], m[4], m[5], m[6], m[7]);
    assert m == [m[0], m[1], m[2], m[3], m[4], m[5], m[6], m[7]];
  }

  lemma FromBitsRoundTrip(x: bv16)
    ensures Bits(FromBits(x)) == x
  {
  }

  /** `operator==` and `operator!=` compare packed words, which is the same as
      comparing all eight cells. */
  lemma BitsInjective(a: Matrix, b: Matrix)
    ensures Bits(a) == Bits(b) <==> a == b
  {
    if Bits(a) == Bits(b) {
      BitsRoundTrip(a);
      BitsRoundTrip(b);
    }
  }

  /** `get(i)` on the packed word, with k = 2i. */
  function WordGet(x: bv16, k: bv16): bv16
    requires k <= 14
  {
    (x & (D2 << k)) >> k
  }

  /** `setTo(i, v)` on the packed word, with k = 2i. */
  function WordSet(x: bv16, k: bv16, v: bv16): bv16
    requires k <= 14
  {
    (x & !(D2 << k)) | (v << k)
  }

  function Get(m: Matrix, i: Cell): Dim
  {
    m[i]
  }

  function SetTo(m: Matrix, i: Cell, v: Dim): (r: Matrix)
    ensures Get(r, i) == v
    ensures forall j: Cell :: j != i ==> Get(r, j) == Get(m, j)
  {
    m[i := v]
  }

  lemma GetPacked(c0: bv16, c1: bv16, c2: bv16, c3: bv16, c4: bv16, c5: bv16, c6: bv16, c7: bv16)
    requires c0 <= 3 && c1 <= 3 && c2 <= 3 && c3 <= 3 && c4 <= 3 && c5 <= 3 && c6 <= 3 && c7 <= 3
    ensures var x := Pack(c0, c1, c2, c3, c4, c5, c6, c7);
      WordGet(x, 0) == c0 && WordGet(x, 2) == c1 && WordGet(x, 4) == c2 && WordGet(x, 6) == c3 &&
      WordGet(x, 8) == c4 && WordGet(x, 10) == c5 && WordGet(x, 12) == c6 && WordGet(x, 14) == c7
  {
  }

  /** The source's `get(i)` on the packed word reads cell i. */
  lemma GetIsWordGet(m: Matrix)
    ensures WordGet(Bits(m), 0) == Get(m, II) && WordGet(Bits(m), 2) == Get(m, IB)
    ensures WordGet(Bits(m), 4) == Get(m, IE) && WordGet(Bits(m), 6) == Get(m, BI)
    ensures WordGet(Bits(m), 8) == Get(m, BB) && WordGet(Bits(m), 10) == Get(m, BE)
    ensures WordGet(Bits(m), 12) == Get(m, EI) && WordGet(Bits(m), 14) == Get(m, EB)
  {
    GetPacked(m[0], m[1], m[2], m[3], m[4], m[5], m[6], m[7]);
  }

  lemma SetPacked0(v: bv16, c0: bv16, c1: bv16, c2: bv16, c3: bv16, c4: bv16, c5: bv16, c6: bv16, c7: bv16)
    requires c0 <= 3 && c1 <= 3 && c2 <= 3 && c3 <= 3 && c4 <= 3 && c5 <= 3 && c6 <= 3 && c7 <= 3 && v <= 3
    ensures WordSet(Pack(c0, c1, c2, c3, c4, c5, c6, c7), 0, v) == Pack(v, c1, c2, c3, c4, c5, c6, c7)
  {
  }

  lemma SetPacked1(v: bv16, c0: bv16, c1: bv16, c2: bv16, c3: bv16, c4: bv16, c5: bv16, c6: bv16, c7: bv16)
    requires c0 <= 3 && c1 <= 3 && c2 <= 3 && c3 <= 3 && c4 <= 3 && c5 <= 3 && c6 <= 3 && c7 <= 3 && v <= 3
    ensures WordSet(Pack(c0, c1, c2, c3, c4, c5, c6, c7), 2, v) == Pack(c0, v, c2, c3, c4, c5, c6, c7)
  {
  }

  lemma SetPacked2(v: bv16, c0: bv16, c1: bv16, c2: bv16, c3: bv16, c4: bv16, c5: bv16, c6: bv16, c7: bv16)
    requires c0 <= 3 && c1 <= 3 && c2 <= 3 && c3 <= 3 && c4 <= 3 && c5 <= 3 && c6 <= 3 && c7 <= 3 && v <= 3
    ensures WordSet(Pack(c0, c1, c2, c3, c4, c5, c6, c7), 4, v) == Pack(c0, c1, v, c3, c4, c5, c6, c7)
  {
  }

  lemma SetPacked3(v: bv16, c0: bv16, c1: bv16, c2: bv16, c3: bv16, c4: bv16, c5: bv16, c6: bv16, c7: bv16)
    requires c0 <= 3 && c1 <= 3 && c2 <= 3 && c3 <= 3 && c4 <= 3 && c5 <= 3 && c6 <= 3 && c7 <= 3 && v <= 3
    ensures WordSet(Pack(c0, c1, c2, c3, c4, c5, c6, c7), 6, v) == Pack(c0, c1, c2, v, c4, c5, c6, c7)
  {
  }

  lemma SetPacked4(v: bv16, c0: bv16, c1: bv16, c2: bv16, c3: bv16, c4: bv16, c5: bv16, c6: bv16, c7: bv16)
    requires c0 <= 3 && c1 <= 3 && c2 <= 3 && c3 <= 3 && c4 <= 3 && c5 <= 3 && c6 <= 3 && c7 <= 3 && v <= 3
    ensures WordSet(Pack(c0, c1, c2, c3, c4, c5, c6, c7), 8, v) == Pack(c0, c1, c2, c3, v, c5, c6, c7)
  {
  }

  lemma SetPacked5(v: bv16, c0: bv16, c1: bv16, c2: bv16, c3: bv16, c4: bv16, c5: bv16, c6: bv16, c7: bv16)
    requires c0 <= 3 && c1 <= 3 && c2 <= 3 && c3 <= 3 && c4 <= 3 && c5 <= 3 && c6 <= 3 && c7 <= 3 && v <= 3
    ensures WordSet(Pack(c0, c1, c2, c3, c4, c5, c6, c7), 10, v) == Pack(c0, c1, c2, c3, c4, v, c6, c7)
  {
  }

  lemma SetPacked6(v: bv16, c0: bv16, c1: bv16, c2: bv16, c3: bv16, c4: bv16, c5: bv16, c6: bv16, c7: bv16)
    requires c0 <= 3 && c1 <= 3 && c2 <= 3 && c3 <= 3 && c4 <= 3 && c5 <= 3 && c6 <= 3 && c7 <= 3 && v <= 3
    ensures WordSet(Pack(c0, c1, c2, c3, c4, c5, c6, c7), 12, v) == Pack(c0, c1, c2, c3, c4, c5, v, c7)
  {
  }

  lemma SetPacked7(v: bv16, c0: bv16, c1: bv16, c2: bv16, c3: bv16, c4: bv16, c5: bv16, c6: bv16, c7: bv16)
    requires c0 <= 3 && c1 <= 3 && c2 <= 3 && c3 <= 3 && c4 <= 3 && c5 <= 3 && c6 <= 3 && c7 <= 3 && v <= 3
    ensures WordSet(Pack(c0, c1, c2, c3, c4, c5, c6, c7), 14, v) == Pack(c0, c1, c2, c3, c4, c5, c6, v)
  {
  }

  /** The source's `setTo(i, v)` on the packed word replaces cell i and keeps the others. */
  lemma SetToIsWordSet(m: Matrix, v: Dim)
    ensures FromBits(WordSet(Bits(m), 0, v)) == SetTo(m, 0, v)
    ensures FromBits(WordSet(Bits(m), 2, v)) == SetTo(m, 1, v)
    ensures FromBits(WordSet(Bits(m), 4, v)) == SetTo(m, 2, v)
    ensures FromBits(WordSet(Bits(m), 6, v)) == SetTo(m, 3, v)
    ensures FromBits(WordSet(Bits(m), 8, v)) == SetTo(m, 4, v)
    ensures FromBits(WordSet(Bits(m), 10, v)) == SetTo(m, 5, v)
    ensures FromBits(WordSet(Bits(m), 12, v)) == SetTo(m, 6, v)
    ensures FromBits(WordSet(Bits(m), 14, v)) == SetTo(m, 7, v)
  {
    SetPacked0(v, m[0], m[1], m[2], m[3], m[4], m[5], m[6], m[7]);
    SetPacked1(v, m[0], m[1], m[2], m[3], m[4], m[5], m[6], m[7]);
    SetPacked2(v, m[0], m[1], m[2], m[3], m[4], m[5], m[6], m[7]);
    SetPacked3(v, m[0], m[1], m[2], m[3], m[4], m[5], m[6], m[7]);
    SetPacked4(v, m[0], m[1], m[2], m[3], m[4], m[5], m[6], m[7]);
    SetPacked5(v, m[0], m[1], m[2], m[3], m[4], m[5], m[6], m[7]);
    SetPacked6(v, m[0], m[1], m[2], m[3], m[4], m[5], m[6], m[7]);
    SetPacked7(v, m[0], m[1], m[2], m[3], m[4], m[5], m[6], m[7]);
    BitsRoundTrip(SetTo(m, 0, v));
    BitsRoundTrip(SetTo(m, 1, v));
    BitsRoundTrip(SetTo(m, 2, v));
    BitsRoundTrip(SetTo(m, 3, v));
    BitsRoundTrip(SetTo(m, 4, v));
    BitsRoundTrip(SetTo(m, 5, v));
    BitsRoundTrip(SetTo(m, 6, v));
    BitsRoundTrip(SetTo(m, 7, v));
  }

  // ---------------------------------------------------------------------------
  // Text

  /** Code the parser stores for a character: anything but '0', '1', '2' is F. */
  function DigitCode(c: char): Dim
  {
    if c == '0' then D0 else if c == '1' then D1 else if c == '2' then D2 else F
  }

  /** The loop of `DE9IMatrix(const char*)` from cell i on. The source ORs the
      code into a word that is still all F from cell i on, which sets the cell. */
  function ParseFrom(s: string, i: nat, m: Matrix): Matrix
    requires i <= 8
    decreases 8 - i
  {
    if i == 8 || CharAt(s, i) == '\0' then m
    else ParseFrom(s, i + 1, SetTo(m, i, DigitCode(CharAt(s, i))))
  }

  lemma {:induction false} ParseFromCells(s: string, i: nat, m: Matrix)
    requires i <= 8
    requires i == 0 || Live(s, i - 1)
    requires forall j: Cell :: j >= i ==> m[j] == F
    ensures forall j: Cell ::
              ParseFrom(s, i, m)[j] ==
              if j < i then m[j] else if Live(s, j) then DigitCode(CharAt(s, j)) else F
    decreases 8 - i
  {
    if i == 8 || CharAt(s, i) == '\0' {
      forall j: Cell | j >= i
        ensures !Live(s, j)
      {
        assert CharAt(s, i) == '\0';
      }
    } else {
      assert Live(s, i);
      ParseFromCells(s, i + 1, SetTo(m, i, DigitCode(CharAt(s, i))));
    }
  }

  /** `DE9IMatrix(const char*)`: reads at most eight characters, stopping at the
      terminating NUL; '0', '1', '2' give D0, D1, D2 and every other character F. */
  function Parse(s: string): (m: Matrix)
    ensures forall i: Cell :: m[i] == if Live(s, i) then DigitCode(CharAt(s, i)) else F
  {
    ParseFromCells(s, 0, Empty);
    ParseFrom(s, 0, Empty)
  }

  function CellChar(v: Dim): char
  {
    if v == F then 'F' else if v == D0 then '0' else if v == D1 then '1' else '2'
  }

  /** `toString()`: nine characters, the ninth always '2'. */
  function ToString(m: Matrix): (s: string)
    ensures |s| == 9 && s[8] == '2'
  {
    seq(9, k requires 0 <= k < 9 => if k == 8 then '2' else CellChar(m[k]))
  }

  /** Printing a matrix and parsing the text gives the matrix back. */
  lemma ParseToString(m: Matrix)
    ensures Parse(ToString(m)) == m
  {
    var s := ToString(m);
    forall j: Cell
      ensures Parse(s)[j] == m[j]
    {
      assert Live(s, j) by {
        forall k | 0 <= k <= j
          ensures CharAt(s, k) != '\0'
        {
          assert s[k] == CellChar(m[k]);
        }
      }
      assert s[j] == CellChar(m[j]);
    }
  }

  predicate IsMatrixText(s: string)
  {
    |s| == 9 && s[8] == '2' && forall i :: 0 <= i < 8 ==> s[i] in "F012"
  }

  /** A nine-character text over {F,0,1,2} ending in '2' survives parsing and
      printing unchanged. */
  lemma ToStringParse(s: string)
    requires IsMatrixText(s)
    ensures ToString(Parse(s)) == s
  {
    var r := ToString(Parse(s));
    forall k | 0 <= k < 9
      ensures r[k] == s[k]
    {
      if k < 8 {
        assert Live(s, k) by {
          forall k' | 0 <= k' <= k
            ensures CharAt(s, k') != '\0'
          {
            assert s[k'] in "F012";
          }
        }
        assert s[k] in "F012";
      }
    }
  }

  /** `operator!=(std::string, DE9IMatrix)`: compares against the printed matrix. */
  predicate TextDiffers(a: string, m: Matrix)
  {
    a != ToString(m)
  }

  /** For well-formed matrix text, "not different" means "parses to the matrix". */
  lemma TextDiffersIffParse(a: string, m: Matrix)
    requires IsMatrixText(a)
    ensures !TextDiffers(a, m) <==> Parse(a) == m
  {
    ToStringParse(a);
    ParseToString(m);
  }

  // ---------------------------------------------------------------------------
  // Operations

  /** `transpose()`: swaps the roles of the two geometries. */
  function Transpose(m: Matrix): (r: Matrix)
    ensures r[II] == m[II] && r[BB] == m[BB]
    ensures r[IB] == m[BI] && r[BI] == m[IB]
    ensures r[IE] == m[EI] && r[EI] == m[IE]
    ensures r[BE] == m[EB] && r[EB] == m[BE]
  {
    var r0 := SetTo(Empty, II, m[II]);
    var r1 := SetTo(r0, IB, m[BI]);
    var r2 := SetTo(r1, IE, m[EI]);
    var r3 := SetTo(r2, BI, m[IB]);
    var r4 := SetTo(r3, BB, m[BB]);
    var r5 := SetTo(r4, BE, m[EB]);
    var r6 := SetTo(r5, EI, m[IE]);
    SetTo(r6, EB, m[BE])
  }

  lemma TransposeInvolution(m: Matrix)
    ensures Transpose(Transpose(m)) == m
  {
  }

  function Max(a: Dim, b: Dim): Dim
  {
    if a >= b then a else b
  }

  /** The loop of `operator+` from cell i on, writing into ret. */
  function PlusFrom(a: Matrix, b: Matrix, i: nat, ret: Matrix): (r: Matrix)
    requires i <= 8
    ensures forall j: Cell :: r[j] == if j < i then ret[j] else Max(a[j], b[j])
    decreases 8 - i
  {
    if i == 8 then ret
    else
      var next := if a[i] >= b[i] then SetTo(ret, i, a[i]) else SetTo(ret, i, b[i]);
      PlusFrom(a, b, i + 1, next)
  }

  /** `operator+`: the cell-wise maximum of two matrices. */
  function Plus(a: Matrix, b: Matrix): (r: Matrix)
    ensures forall j: Cell :: r[j] == Max(a[j], b[j])
  {
    PlusFrom(a, b, 0, Empty)
  }

  /** Two matrices with the same cells are the same matrix. */
  lemma SameCells(x: Matrix, y: Matrix)
    requires forall j: Cell :: x[j] == y[j]
    ensures x == y
  {
  }

  lemma PlusCommutative(a: Matrix, b: Matrix)
    ensures Plus(a, b) == Plus(b, a)
  {
    SameCells(Plus(a, b), Plus(b, a));
  }

  lemma PlusAssociative(a: Matrix, b: Matrix, c: Matrix)
    ensures Plus(Plus(a, b), c) == Plus(a, Plus(b, c))
  {
    var ab, bc := Plus(a, b), Plus(b, c);
    SameCells(Plus(ab, c), Plus(a, bc));
  }

  lemma PlusIdempotent(a: Matrix)
    ensures Plus(a, a) == a
  {
  }

  /** `operator+=`: updates the left matrix in place, cell by cell; the result
      is the same as `operator+`. */
  method PlusAssign(a: Matrix, other: Matrix) returns (r: Matrix)
    ensures r == Plus(a, other)
  {
    r := a;
    var i: nat := 0;
    while i < 8
      invariant i <= 8
      invariant forall j: Cell :: j < i ==> r[j] == Max(a[j], other[j])
      invariant forall j: Cell :: j >= i ==> r[j] == a[j]
    {
      if other[i] >= r[i] {
        r := SetTo(r, i, other[i]);
      } else {
        r := SetTo(r, i, r[i]);
      }
      i := i + 1;
    }
  }

  // Named predicates (section 6.1.15.3); a cell counts as true when it is not F.

  predicate Disjoint(m: Matrix)
  {
    m[II] == F && m[IB] == F && m[BI] == F && m[BB] == F
  }

  predicate Contains(m: Matrix)
  {
    m[II] != F && m[EI] == F && m[EB] == F
  }

  predicate Covers(m: Matrix)
  {
    (m[II] != F || m[IB] != F || m[BI] != F || m[BB] != F) && m[EI] == F && m[EB] == F
  }

  predicate Equals(m: Matrix)
  {
    m[II] != F && m[IE] == F && m[BE] == F && m[EI] == F && m[EB] == F
  }

  predicate Touches(m: Matrix)
  {
    m[II] == F && (m[IB] != F || m[BI] != F || m[BB] != F)
  }

  predicate Intersects(m: Matrix)
  {
    !Disjoint(m)
  }

  predicate Within(m: Matrix)
  {
    m[II] != F && m[IE] == F && m[BE] == F
  }

  predicate Covered(m: Matrix)
  {
    m[IE] == F && m[BE] == F && (m[II] != F || m[IB] != F || m[BI] != F || m[BB] != F)
  }

  predicate CoveredBy(m: Matrix)
  {
    Covered(m)
  }

  predicate Overlaps02(m: Matrix)
  {
    m[II] != F && m[IE] != F && m[EI] != F
  }

  predicate Overlaps1(m: Matrix)
  {
    m[II] == D1 && m[IE] != F && m[EI] != F
  }

  /** How the named predicates relate to one another and to transposition. */
  lemma PredicateRelations(m: Matrix)
    ensures Intersects(m) <==> !Disjoint(m)
    ensures Equals(m) <==> Contains(m) && Within(m)
    ensures Contains(m) <==> Within(Transpose(m))
    ensures Covers(m) <==> Covered(Transpose(m))
    ensures Touches(m) ==> Intersects(m)
    ensures Contains(m) ==> Covers(m)
    ensures Overlaps1(m) ==> Overlaps02(m)
  {
  }

  // ---------------------------------------------------------------------------
  // DE9IMFilter

  /** eeVal codes beyond D2: 'T' and '*' (the default). */
  const EeTrue: bv8 := 4
  const EeAny: bv8 := 5

  datatype Filter = Filter(equalityMask: bv16, trueMask: bv16, equalityValues: bv16, eeVal: bv8)

  const DefaultFilter: Filter := Filter(0, 0, 0, EeAny)

  function EeCode(c: char): bv8
  {
    if c == 'F' then 0 else if c == '0' then 1 else if c == '1' then 2
    else if c == '2' then 3 else if c == 'T' then EeTrue else EeAny
  }

  predicate IsEqChar(c: char)
  {
    '0' <= c <= '2' || c == 'F'
  }

  /** The three words of a filter under construction, cell by cell. */
  datatype FilterCells = FilterCells(eqMask: Matrix, trueMask: Matrix, eqValues: Matrix)

  /** One step of the constructor's loop: character c at cell i. A digit sets
      the equality pair and its value (digit + 1), 'F' sets the equality pair
      with value F, 'T' sets the true pair; any other character demands nothing. */
  function FilterStep(f: FilterCells, i: Cell, c: char): FilterCells
  {
    if '0' <= c <= '2' then f.(eqMask := SetTo(f.eqMask, i, D2), eqValues := SetTo(f.eqValues, i, DigitCode(c)))
    else if c == 'F' then f.(eqMask := SetTo(f.eqMask, i, D2))
    else if c == 'T' then f.(trueMask := SetTo(f.trueMask, i, D2))
    else f
  }

  /** The per-cell loop of `DE9IMFilter(const char*)` from cell i on. */
  function FilterCellsFrom(s: string, i: nat, f: FilterCells): FilterCells
    requires i <= 8
    decreases 8 - i
  {
    if i == 8 || CharAt(s, i) == '\0' then f
    else FilterCellsFrom(s, i + 1, FilterStep(f, i, CharAt(s, i)))
  }

  /** The pattern character the filter sees at cell i: '*' once the string ended. */
  function PatChar(s: string, i: nat): char
  {
    if Live(s, i) then CharAt(s, i) else '*'
  }

  /** What the filter stores for pattern character c at cell j. */
  predicate CellEncodes(f: FilterCells, j: Cell, c: char)
  {
    && f.eqMask[j] == (if IsEqChar(c) then D2 else F)
    && f.eqValues[j] == DigitCode(c)
    && f.trueMask[j] == (if c == 'T' then D2 else F)
  }

  ghost predicate FilterEncodes(s: string, f: FilterCells)
  {
    forall j: Cell :: CellEncodes(f, j, PatChar(s, j))
  }

  const NoDemands: FilterCells := FilterCells(Empty, Empty, Empty)

  /** A step writes cell i and leaves every other cell alone. */
  lemma FilterStepCells(f: FilterCells, i: Cell, c: char)
    requires CellEncodes(f, i, '*')
    ensures CellEncodes(FilterStep(f, i, c), i, c)
    ensures forall j: Cell :: j != i ==>
              FilterStep(f, i, c).eqMask[j] == f.eqMask[j] &&
              FilterStep(f, i, c).eqValues[j] == f.eqValues[j] &&
              FilterStep(f, i, c).trueMask[j] == f.trueMask[j]
  {
  }

  lemma {:induction false} FilterCellsFromSpec(s: string, i: nat, f: FilterCells)
    requires i <= 8
    requires i == 0 || Live(s, i - 1)
    requires forall j: Cell :: j >= i ==> CellEncodes(f, j, '*')
    requires forall j: Cell :: j < i ==> CellEncodes(f, j, PatChar(s, j))
    ensures FilterEncodes(s, FilterCellsFrom(s, i, f))
    decreases 8 - i
  {
    if i == 8 || CharAt(s, i) == '\0' {
      forall j: Cell | j >= i
        ensures PatChar(s, j) == '*'
      {
        assert CharAt(s, i) == '\0';
      }
    } else {
      var c := CharAt(s, i);
      assert Live(s, i);
      assert PatChar(s, i) == c;
      var g := FilterStep(f, i, c);
      FilterStepCells(f, i, c);
      forall j: Cell | j >= i + 1
        ensures CellEncodes(g, j, '*')
      {
        assert CellEncodes(f, j, '*');
      }
      forall j: Cell | j < i + 1
        ensures CellEncodes(g, j, PatChar(s, j))
      {
        if j < i {
          assert CellEncodes(f, j, PatChar(s, j));
        }
      }
      FilterCellsFromSpec(s, i + 1, g);
    }
  }

  /** The three words the constructor builds, cell by cell. */
  function ParseFilterCells(s: string): (fc: FilterCells)
    ensures FilterEncodes(s, fc)
  {
    FilterCellsFromSpec(s, 0, NoDemands);
    FilterCellsFrom(s, 0, NoDemands)
  }

  /** `DE9IMFilter(const char*)`. The source ORs 11 pairs and values into
      words that start at zero; packing the per-cell codes yields those words.
      The EE demand is read only when all eight cells and the ninth character
      are present. */
  function ParseFilter(s: string): (f: Filter)
    ensures f.eeVal == if Live(s, 8) then EeCode(CharAt(s, 8)) else EeAny
  {
    var fc := ParseFilterCells(s);
    var ee := if !Live(s, 7) || CharAt(s, 8) == '\0' then EeAny else EeCode(CharAt(s, 8));
    Filter(Bits(fc.eqMask), Bits(fc.trueMask), Bits(fc.eqValues), ee)
  }

  const LowBits: bv16 := 0x5555

  /** The EE demand can be met: the EE cell of a matrix is always 2. */
  predicate EeOk(ee: bv8)
  {
    !(ee == 0 || ee == 1 || ee == 2)
  }

  /** All equality cells at once: mask the word and compare with the values. */
  predicate EqualityOk(x: bv16, mask: bv16, vals: bv16)
  {
    x & mask == vals
  }

  /** All 'T' cells at once: after masking, OR each pair's high bit into its
      low bit, keep only the low bits, and compare with the mask's low bits. */
  predicate TrueOk(x: bv16, t: bv16)
  {
    t == 0 || (((x & t) >> 1) | (x & t)) & LowBits == t & LowBits
  }

  /** `matches(a)`: the EE demand is checked first, then the equality cells,
      then the 'T' cells. */
  predicate Matches(f: Filter, a: Matrix)
  {
    if !EeOk(f.eeVal) then false
    else if !EqualityOk(Bits(a), f.equalityMask, f.equalityValues) then false
    else if !TrueOk(Bits(a), f.trueMask) then false
    else true
  }

  /** `operator&` with the filter on the left. */
  predicate FilterAnd(f: Filter, a: Matrix)
  {
    Matches(f, a)
  }

  /** `operator&` with the matrix on the left. */
  predicate MatrixAnd(a: Matrix, f: Filter)
  {
    Matches(f, a)
  }

  /** What one pattern character demands of one cell. */
  predicate CellMatches(c: char, v: Dim)
  {
    if IsEqChar(c) then v == DigitCode(c)
    else if c == 'T' then v != F
    else true
  }

  /** The EE cell of a matrix is always 2, so a pattern demanding F, 0 or 1 there fails. */
  predicate EeAccepts(s: string)
  {
    !(Live(s, 8) && CharAt(s, 8) in "F01")
  }

  /** Reference meaning of matching a pattern against a matrix, cell by cell. */
  ghost predicate PatternMatches(s: string, m: Matrix)
  {
    EeAccepts(s) && forall j: Cell :: CellMatches(PatChar(s, j), m[j])
  }

  // Bit identities behind `matches`, first on eight separate codes.

  function NonZero(c: bv16): bv16
  {
    if c != 0 then 1 else 0
  }

  lemma AndPacked(a0: bv16, a1: bv16, a2: bv16, a3: bv16, a4: bv16, a5: bv16, a6: bv16, a7: bv16,
                  b0: bv16, b1: bv16, b2: bv16, b3: bv16, b4: bv16, b5: bv16, b6: bv16, b7: bv16)
    requires a0 <= 3 && a1 <= 3 && a2 <= 3 && a3 <= 3 && a4 <= 3 && a5 <= 3 && a6 <= 3 && a7 <= 3
    requires b0 <= 3 && b1 <= 3 && b2 <= 3 && b3 <= 3 && b4 <= 3 && b5 <= 3 && b6 <= 3 && b7 <= 3
    ensures Pack(a0, a1, a2, a3, a4, a5, a6, a7) & Pack(b0, b1, b2, b3, b4, b5, b6, b7)
         == Pack(a0 & b0, a1 & b1, a2 & b2, a3 & b3, a4 & b4, a5 & b5, a6 & b6, a7 & b7)
  {
  }

  lemma ShiftOrPacked(a0: bv16, a1: bv16, a2: bv16, a3: bv16, a4: bv16, a5: bv16, a6: bv16, a7: bv16)
    requires a0 <= 3 && a1 <= 3 && a2 <= 3 && a3 <= 3 && a4 <= 3 && a5 <= 3 && a6 <= 3 && a7 <= 3
    ensures var x := Pack(a0, a1, a2, a3, a4, a5, a6, a7);
      ((x >> 1) | x) & LowBits == Pack(NonZero(a0), NonZero(a1), NonZero(a2), NonZero(a3),
                                      NonZero(a4), NonZero(a5), NonZero(a6), NonZero(a7))
  {
  }

  lemma LowPacked(a0: bv16, a1: bv16, a2: bv16, a3: bv16, a4: bv16, a5: bv16, a6: bv16, a7: bv16)
    requires a0 <= 3 && a1 <= 3 && a2 <= 3 && a3 <= 3 && a4 <= 3 && a5 <= 3 && a6 <= 3 && a7 <= 3
    ensures Pack(a0, a1, a2, a3, a4, a5, a6, a7) & LowBits
         == Pack(a0 & 1, a1 & 1, a2 & 1, a3 & 1, a4 & 1, a5 & 1, a6 & 1, a7 & 1)
  {
  }

  // ... and on matrices.

  function AndCells(a: Matrix, b: Matrix): Matrix
  {
    seq(8, k requires 0 <= k < 8 => a[k] & b[k])
  }

  function NonZeroCells(a: Matrix): Matrix
  {
    seq(8, k requires 0 <= k < 8 => NonZero(a[k]))
  }

  function LowCells(a: Matrix): Matrix
  {
    seq(8, k requires 0 <= k < 8 => a[k] & 1)
  }

  lemma AndBits(a: Matrix, b: Matrix)
    ensures Bits(a) & Bits(b) == Bits(AndCells(a, b))
  {
    var r := AndCells(a, b);
    assert r[0] == a[0] & b[0] && r[1] == a[1] & b[1] && r[2] == a[2] & b[2] && r[3] == a[3] & b[3] &&
           r[4] == a[4] & b[4] && r[5] == a[5] & b[5] && r[6] == a[6] & b[6] && r[7] == a[7] & b[7] by {}
    AndPacked(a[0], a[1], a[2], a[3], a[4], a[5], a[6], a[7], b[0], b[1], b[2], b[3], b[4], b[5], b[6], b[7]);
  }

  lemma ShiftOrBits(a: Matrix)
    ensures ((Bits(a) >> 1) | Bits(a)) & LowBits == Bits(NonZeroCells(a))
  {
    ShiftOrPacked(a[0], a[1], a[2], a[3], a[4], a[5], a[6], a[7]);
  }

  lemma LowBitsOf(a: Matrix)
    ensures Bits(a) & LowBits == Bits(LowCells(a))
  {
    LowPacked(a[0], a[1], a[2], a[3], a[4], a[5], a[6], a[7]);
  }

  /** One cell of the mask tests, for a mask cell that is 00 or 11. */
  lemma MaskCell(v: Dim, mask: Dim)
    requires mask == F || mask == D2
    ensures v & mask == if mask == D2 then v else F
    ensures NonZero(v & mask) == (mask & 1) <==> (mask == D2 ==> v != F)
  {
  }

  /** Cell by cell, masking with 00/11 pairs keeps exactly the covered cells. */
  lemma EqualityCells(m: Matrix, mask: Matrix, vals: Matrix)
    requires forall j: Cell :: mask[j] == D2 || (mask[j] == F && vals[j] == F)
    ensures AndCells(m, mask) == vals <==> forall j: Cell :: mask[j] == D2 ==> m[j] == vals[j]
  {
    forall j: Cell
      ensures AndCells(m, mask)[j] == vals[j] <==> (mask[j] == D2 ==> m[j] == vals[j])
    {
      MaskCell(m[j], mask[j]);
    }
  }

  /** The propositional step of `EqualityTest`, kept apart from the packing. */
  lemma EqualityChain(x: bv16, mask: bv16, vals: bv16, w: bv16, same: bool, cells: bool)
    requires x & mask == w && (w == vals <==> same) && (same <==> cells)
    ensures EqualityOk(x, mask, vals) <==> cells
  {
  }

  /** `(a & M) == V` tests the cells M covers, when every cell of M is 00 or
      11 and V is F outside M. */
  lemma EqualityTest(m: Matrix, mask: Matrix, vals: Matrix)
    requires forall j: Cell :: mask[j] == D2 || (mask[j] == F && vals[j] == F)
    ensures EqualityOk(Bits(m), Bits(mask), Bits(vals)) <==> forall j: Cell :: mask[j] == D2 ==> m[j] == vals[j]
  {
    var a := AndCells(m, mask);
    AndBits(m, mask);
    BitsInjective(a, vals);
    EqualityCells(m, mask, vals);
    EqualityChain(Bits(m), Bits(mask), Bits(vals), Bits(a), a == vals,
                  forall j: Cell :: mask[j] == D2 ==> m[j] == vals[j]);
  }

  lemma TrueTrickBits(m: Matrix, t: Matrix)
    ensures (((Bits(m) & Bits(t)) >> 1) | (Bits(m) & Bits(t))) & LowBits == Bits(NonZeroCells(AndCells(m, t)))
  {
    AndBits(m, t);
    ShiftOrBits(AndCells(m, t));
  }

  lemma TrueTrickCells(m: Matrix, t: Matrix)
    requires forall j: Cell :: t[j] == D2 || t[j] == F
    ensures NonZeroCells(AndCells(m, t)) == LowCells(t) <==> forall j: Cell :: t[j] == D2 ==> m[j] != F
  {
    forall j: Cell
      ensures NonZeroCells(AndCells(m, t))[j] == LowCells(t)[j] <==> (t[j] == D2 ==> m[j] != F)
    {
      MaskCell(m[j], t[j]);
    }
  }

  /** The propositional step of `TrueWords`, kept apart from the packing. */
  lemma TrueChain(x: bv16, t: bv16, w: bv16, low: bv16, same: bool)
    requires (((x & t) >> 1) | (x & t)) & LowBits == w && t & LowBits == low
    requires w == low <==> same
    ensures TrueOk(x, t) <==> t == 0 || same
  {
  }

  /** The shift-and-or trick on words is a comparison of per-cell codes. */
  lemma TrueWords(m: Matrix, t: Matrix)
    ensures TrueOk(Bits(m), Bits(t)) <==> Bits(t) == 0 || NonZeroCells(AndCells(m, t)) == LowCells(t)
  {
    var n := NonZeroCells(AndCells(m, t));
    TrueTrickBits(m, t);
    LowBitsOf(t);
    BitsInjective(n, LowCells(t));
    TrueChain(Bits(m), Bits(t), Bits(n), Bits(LowCells(t)), n == LowCells(t));
  }

  /** The shift-and-or trick tests "not F" on every cell the true mask covers. */
  lemma TrueTest(m: Matrix, t: Matrix)
    requires forall j: Cell :: t[j] == D2 || t[j] == F
    ensures TrueOk(Bits(m), Bits(t)) <==> forall j: Cell :: t[j] == D2 ==> m[j] != F
  {
    TrueWords(m, t);
    TrueTrickCells(m, t);
    BitsZero(t);
  }

  /** Only the all-F matrix packs to zero. */
  lemma BitsZero(t: Matrix)
    ensures Bits(t) == 0 ==> forall j: Cell :: t[j] == F
  {
    BitsInjective(t, Empty);
  }

  /** The words of a filter built from per-cell codes. */
  function Packed(fc: FilterCells, ee: bv8): Filter
  {
    Filter(Bits(fc.eqMask), Bits(fc.trueMask), Bits(fc.eqValues), ee)
  }

  /** Every cell of the masks is 00 or 11, and values sit only under the equality mask. */
  ghost predicate WellShaped(fc: FilterCells)
  {
    && (forall j: Cell :: fc.eqMask[j] == D2 || (fc.eqMask[j] == F && fc.eqValues[j] == F))
    && (forall j: Cell :: fc.trueMask[j] == D2 || fc.trueMask[j] == F)
  }

  /** `matches` on packed words, read cell by cell. */
  lemma MatchesCells(fc: FilterCells, ee: bv8, m: Matrix)
    requires WellShaped(fc)
    ensures Matches(Packed(fc, ee), m) <==>
              && EeOk(ee)
              && (forall j: Cell :: fc.eqMask[j] == D2 ==> m[j] == fc.eqValues[j])
              && (forall j: Cell :: fc.trueMask[j] == D2 ==> m[j] != F)
  {
    TrueTest(m, fc.trueMask);
    EqualityTest(m, fc.eqMask, fc.eqValues);
  }

  /** The filter the constructor builds is the packing of its per-cell codes. */
  lemma ParseFilterPacked(s: string)
    ensures ParseFilter(s) == Packed(ParseFilterCells(s), ParseFilter(s).eeVal)
    ensures WellShaped(ParseFilterCells(s))
  {
    var fc := ParseFilterCells(s);
    forall j: Cell
      ensures fc.eqMask[j] == D2 || (fc.eqMask[j] == F && fc.eqValues[j] == F)
      ensures fc.trueMask[j] == D2 || fc.trueMask[j] == F
    {
      assert CellEncodes(fc, j, PatChar(s, j));
    }
  }

  /** The EE demand the constructor stores is met exactly when the pattern accepts EE = 2. */
  lemma EeOkIff(s: string)
    ensures EeOk(ParseFilter(s).eeVal) <==> EeAccepts(s)
  {
  }

  /** The reference meaning, read through the codes the constructor stores. */
  lemma PatternCells(s: string, m: Matrix)
    ensures var fc := ParseFilterCells(s);
      PatternMatches(s, m) <==>
        && EeOk(ParseFilter(s).eeVal)
        && (forall j: Cell :: fc.eqMask[j] == D2 ==> m[j] == fc.eqValues[j])
        && (forall j: Cell :: fc.trueMask[j] == D2 ==> m[j] != F)
  {
    var fc := ParseFilterCells(s);
    EeOkIff(s);
    forall j: Cell
      ensures CellMatches(PatChar(s, j), m[j]) <==>
        (fc.eqMask[j] == D2 ==> m[j] == fc.eqValues[j]) && (fc.trueMask[j] == D2 ==> m[j] != F)
    {
      CellMatchesCodes(fc, j, PatChar(s, j), m[j]);
    }
  }

  lemma CellMatchesCodes(fc: FilterCells, j: Cell, c: char, v: Dim)
    requires CellEncodes(fc, j, c)
    ensures CellMatches(c, v) <==> (fc.eqMask[j] == D2 ==> v == fc.eqValues[j]) && (fc.trueMask[j] == D2 ==> v != F)
  {
  }

  /** Filter matching is the cell-by-cell test of the pattern it was built from. */
  lemma MatchesIffPattern(s: string, m: Matrix)
    ensures Matches(ParseFilter(s), m) <==> PatternMatches(s, m)
  {
    ParseFilterPacked(s);
    MatchesCells(ParseFilterCells(s), ParseFilter(s).eeVal, m);
    PatternCells(s, m);
  }

  /** A pattern of nine '*' matches every matrix. */
  lemma AllStarsMatch(m: Matrix)
    ensures Matches(ParseFilter("*********"), m)
  {
    var s := "*********";
    assert Live(s, 8);
    forall j: Cell
      ensures CellMatches(PatChar(s, j), m[j])
    {
      assert s[j] == '*';
    }
    MatchesIffPattern(s, m);
  }

  function EeChar(e: bv8): char
  {
    if e == 0 then 'F' else if e == 1 then '0' else if e == 2 then '1'
    else if e == 3 then '2' else if e == EeTrue then 'T' else '*'
  }

  /** Character `toString()` prints for cell i: a 'T' demand wins over an
      equality demand; a cell with neither prints '*'. */
  function FilterCellChar(f: Filter, i: Cell): char
  {
    if FromBits(f.trueMask)[i] != F then 'T'
    else if FromBits(f.equalityMask)[i] != F then CellChar(FromBits(f.equalityValues)[i])
    else '*'
  }

  /** `DE9IMFilter::toString()`. */
  function FilterToString(f: Filter): (s: string)
    ensures |s| == 9
  {
    seq(9, k requires 0 <= k < 9 => if k == 8 then EeChar(f.eeVal) else FilterCellChar(f, k))
  }

  predicate IsPatternText(s: string)
  {
    |s| == 9 && forall i :: 0 <= i < 9 ==> s[i] in "F012T*"
  }

  /** The printed character of a cell is the pattern character it was built from. */
  lemma FilterCellCharOf(fc: FilterCells, ee: bv8, k: Cell, c: char)
    requires CellEncodes(fc, k, c) && c in "F012T*"
    ensures FilterCellChar(Packed(fc, ee), k) == c
  {
    BitsRoundTrip(fc.eqMask);
    BitsRoundTrip(fc.trueMask);
    BitsRoundTrip(fc.eqValues);
    CodesChar(fc.eqMask[k], fc.trueMask[k], fc.eqValues[k], c);
  }

  /** The three codes a pattern character sets print back as that character. */
  lemma CodesChar(eq: Dim, tr: Dim, v: Dim, c: char)
    requires eq == (if IsEqChar(c) then D2 else F) && v == DigitCode(c) && tr == (if c == 'T' then D2 else F)
    requires c in "F012T*"
    ensures (if tr != F then 'T' else if eq != F then CellChar(v) else '*') == c
  {
  }

  /** A nine-character pattern over {F,0,1,2,T,*} prints back unchanged. */
  lemma FilterToStringParse(s: string)
    requires IsPatternText(s)
    ensures FilterToString(ParseFilter(s)) == s
  {
    PatternLive(s);
    var r := FilterToString(ParseFilter(s));
    forall k | 0 <= k < 9
      ensures r[k] == s[k]
    {
      if k == 8 {
        EeCharCode(s[8]);
      } else {
        FilterCharAt(s, k);
      }
    }
  }

  lemma PatternLive(s: string)
    requires IsPatternText(s)
    ensures Live(s, 8)
  {
    forall k | 0 <= k <= 8
      ensures CharAt(s, k) != '\0'
    {
      assert s[k] in "F012T*";
    }
  }

  lemma EeCharCode(c: char)
    requires c in "F012T*"
    ensures EeChar(EeCode(c)) == c
  {
  }

  lemma FilterCharAt(s: string, k: Cell)
    requires IsPatternText(s) && Live(s, 8)
    ensures FilterCellChar(ParseFilter(s), k) == s[k]
  {
    var fc := ParseFilterCells(s);
    ParseFilterPacked(s);
    assert Live(s, k);
    assert CellEncodes(fc, k, PatChar(s, k));
    FilterCellCharOf(fc, ParseFilter(s).eeVal, k, s[k]);
  }
}
