/** Rings and polygons of src/util/geo/Polygon.h over integer coordinates.
    The source computes the shoelace sum in doubles and halves it; here every
    area is kept doubled, so it stays an exact integer. */
module Polygons {
  import opened Points
  import opened Sorting

  type Ring = seq<Point>

  function Reverse<T>(s: seq<T>): (r: seq<T>)
    ensures |r| == |s|
    ensures forall i :: 0 <= i < |s| ==> r[i] == s[|s| - 1 - i]
  {
    seq(|s|, i requires 0 <= i < |s| => s[|s| - 1 - i])
  }

  lemma ReverseReverse<T>(s: seq<T>)
    ensures Reverse(Reverse(s)) == s
  {
  }

  // ---------------------------------------------------------------------------
  // The shoelace sum

  /** One summand of `signedRingArea` for the edge from a to b, with both
      points shifted by the offset o (the ring's first point). */
  function Term(a: Point, b: Point, o: Point): int
  {
    ((a.x - o.x) + (b.x - o.x)) * ((a.y - o.y) - (b.y - o.y))
  }

  /** The summands of the open chain s[0] -> s[1] -> ... -> s[|s|-1]. */
  function Chain(s: Ring, o: Point): int
  {
    if |s| < 2 then 0 else Term(s[0], s[1], o) + Chain(s[1..], o)
  }

  /** The full cyclic sum: the closing edge from the last point to the first,
      then the chain. */
  function ClosedSum(r: Ring, o: Point): int
    requires |r| >= 1
  {
    Term(r[|r| - 1], r[0], o) + Chain(r, o)
  }

  /** Twice `signedRingArea(r)`: 0 for fewer than 3 points, otherwise the
      shoelace sum with the first point as offset. */
  function TwiceSignedRingArea(r: Ring): int
  {
    if |r| < 3 then 0 else ClosedSum(r, r[0])
  }

  /** Twice `ringArea(r)`: the size of the signed area, whichever way the
      ring turns. */
  function TwiceRingArea(r: Ring): (a: nat)
    ensures a == TwiceSignedRingArea(r) || a == -TwiceSignedRingArea(r)
  {
    Abs(TwiceSignedRingArea(r))
  }

  lemma TermAntisymmetric(a: Point, b: Point, o: Point)
    ensures Term(b, a, o) == -Term(a, b, o)
  {
    var u := (a.x - o.x) + (b.x - o.x);
    var d := (a.y - o.y) - (b.y - o.y);
    assert (b.y - o.y) - (a.y - o.y) == -d;
    assert u * (-d) == -(u * d);
  }

  lemma MulSub(u: int, v: int, d: int)
    ensures u * d - v * d == (u - v) * d
  {
  }

  lemma MulAdd(k: int, a: int, b: int)
    ensures k * a + k * b == k * (a + b)
  {
  }

  /** Moving the offset changes a summand by a multiple of its y difference. */
  lemma TermShift(a: Point, b: Point, o: Point, o2: Point)
    ensures Term(a, b, o) - Term(a, b, o2) == (2 * (o2.x - o.x)) * (a.y - b.y)
  {
    var d := a.y - b.y;
    assert (a.y - o.y) - (b.y - o.y) == d;
    assert (a.y - o2.y) - (b.y - o2.y) == d;
    MulSub((a.x - o.x) + (b.x - o.x), (a.x - o2.x) + (b.x - o2.x), d);
  }

  /** The offset terms of a chain telescope to its end points' y difference. */
  lemma {:induction false} ChainShift(s: Ring, o: Point, o2: Point)
    requires |s| >= 1
    ensures Chain(s, o) - Chain(s, o2) == (2 * (o2.x - o.x)) * (s[0].y - s[|s| - 1].y)
    decreases |s|
  {
    if |s| >= 2 {
      ChainShift(s[1..], o, o2);
      TermShift(s[0], s[1], o, o2);
      MulAdd(2 * (o2.x - o.x), s[0].y - s[1].y, s[1].y - s[|s| - 1].y);
    }
  }

  /** The closed sum does not depend on the offset. */
  lemma ClosedSumOffset(r: Ring, o: Point, o2: Point)
    requires |r| >= 1
    ensures ClosedSum(r, o) == ClosedSum(r, o2)
  {
    ChainShift(r, o, o2);
    TermShift(r[|r| - 1], r[0], o, o2);
    MulAdd(2 * (o2.x - o.x), r[|r| - 1].y - r[0].y, r[0].y - r[|r| - 1].y);
  }

  lemma {:induction false} ChainSnoc(s: Ring, z: Point, o: Point)
    requires |s| >= 1
    ensures Chain(s + [z], o) == Chain(s, o) + Term(s[|s| - 1], z, o)
    decreases |s|
  {
    var t := s + [z];
    if |s| >= 2 {
      assert t[1..] == s[1..] + [z];
      ChainSnoc(s[1..], z, o);
    }
  }

  /** Walking the chain backwards negates its sum. */
  lemma {:induction false} ChainReverse(s: Ring, o: Point)
    ensures Chain(Reverse(s), o) == -Chain(s, o)
    decreases |s|
  {
    if |s| >= 2 {
      var init := s[..|s| - 1];
      var z := s[|s| - 1];
      assert s == init + [z];
      var ri := Reverse(init);
      assert Reverse(s) == [z] + ri;
      assert ([z] + ri)[1..] == ri;
      ChainReverse(init, o);
      ChainSnoc(init, z, o);
      TermAntisymmetric(init[|init| - 1], z, o);
    }
  }

  /** Reversing a ring negates its signed area. */
  lemma TwiceSignedReverse(r: Ring)
    ensures TwiceSignedRingArea(Reverse(r)) == -TwiceSignedRingArea(r)
  {
    if |r| >= 3 {
      var n := |r|;
      ChainReverse(r, r[n - 1]);
      TermAntisymmetric(r[n - 1], r[0], r[n - 1]);
      ClosedSumOffset(r, r[0], r[n - 1]);
    }
  }

  /** A ring with fewer than three points has no area. */
  lemma ShortRingArea(r: Ring)
    requires |r| < 3
    ensures TwiceSignedRingArea(r) == 0 && TwiceRingArea(r) == 0
  {
  }

  // ---------------------------------------------------------------------------
  // Polygon::fix

  datatype Polygon = Polygon(outer: Ring, inners: seq<Ring>)

  /** Drops the last point of a ring of more than one point when it repeats the first. */
  function DropClosing(r: Ring): (d: Ring)
    ensures d <= r
    ensures |d| == |r| - 1 || d == r
  {
    if |r| > 1 && r[|r| - 1] == r[0] then r[..|r| - 1] else r
  }

  /** Dropping a repeated closing point leaves the signed area unchanged:
      the edge it closes has length zero. */
  lemma DropClosingArea(r: Ring)
    ensures TwiceSignedRingArea(DropClosing(r)) == TwiceSignedRingArea(r)
  {
    if |r| > 1 && r[|r| - 1] == r[0] {
      var d := r[..|r| - 1];
      assert r == d + [r[0]];
      ChainSnoc(d, r[0], r[0]);
      if |d| == 2 {
        TermAntisymmetric(d[0], d[1], d[0]);
      }
    }
  }

  /** The area of a ring does not depend on its direction, nor on whether
      it repeats its first point at the end. */
  lemma RingAreaInvariant(r: Ring)
    ensures TwiceRingArea(Reverse(r)) == TwiceRingArea(r)
    ensures TwiceRingArea(DropClosing(r)) == TwiceRingArea(r)
  {
    TwiceSignedReverse(r);
    DropClosingArea(r);
  }

  /** The outer ring as `fix` leaves it: closing point dropped, then turned
      so that its signed area is not positive. */
  function FixOuter(r: Ring): (f: Ring)
    ensures f == DropClosing(r) || f == Reverse(DropClosing(r))
  {
    var d := DropClosing(r);
    if TwiceSignedRingArea(d) > 0 then Reverse(d) else d
  }

  /** An inner ring as `fix` leaves it: turned so that its signed area is not negative. */
  function FixInner(r: Ring): (f: Ring)
    ensures f == DropClosing(r) || f == Reverse(DropClosing(r))
  {
    var d := DropClosing(r);
    if TwiceSignedRingArea(d) < 0 then Reverse(d) else d
  }

  /** `fix` keeps the outer ring's area and makes its signed area -|area|. */
  lemma FixOuterOriented(r: Ring)
    ensures TwiceSignedRingArea(FixOuter(r)) == -(TwiceRingArea(r) as int)
  {
    DropClosingArea(r);
    TwiceSignedReverse(DropClosing(r));
  }

  /** `fix` keeps an inner ring's area and makes its signed area +|area|. */
  lemma FixInnerOriented(r: Ring)
    ensures TwiceSignedRingArea(FixInner(r)) == TwiceRingArea(r)
  {
    DropClosingArea(r);
    TwiceSignedReverse(DropClosing(r));
  }

  /** A ring fixed by `fix` loses exactly one point when it had more than
      one and ended at its start, and otherwise keeps all of them, in the
      same or the reversed order. */
  lemma FixRingShape(r: Ring)
    ensures var n := if |r| > 1 && r[|r| - 1] == r[0] then |r| - 1 else |r|;
      |FixOuter(r)| == n && |FixInner(r)| == n
    ensures var d := if |r| > 1 && r[|r| - 1] == r[0] then r[..|r| - 1] else r;
      (FixOuter(r) == d || FixOuter(r) == Reverse(d)) && (FixInner(r) == d || FixInner(r) == Reverse(d))
  {
  }

  /** `Polygon::fix`. */
  function Fix(p: Polygon): (q: Polygon)
    ensures |q.inners| == |p.inners|
  {
    Polygon(FixOuter(p.outer), seq(|p.inners|, i requires 0 <= i < |p.inners| => FixInner(p.inners[i])))
  }

  /** After `fix` the outer ring is counter-clockwise (signed area <= 0) and
      every inner ring clockwise (signed area >= 0), each keeping its area. */
  lemma FixOrients(p: Polygon)
    ensures TwiceSignedRingArea(Fix(p).outer) <= 0
    ensures TwiceRingArea(Fix(p).outer) == TwiceRingArea(p.outer)
    ensures forall i :: 0 <= i < |p.inners| ==>
      TwiceSignedRingArea(Fix(p).inners[i]) >= 0 && TwiceRingArea(Fix(p).inners[i]) == TwiceRingArea(p.inners[i])
  {
    FixOuterOriented(p.outer);
    forall i | 0 <= i < |p.inners|
      ensures TwiceSignedRingArea(Fix(p).inners[i]) >= 0 && TwiceRingArea(Fix(p).inners[i]) == TwiceRingArea(p.inners[i])
    {
      FixInnerOriented(p.inners[i]);
    }
  }

  /** `Polygon(outer, inners)`: the rings, fixed. */
  function MakePolygon(outer: Ring, inners: seq<Ring>): Polygon
  {
    Fix(Polygon(outer, inners))
  }

  // ---------------------------------------------------------------------------
  // Areas

  function InnerAreas(rs: seq<Ring>): (a: nat)
  {
    if rs == [] then 0 else InnerAreas(rs[..|rs| - 1]) + TwiceRingArea(rs[|rs| - 1])
  }

  function InnerSignedAreas(rs: seq<Ring>): int
  {
    if rs == [] then 0 else InnerSignedAreas(rs[..|rs| - 1]) + TwiceSignedRingArea(rs[|rs| - 1])
  }

  /** Twice `area(poly)`: the outer ring's area minus every inner ring's. */
  function TwiceArea(p: Polygon): int
  {
    TwiceRingArea(p.outer) - InnerAreas(p.inners)
  }

  /** Twice `signedArea(poly)`: the sum of all rings' signed areas. */
  function TwiceSignedArea(p: Polygon): int
  {
    TwiceSignedRingArea(p.outer) + InnerSignedAreas(p.inners)
  }

  function TwiceAreaMulti(ps: seq<Polygon>): int
  {
    if ps == [] then 0 else TwiceAreaMulti(ps[..|ps| - 1]) + TwiceArea(ps[|ps| - 1])
  }

  function TwiceSignedAreaMulti(ps: seq<Polygon>): int
  {
    if ps == [] then 0 else TwiceSignedAreaMulti(ps[..|ps| - 1]) + TwiceSignedArea(ps[|ps| - 1])
  }

  /** With every inner ring clockwise, the unsigned and signed inner sums agree. */
  lemma {:induction false} InnerAreasClockwise(rs: seq<Ring>)
    requires forall i :: 0 <= i < |rs| ==> TwiceSignedRingArea(rs[i]) >= 0
    ensures InnerAreas(rs) == InnerSignedAreas(rs)
    decreases |rs|
  {
    if rs != [] {
      InnerAreasClockwise(rs[..|rs| - 1]);
    }
  }

  /** For a fixed polygon, `area` is the negated `signedArea`: the outer ring
      contributes -|area| and each hole +|area|. */
  lemma FixedAreaIsSigned(p: Polygon)
    ensures TwiceArea(Fix(p)) == -TwiceSignedArea(Fix(p))
  {
    FixOrients(p);
    InnerAreasClockwise(Fix(p).inners);
  }

  /** The same over a multipolygon of fixed polygons. */
  lemma {:induction false} FixedMultiAreaIsSigned(ps: seq<Polygon>)
    requires forall i :: 0 <= i < |ps| ==> ps[i] == Fix(ps[i])
    ensures TwiceAreaMulti(ps) == -TwiceSignedAreaMulti(ps)
    decreases |ps|
  {
    if ps != [] {
      FixedMultiAreaIsSigned(ps[..|ps| - 1]);
      FixedAreaIsSigned(ps[|ps| - 1]);
    }
  }

  // ---------------------------------------------------------------------------
  // Boxes

  /** An axis-parallel box by its lower-left and upper-right corners. */
  datatype Box = Box(lowerLeft: Point, upperRight: Point)

  /** `Polygon(Box)`: the four corners from the lower left, clockwise, then fixed. */
  function BoxPolygon(b: Box): Polygon
  {
    var ll, ur := b.lowerLeft, b.upperRight;
    MakePolygon([ll, Point(ll.x, ur.y), ur, Point(ur.x, ll.y)], [])
  }

  /** A proper box's polygon is its corners in the opposite order, with signed
      area minus twice its width times its height. */
  lemma BoxPolygonFacts(b: Box)
    requires b.lowerLeft.x < b.upperRight.x && b.lowerLeft.y < b.upperRight.y
    ensures var ll, ur := b.lowerLeft, b.upperRight;
      && BoxPolygon(b).outer == [Point(ur.x, ll.y), ur, Point(ll.x, ur.y), ll]
      && BoxPolygon(b).inners == []
      && TwiceSignedRingArea(BoxPolygon(b).outer) == -2 * ((ur.x - ll.x) * (ur.y - ll.y))
  {
    var ll, ur := b.lowerLeft, b.upperRight;
    var r := [ll, Point(ll.x, ur.y), ur, Point(ur.x, ll.y)];
    assert DropClosing(r) == r;
    var w, h := ur.x - ll.x, ur.y - ll.y;
    assert Chain(r[3..], ll) == 0;
    assert Chain(r[2..], ll) == (2 * w) * h + Chain(r[3..], ll);
    assert Chain(r[1..], ll) == 0 + Chain(r[2..], ll);
    assert Chain(r, ll) == 0 + Chain(r[1..], ll);
    assert TwiceSignedRingArea(r) == 0 + Chain(r, ll);
    assert w * h > 0;
    TwiceSignedReverse(r);
  }

  /** The bounding box of a nonempty ring: `extendBox` over its points. */
  function BoxOf(r: Ring): (b: Box)
    requires |r| >= 1
    ensures forall i :: 0 <= i < |r| ==>
      b.lowerLeft.x <= r[i].x <= b.upperRight.x && b.lowerLeft.y <= r[i].y <= b.upperRight.y
    ensures exists i :: 0 <= i < |r| && r[i].x == b.lowerLeft.x
    ensures exists i :: 0 <= i < |r| && r[i].x == b.upperRight.x
  {
    if |r| == 1 then Box(r[0], r[0])
    else
      var b := BoxOf(r[..|r| - 1]);
      var p := r[|r| - 1];
      assert forall i :: 0 <= i < |r| - 1 ==> r[..|r| - 1][i] == r[i];
      Box(Point(Min(b.lowerLeft.x, p.x), Min(b.lowerLeft.y, p.y)),
          Point(Max(b.upperRight.x, p.x), Max(b.upperRight.y, p.y)))
  }

  function Min(a: int, b: int): int { if a <= b then a else b }

  function Max(a: int, b: int): int { if a >= b then a else b }

  function Width(b: Box): int
  {
    b.upperRight.x - b.lowerLeft.x
  }

  // ---------------------------------------------------------------------------
  // XSortedPolygon(Polygon)

  /** An entry of `_boxIdx`: the x of an inner box's left side, and the
      inner ring's index. */
  datatype BoxIdx = BoxIdx(x: int, idx: nat)

  /** `std::pair` order on `_boxIdx` entries. */
  predicate PairLess(a: BoxIdx, b: BoxIdx)
  {
    a.x < b.x || (a.x == b.x && a.idx < b.idx)
  }

  /** The inner-ring bookkeeping of an `XSortedPolygon`. The outer ring and
      each inner ring are kept as oriented rings; `innerAreas` holds twice
      each inner ring's area. */
  datatype XSortedPolygon = XSortedPolygon(
    outer: Ring,
    inners: seq<Ring>,
    innerAreas: seq<int>,
    innerBoxes: seq<Box>,
    boxIdx: seq<BoxIdx>,
    innerMaxSegLen: int)

  /** The loop over the raw inner rings, before `_boxIdx` is sorted. */
  function CollectInners(raw: seq<Ring>, outer: Ring): (x: XSortedPolygon)
    ensures x.outer == outer
    ensures |x.inners| == |x.innerAreas| == |x.innerBoxes| == |x.boxIdx|
    ensures forall k :: 0 <= k < |x.boxIdx| ==> x.boxIdx[k].idx == k
  {
    if raw == [] then XSortedPolygon(outer, [], [], [], [], 0)
    else
      var x := CollectInners(raw[..|raw| - 1], outer);
      var r := raw[|raw| - 1];
      if |r| < 2 then x
      else
        var inner := if TwiceSignedRingArea(r) < 0 then Reverse(r) else r;
        var box := BoxOf(inner);
        XSortedPolygon(outer, x.inners + [inner], x.innerAreas + [TwiceRingArea(inner)],
          x.innerBoxes + [box], x.boxIdx + [BoxIdx(box.lowerLeft.x, |x.innerAreas|)],
          if Width(box) > x.innerMaxSegLen then Width(box) else x.innerMaxSegLen)
  }

  /** The rank sorting `_boxIdx` by pair order, for indices below n. */
  function PairRank(n: nat): BoxIdx -> int
  {
    (e: BoxIdx) => e.x * n + e.idx
  }

  /** `XSortedPolygon(const Polygon&)`. */
  function MakeXSortedPolygon(p: Polygon): (x: XSortedPolygon)
  {
    var outer := if TwiceSignedRingArea(p.outer) > 0 then Reverse(p.outer) else p.outer;
    var c := CollectInners(p.inners, outer);
    c.(boxIdx := SortBy(c.boxIdx, PairRank(|c.boxIdx|)))
  }

  /** Inner rings of fewer than 2 points are skipped; each kept ring is
      clockwise, with its area and bounding box at the same index. */
  lemma {:induction false} CollectInnersRings(raw: seq<Ring>, outer: Ring)
    ensures var x := CollectInners(raw, outer);
      && |x.inners| <= |raw|
      && (forall k :: 0 <= k < |x.inners| ==> KeptRing(x, k))
    decreases |raw|
  {
    if raw != [] {
      var init := raw[..|raw| - 1];
      CollectInnersRings(init, outer);
      var r := raw[|raw| - 1];
      if |r| >= 2 {
        if TwiceSignedRingArea(r) < 0 {
          TwiceSignedReverse(r);
        }
        var x0 := CollectInners(init, outer);
        var x := CollectInners(raw, outer);
        forall k | 0 <= k < |x.inners|
          ensures KeptRing(x, k)
        {
          if k < |x0.inners| {
            assert KeptRing(x0, k);
          }
        }
      }
    }
  }

  /** What the loop records for the k-th kept inner ring. */
  predicate KeptRing(x: XSortedPolygon, k: nat)
    requires k < |x.inners| == |x.innerAreas| == |x.innerBoxes| == |x.boxIdx|
  {
    && |x.inners[k]| >= 2
    && TwiceSignedRingArea(x.inners[k]) >= 0
    && x.innerAreas[k] == TwiceRingArea(x.inners[k])
    && x.innerBoxes[k] == BoxOf(x.inners[k])
    && x.boxIdx[k].x == x.innerBoxes[k].lowerLeft.x
  }

  /** One round of the loop, seen from the boxes and `_innerMaxSegLen`. */
  lemma CollectStep(raw: seq<Ring>, outer: Ring)
    requires raw != []
    ensures var x0 := CollectInners(raw[..|raw| - 1], outer);
      var x := CollectInners(raw, outer);
      var r := raw[|raw| - 1];
      if |r| < 2 then x == x0
      else
        && |x.innerBoxes| == |x0.innerBoxes| + 1
        && var b := x.innerBoxes[|x0.innerBoxes|];
        && x.innerBoxes == x0.innerBoxes + [b]
        && x.innerMaxSegLen == (if Width(b) > x0.innerMaxSegLen then Width(b) else x0.innerMaxSegLen)
  {
  }

  /** `_innerMaxSegLen` bounds every inner box's width and is 0 or one of them. */
  lemma {:induction false} CollectInnersMaxSegLen(raw: seq<Ring>, outer: Ring)
    ensures var x := CollectInners(raw, outer);
      MaxWidth(x.innerBoxes, x.innerMaxSegLen)
    decreases |raw|
  {
    if raw != [] {
      var init := raw[..|raw| - 1];
      CollectInnersMaxSegLen(init, outer);
      CollectStep(raw, outer);
      var x0 := CollectInners(init, outer);
      var x := CollectInners(raw, outer);
      if |raw[|raw| - 1]| >= 2 {
        MaxWidthPush(x0.innerBoxes, x0.innerMaxSegLen, x.innerBoxes[|x0.innerBoxes|]);
      }
    }
  }

  /** m bounds every width in bs and is 0 or one of them. */
  predicate MaxWidth(bs: seq<Box>, m: int)
  {
    && (forall k :: 0 <= k < |bs| ==> Width(bs[k]) <= m)
    && (m == 0 || exists k :: 0 <= k < |bs| && Width(bs[k]) == m)
  }

  lemma MaxWidthPush(bs: seq<Box>, m: int, b: Box)
    requires MaxWidth(bs, m)
    ensures MaxWidth(bs + [b], if Width(b) > m then Width(b) else m)
  {
    var bs2 := bs + [b];
    if Width(b) > m {
      assert bs2[|bs|] == b;
    } else if m != 0 {
      var k :| 0 <= k < |bs| && Width(bs[k]) == m;
      assert bs2[k] == bs[k];
    }
  }

  /** The loop keeps one ring per raw inner ring of at least 2 points. */
  lemma {:induction false} CollectInnersCount(raw: seq<Ring>, outer: Ring)
    ensures |CollectInners(raw, outer).inners| == |set i | 0 <= i < |raw| && |raw[i]| >= 2|
    decreases |raw|
  {
    if raw != [] {
      var init := raw[..|raw| - 1];
      CollectInnersCount(init, outer);
      var s := set i | 0 <= i < |raw| && |raw[i]| >= 2;
      var s0 := set i | 0 <= i < |init| && |init[i]| >= 2;
      var last := |raw| - 1;
      if |raw[last]| >= 2 {
        assert s == s0 + {last};
      } else {
        assert s == s0;
      }
    }
  }

  /** Rank order implies pair order when both indices are below n. */
  lemma PairRankOrder(a: BoxIdx, b: BoxIdx, n: nat)
    requires a.idx < n && b.idx < n
    requires PairRank(n)(a) <= PairRank(n)(b)
    ensures a == b || PairLess(a, b)
  {
    if a.x > b.x {
      RankGap(a.x, b.x, n, a.idx, b.idx);
      assert false;
    }
  }

  lemma RankGap(u: int, v: int, n: int, i: int, j: int)
    requires u > v && 0 <= i && 0 <= j < n
    ensures u * n + i > v * n + j
  {
    assert (u - v - 1) * n >= 0;
    assert u * n == (u - v - 1) * n + v * n + n;
  }

  /** `_boxIdx` ends up in pair order, a permutation of the pushed entries,
      and the other vectors keep their lengths. */
  lemma XSortedPolygonFacts(p: Polygon)
    ensures var x := MakeXSortedPolygon(p);
      var c := CollectInners(p.inners, x.outer);
      && TwiceSignedRingArea(x.outer) <= 0
      && |x.inners| == |x.innerAreas| == |x.innerBoxes| == |x.boxIdx|
      && multiset(x.boxIdx) == multiset(c.boxIdx)
      && forall i, j :: 0 <= i < j < |x.boxIdx| ==> !PairLess(x.boxIdx[j], x.boxIdx[i])
  {
    TwiceSignedReverse(p.outer);
    var x := MakeXSortedPolygon(p);
    var c := CollectInners(p.inners, x.outer);
    var n := |c.boxIdx|;
    forall k | 0 <= k < n
      ensures x.boxIdx[k].idx < n
    {
      assert x.boxIdx[k] in multiset(c.boxIdx);
    }
    forall i, j | 0 <= i < j < n
      ensures !PairLess(x.boxIdx[j], x.boxIdx[i])
    {
      PairRankOrder(x.boxIdx[i], x.boxIdx[j], n);
    }
  }

  /** `std::lower_bound` over `_boxIdx` for the pair (v, 0): the first entry
      whose x is at least v, found by binary search. */
  method LowerBound(s: seq<BoxIdx>, v: int) returns (i: nat)
    requires forall a, b :: 0 <= a < b < |s| ==> s[a].x <= s[b].x
    ensures i <= |s|
    ensures forall k :: 0 <= k < i ==> s[k].x < v
    ensures forall k :: i <= k < |s| ==> s[k].x >= v
  {
    var lo, hi := 0, |s|;
    while lo < hi
      invariant 0 <= lo <= hi <= |s|
      invariant forall k :: 0 <= k < lo ==> s[k].x < v
      invariant forall k :: hi <= k < |s| ==> s[k].x >= v
      decreases hi - lo
    {
      var mid := (lo + hi) / 2;
      if s[mid].x < v {
        lo := mid + 1;
      } else {
        hi := mid;
      }
    }
    i := lo;
  }

  /** The largest `T`; `getFirstInner` searches only below it. */
  const TMax: int := 0x7fff_ffff

  /** `getFirstInner(const Point&)`: the index in `_boxIdx` from which inner
      rings can reach p, given that no inner box is wider than
      `_innerMaxSegLen`; 0 when there are no inners. */
  method GetFirstInner(x: XSortedPolygon, p: Point) returns (i: nat)
    requires forall a, b :: 0 <= a < b < |x.boxIdx| ==> x.boxIdx[a].x <= x.boxIdx[b].x
    ensures |x.inners| == 0 ==> i == 0
    ensures i <= |x.boxIdx| || |x.inners| == 0
    ensures |x.inners| != 0 && x.innerMaxSegLen < TMax ==>
      (forall k :: 0 <= k < i ==> x.boxIdx[k].x < p.x - x.innerMaxSegLen) &&
      (forall k :: i <= k < |x.boxIdx| ==> x.boxIdx[k].x >= p.x - x.innerMaxSegLen)
    ensures |x.inners| != 0 && x.innerMaxSegLen >= TMax ==> i == 0
  {
    if |x.inners| == 0 {
      return 0;
    }
    i := 0;
    if x.innerMaxSegLen < TMax {
      i := LowerBound(x.boxIdx, p.x - x.innerMaxSegLen);
    }
  }

  /** The sorted `_boxIdx` of a built polygon meets `GetFirstInner`'s requirement. */
  lemma BoxIdxSortedByX(p: Polygon)
    ensures var s := MakeXSortedPolygon(p).boxIdx;
      forall a, b :: 0 <= a < b < |s| ==> s[a].x <= s[b].x
  {
    XSortedPolygonFacts(p);
  }
}
