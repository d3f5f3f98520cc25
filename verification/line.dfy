/** X-sorted sweep events of src/util/geo/Line.h: `XSortedTuple`, its flag
    byte and order, `sameOrig`/`sameLeftX`, and the event lists `XSortedLine`
    builds from a segment or a line. Coordinates are integers; the angles
    the source derives with `atan2` come from an oracle (see `Angle`). */
module Lines {
  import opened Points
  import opened Sorting

  // ---------------------------------------------------------------------------
  // Angles

  /** An angle as the tuple constructor receives it, already quantised: the
      value `(a / pi) * 32766` truncated to `int16_t`, or `AbovePi` for an
      angle greater than pi (the 2*pi that marks an open end among them),
      which the constructor stores as 32767. */
  datatype Angle = Quantised(q: int) | AbovePi

  const AngleSentinel: int := 32767

  function Raw(a: Angle): int
  {
    match a
    case Quantised(q) => q
    case AbovePi => AngleSentinel
  }

  /** The open-end marker `2 * M_PI`. */
  const OpenEnd: Angle := AbovePi

  // ---------------------------------------------------------------------------
  // XSortedTuple

  /** Bits of `vals`. */
  const OutBit: bv8 := 1
  const FirstBit: bv8 := 2
  const EmptyBit: bv8 := 4
  const RevBit: bv8 := 8
  const FirstBoundaryBit: bv8 := 16
  const SecondBoundaryBit: bv8 := 32

  datatype Tuple = Tuple(p: Point, other: Point, outAngle: int, inAngle: int, vals: bv8)

  /** `XSortedTuple(p, out)`: an empty tuple. The source leaves `other`
      default-initialised and never initialises the two `int16` angles, so
      their values are unspecified there; they are the origin and 0 here,
      and no contract reads them. */
  function EmptyTuple(p: Point, out: bool): (t: Tuple)
    ensures t.p == p
  {
    var v: bv8 := if out then OutBit else 0;
    Tuple(p, Origin, 0, 0, v + EmptyBit)
  }

  /** The full `XSortedTuple` constructor. The flags are added one by one as
      in the source; `other` is the endpoint of `seg` that is not `p`, and
      stays the origin when `p` is neither endpoint. */
  function MakeTuple(p: Point, seg: Segment, rev: bool, prevAngle: Angle, nextAngle: Angle,
                     firstIsBoundary: bool, secondIsBoundary: bool, out: bool): (t: Tuple)
    ensures t.p == p
    ensures t.outAngle == Raw(nextAngle) && t.inAngle == Raw(prevAngle)
  {
    var v0: bv8 := if out then OutBit else 0;
    var v1 := if rev then v0 + RevBit else v0;
    var v2 := if seg.first == p then v1 + FirstBit else v1;
    var other := if seg.first == p then seg.second else if seg.second == p then seg.first else Origin;
    var v3 := if firstIsBoundary then v2 + FirstBoundaryBit else v2;
    var v4 := if secondIsBoundary then v3 + SecondBoundaryBit else v3;
    Tuple(p, other, Raw(nextAngle), Raw(prevAngle), v4)
  }

  /** The six-argument constructor: neither endpoint on the boundary. */
  function MakeTupleNoBoundary(p: Point, seg: Segment, rev: bool, prevAngle: Angle, nextAngle: Angle, out: bool): (t: Tuple)
    ensures t == MakeTuple(p, seg, rev, prevAngle, nextAngle, false, false, out)
  {
    MakeTuple(p, seg, rev, prevAngle, nextAngle, false, false, out)
  }

  predicate Has(t: Tuple, bit: bv8)
  {
    t.vals & bit != 0
  }

  predicate Out(t: Tuple)
  {
    Has(t, OutBit)
  }

  predicate FirstIsBoundary(t: Tuple)
  {
    Has(t, FirstBoundaryBit)
  }

  predicate SecondIsBoundary(t: Tuple)
  {
    Has(t, SecondBoundaryBit)
  }

  const ZeroSegment: Segment := Segment(Origin, Origin)

  /** `seg()`: the segment in x order, rebuilt from `p` and `other`. */
  function Seg(t: Tuple): Segment
  {
    if Has(t, EmptyBit) then ZeroSegment
    else if Has(t, FirstBit) then Segment(t.p, t.other)
    else Segment(t.other, t.p)
  }

  /** `origSeg()`: the segment in its original direction. */
  function OrigSeg(t: Tuple): Segment
  {
    if Has(t, EmptyBit) then ZeroSegment
    else if Has(t, FirstBit) then (if Has(t, RevBit) then Segment(t.other, t.p) else Segment(t.p, t.other))
    else if Has(t, RevBit) then Segment(t.p, t.other)
    else Segment(t.other, t.p)
  }

  /** The flag byte of the full constructor, decoded bit by bit. */
  lemma FlagBits(out: bool, rev: bool, first: bool, fib: bool, sib: bool)
    ensures var v0: bv8 := if out then OutBit else 0;
      var v1 := if rev then v0 + RevBit else v0;
      var v2 := if first then v1 + FirstBit else v1;
      var v3 := if fib then v2 + FirstBoundaryBit else v2;
      var v4 := if sib then v3 + SecondBoundaryBit else v3;
      && (v4 & OutBit != 0 <==> out)
      && (v4 & RevBit != 0 <==> rev)
      && (v4 & FirstBit != 0 <==> first)
      && (v4 & FirstBoundaryBit != 0 <==> fib)
      && (v4 & SecondBoundaryBit != 0 <==> sib)
      && v4 & EmptyBit == 0
  {
  }

  /** The full constructor stores each flag in its own bit: every accessor
      returns the argument it was given, and the empty bit stays clear. */
  lemma MakeTupleFlags(p: Point, seg: Segment, rev: bool, pa: Angle, na: Angle, fib: bool, sib: bool, out: bool)
    ensures var t := MakeTuple(p, seg, rev, pa, na, fib, sib, out);
      && Out(t) == out
      && FirstIsBoundary(t) == fib
      && SecondIsBoundary(t) == sib
      && Has(t, RevBit) == rev
      && Has(t, FirstBit) == (seg.first == p)
      && !Has(t, EmptyBit)
  {
    FlagBits(out, rev, seg.first == p, fib, sib);
  }

  /** When p is an endpoint of seg, `seg()` gives seg back and `origSeg()`
      gives it back reversed exactly when `rev` was set. */
  lemma MakeTupleSegments(p: Point, seg: Segment, rev: bool, pa: Angle, na: Angle, fib: bool, sib: bool, out: bool)
    requires p == seg.first || p == seg.second
    ensures var t := MakeTuple(p, seg, rev, pa, na, fib, sib, out);
      && Seg(t) == seg
      && OrigSeg(t) == (if rev then Swap(seg) else seg)
  {
    MakeTupleFlags(p, seg, rev, pa, na, fib, sib, out);
  }

  /** An empty tuple reports the empty bit, its `out` flag, and the zero segment. */
  lemma EmptyTupleFacts(p: Point, out: bool)
    ensures var t := EmptyTuple(p, out);
      Has(t, EmptyBit) && Out(t) == out && Seg(t) == ZeroSegment && OrigSeg(t) == ZeroSegment
  {
  }

  // ---------------------------------------------------------------------------
  // Order

  /** `operator<` on tuples: by x, and at equal x an in-event before an out-event. */
  predicate Less(a: Tuple, b: Tuple)
  {
    if a.p.x < b.p.x then true
    else if a.p.x == b.p.x then !Out(a) && Out(b)
    else false
  }

  /** The integer rank that `Less` compares: twice x, plus one for an out-event. */
  function Rank(t: Tuple): int
  {
    2 * t.p.x + (if Out(t) then 1 else 0)
  }

  lemma LessIsRank(a: Tuple, b: Tuple)
    ensures Less(a, b) <==> Rank(a) < Rank(b)
  {
  }

  /** `Less` is a strict weak order: irreflexive, transitive, and
      incomparability is transitive too. */
  lemma LessStrictWeakOrder(a: Tuple, b: Tuple, c: Tuple)
    ensures !Less(a, a)
    ensures Less(a, b) && Less(b, c) ==> Less(a, c)
    ensures Less(a, b) ==> !Less(b, a)
    ensures !Less(a, b) && !Less(b, a) && !Less(b, c) && !Less(c, b) ==> !Less(a, c) && !Less(c, a)
  {
    LessIsRank(a, b);
    LessIsRank(b, a);
    LessIsRank(b, c);
    LessIsRank(c, b);
    LessIsRank(a, c);
    LessIsRank(c, a);
  }

  // ---------------------------------------------------------------------------
  // sameOrig / sameLeftX

  /** `sameOrig`: the four cases of the source, by the x order of each segment. */
  predicate SameOrig(a: Segment, b: Segment)
  {
    if a.first.x <= a.second.x && b.first.x <= b.second.x then a.first == b.first
    else if a.first.x <= a.second.x && b.first.x >= b.second.x then a.first == b.second
    else if a.first.x >= a.second.x && b.first.x <= b.second.x then a.second == b.first
    else if a.first.x >= a.second.x && b.first.x >= b.second.x then a.second == b.second
    else false
  }

  /** The endpoint a segment starts from in x order (the first one on a tie). */
  function LeftPoint(s: Segment): Point
  {
    if s.first.x <= s.second.x then s.first else s.second
  }

  /** `sameOrig` asks whether the two segments start from the same point. */
  lemma SameOrigIsLeftPoint(a: Segment, b: Segment)
    ensures SameOrig(a, b) <==> LeftPoint(a) == LeftPoint(b)
  {
  }

  /** `sameLeftX`. */
  predicate SameLeftX(a: Segment, b: Segment)
  {
    if a.first.x < a.second.x then
      (if b.first.x < b.second.x then a.first.x == b.first.x else a.first.x == b.second.x)
    else
      (if b.first.x < b.second.x then a.second.x == b.first.x else a.second.x == b.second.x)
  }

  function MinX(s: Segment): int
  {
    if s.first.x <= s.second.x then s.first.x else s.second.x
  }

  /** `sameLeftX` compares the smaller x coordinates of the two segments. */
  lemma SameLeftXIsMinX(a: Segment, b: Segment)
    ensures SameLeftX(a, b) <==> MinX(a) == MinX(b)
  {
  }

  // ---------------------------------------------------------------------------
  // XSortedLine

  datatype XSortedLine = XSortedLine(events: seq<Tuple>, first: Point, last: Point, maxSegLen: int)

  /** `XSortedLine()`: no events, `_maxSegLen` -1. */
  const EmptyLine: XSortedLine := XSortedLine([], Origin, Origin, -1)

  /** `XSortedLine(const LineSegment<T>&)`: an in-event at the left end and
      an out-event at the right end, both on the boundary with open-end angles. */
  function FromSegment(s: Segment): (l: XSortedLine)
    ensures |l.events| == 2
  {
    var evs :=
      if s.first.x < s.second.x then
        [MakeTuple(s.first, Segment(s.first, s.second), false, OpenEnd, OpenEnd, true, true, false),
         MakeTuple(s.second, Segment(s.first, s.second), false, OpenEnd, OpenEnd, true, true, true)]
      else
        [MakeTuple(s.second, Segment(s.second, s.first), true, OpenEnd, OpenEnd, true, true, false),
         MakeTuple(s.first, Segment(s.second, s.first), true, OpenEnd, OpenEnd, true, true, true)];
    XSortedLine(evs, s.first, s.second, Abs(s.first.x - s.second.x))
  }

  /** The segment gives an in-event then an out-event, left to right, each of
      which recovers the segment in its original direction; `maxSegLen` is |dx|. */
  lemma FromSegmentFacts(s: Segment)
    ensures var l := FromSegment(s);
      && !Out(l.events[0]) && Out(l.events[1])
      && l.events[0].p.x <= l.events[1].p.x
      && !Less(l.events[1], l.events[0])
      && OrigSeg(l.events[0]) == s && OrigSeg(l.events[1]) == s
      && FirstIsBoundary(l.events[0]) && SecondIsBoundary(l.events[1])
      && l.maxSegLen == Abs(s.first.x - s.second.x)
      && l.first == s.first && l.last == s.second
  {
    var l := FromSegment(s);
    if s.first.x < s.second.x {
      var seg := Segment(s.first, s.second);
      MakeTupleFlags(s.first, seg, false, OpenEnd, OpenEnd, true, true, false);
      MakeTupleFlags(s.second, seg, false, OpenEnd, OpenEnd, true, true, true);
      MakeTupleSegments(s.first, seg, false, OpenEnd, OpenEnd, true, true, false);
      MakeTupleSegments(s.second, seg, false, OpenEnd, OpenEnd, true, true, true);
    } else {
      var seg := Segment(s.second, s.first);
      MakeTupleFlags(s.second, seg, true, OpenEnd, OpenEnd, true, true, false);
      MakeTupleFlags(s.first, seg, true, OpenEnd, OpenEnd, true, true, true);
      MakeTupleSegments(s.second, seg, true, OpenEnd, OpenEnd, true, true, false);
      MakeTupleSegments(s.first, seg, true, OpenEnd, OpenEnd, true, true, true);
    }
  }

  // The constructor from a line.

  /** Steps back (cyclically) from `prev` while the point there equals the
      point at `target`, stopping at `target` itself: the inner loop that
      finds the previous distinct point. */
  function PrevDistinct(line: seq<Point>, target: nat, prev: nat): (r: nat)
    requires target < |line| && prev < |line|
    ensures r < |line|
    decreases if prev >= target then prev - target else prev + |line| - target
  {
    if line[prev] == line[target] && prev != target then
      PrevDistinct(line, target, if prev > 0 then prev - 1 else |line| - 1)
    else prev
  }

  /** The loop that finds the next distinct point, stepping forward cyclically. */
  function NextDistinct(line: seq<Point>, target: nat, next: nat): (r: nat)
    requires target < |line| && next < |line|
    ensures r < |line|
    decreases if target >= next then target - next else target + |line| - next
  {
    if line[next] == line[target] && next != target then
      NextDistinct(line, target, if next + 1 < |line| then next + 1 else 0)
    else next
  }

  /** The angle oracle standing in for `angBetween(p, q)`, already quantised. */
  type AngleOracle = (Point, Point) -> Angle

  /** The two events the loop body pushes for the step from line[i-1] to line[i]. */
  function StepEvents(line: seq<Point>, i: nat, ang: AngleOracle): (evs: seq<Tuple>)
    requires 1 <= i < |line|
    ensures |evs| == 2
  {
    var n := |line|;
    var prev := PrevDistinct(line, i - 1, if i > 1 then i - 2 else n - 1);
    var next := NextDistinct(line, i, (i + 1) % n);
    var open := line[0] != line[n - 1];
    var prevAng := if open && i == 1 then OpenEnd else ang(line[i - 1], line[prev]);
    var nextAng := if open && i == n - 1 then OpenEnd else ang(line[i], line[next]);
    var a, b := line[i - 1], line[i];
    if a.x < b.x then
      [MakeTuple(a, Segment(a, b), false, prevAng, nextAng, i == 1, i == n - 1, false),
       MakeTuple(b, Segment(a, b), false, prevAng, nextAng, i == 1, i == n - 1, true)]
    else
      [MakeTuple(b, Segment(b, a), true, prevAng, nextAng, i == 1, i == n - 1, false),
       MakeTuple(a, Segment(b, a), true, prevAng, nextAng, i == 1, i == n - 1, true)]
  }

  /** A step of zero length is skipped. */
  predicate ZeroStep(line: seq<Point>, i: nat)
    requires 1 <= i < |line|
  {
    line[i - 1] == line[i]
  }

  /** The events of steps 1..i-1 in push order, before sorting. */
  function EventsUpTo(line: seq<Point>, i: nat, ang: AngleOracle): seq<Tuple>
    requires 1 <= i <= |line|
    decreases i
  {
    if i == 1 then []
    else
      var before := EventsUpTo(line, i - 1, ang);
      if ZeroStep(line, i - 1) then before else before + StepEvents(line, i - 1, ang)
  }

  /** `_maxSegLen` after steps 1..i-1. */
  function MaxLenUpTo(line: seq<Point>, i: nat): int
    requires 1 <= i <= |line|
    decreases i
  {
    if i == 1 then -1
    else
      var m := MaxLenUpTo(line, i - 1);
      var len := Abs(line[i - 2].x - line[i - 1].x);
      if ZeroStep(line, i - 1) || len <= m then m else len
  }

  /** `XSortedLine(const Line<T>&)`. */
  function FromLine(line: seq<Point>, ang: AngleOracle): (l: XSortedLine)
  {
    if |line| < 2 then EmptyLine
    else XSortedLine(SortBy(EventsUpTo(line, |line|, ang), Rank), line[0], line[|line| - 1], MaxLenUpTo(line, |line|))
  }

  /** Number of steps of nonzero length among steps 1..i-1. */
  function NonZeroSteps(line: seq<Point>, i: nat): nat
    requires 1 <= i <= |line|
    decreases i
  {
    if i == 1 then 0 else NonZeroSteps(line, i - 1) + (if ZeroStep(line, i - 1) then 0 else 1)
  }

  lemma {:induction false} EventsCount(line: seq<Point>, i: nat, ang: AngleOracle)
    requires 1 <= i <= |line|
    ensures |EventsUpTo(line, i, ang)| == 2 * NonZeroSteps(line, i)
    decreases i
  {
    if i > 1 {
      EventsCount(line, i - 1, ang);
    }
  }

  /** `_maxSegLen` is the largest |dx| over the nonzero steps, and -1 when
      there are none. */
  lemma {:induction false} MaxLenBound(line: seq<Point>, i: nat)
    requires 1 <= i <= |line|
    ensures NonZeroSteps(line, i) == 0 <==> MaxLenUpTo(line, i) == -1
    ensures forall k :: 1 <= k < i && !ZeroStep(line, k) ==> Abs(line[k - 1].x - line[k].x) <= MaxLenUpTo(line, i)
    ensures MaxLenUpTo(line, i) == -1 ||
            exists k :: 1 <= k < i && !ZeroStep(line, k) && Abs(line[k - 1].x - line[k].x) == MaxLenUpTo(line, i)
    decreases i
  {
    if i > 1 {
      MaxLenBound(line, i - 1);
    }
  }

  /** A line of fewer than two points yields no events and `_maxSegLen` -1. */
  lemma FromShortLine(line: seq<Point>, ang: AngleOracle)
    requires |line| < 2
    ensures FromLine(line, ang) == EmptyLine
  {
  }

  /** Otherwise: two events per nonzero step, in `Less` order, and the same
      events the loop pushed; the end points are the line's ends. */
  lemma FromLineFacts(line: seq<Point>, ang: AngleOracle)
    requires |line| >= 2
    ensures var l := FromLine(line, ang);
      && |l.events| == 2 * NonZeroSteps(line, |line|)
      && (forall i, j :: 0 <= i < j < |l.events| ==> !Less(l.events[j], l.events[i]))
      && multiset(l.events) == multiset(EventsUpTo(line, |line|, ang))
      && l.first == line[0] && l.last == line[|line| - 1]
  {
    var l := FromLine(line, ang);
    EventsCount(line, |line|, ang);
    forall i, j | 0 <= i < j < |l.events|
      ensures !Less(l.events[j], l.events[i])
    {
      LessIsRank(l.events[j], l.events[i]);
    }
  }

  /** Each step's in-event lies left of (or level with) its out-event, and
      both recover the step as it runs along the line. */
  lemma StepEventsFacts(line: seq<Point>, i: nat, ang: AngleOracle)
    requires 1 <= i < |line|
    ensures var evs := StepEvents(line, i, ang);
      && !Out(evs[0]) && Out(evs[1])
      && evs[0].p.x <= evs[1].p.x
      && OrigSeg(evs[0]) == Segment(line[i - 1], line[i])
      && OrigSeg(evs[1]) == Segment(line[i - 1], line[i])
      && FirstIsBoundary(evs[0]) == (i == 1) && SecondIsBoundary(evs[0]) == (i == |line| - 1)
  {
    var n := |line|;
    var prev := PrevDistinct(line, i - 1, if i > 1 then i - 2 else n - 1);
    var next := NextDistinct(line, i, (i + 1) % n);
    var open := line[0] != line[n - 1];
    var pa := if open && i == 1 then OpenEnd else ang(line[i - 1], line[prev]);
    var na := if open && i == n - 1 then OpenEnd else ang(line[i], line[next]);
    var a, b := line[i - 1], line[i];
    if a.x < b.x {
      MakeTupleFlags(a, Segment(a, b), false, pa, na, i == 1, i == n - 1, false);
      MakeTupleFlags(b, Segment(a, b), false, pa, na, i == 1, i == n - 1, true);
      MakeTupleSegments(a, Segment(a, b), false, pa, na, i == 1, i == n - 1, false);
      MakeTupleSegments(b, Segment(a, b), false, pa, na, i == 1, i == n - 1, true);
    } else {
      MakeTupleFlags(b, Segment(b, a), true, pa, na, i == 1, i == n - 1, false);
      MakeTupleFlags(a, Segment(b, a), true, pa, na, i == 1, i == n - 1, true);
      MakeTupleSegments(b, Segment(b, a), true, pa, na, i == 1, i == n - 1, false);
      MakeTupleSegments(a, Segment(b, a), true, pa, na, i == 1, i == n - 1, true);
    }
  }
}
