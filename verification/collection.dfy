/** `AnyGeometry` of src/util/geo/Collection.h: a record holding one slot per
    geometry kind plus a type tag saying which slot is meaningful, and its
    equality, which looks only at the tagged slot. */
module Collections {
  import opened Points
  import opened Polygons

  type Line = seq<Point>

  const PointTag: nat := 0
  const LineTag: nat := 1
  const PolygonTag: nat := 2
  const MultiLineTag: nat := 3
  const MultiPolygonTag: nat := 4
  const CollectionTag: nat := 5
  const MultiPointTag: nat := 6

  /** Every slot of the source class; the slots a constructor does not set
      keep their default (empty) values. */
  datatype AnyGeometry = AnyGeometry(
    point: Point,
    line: Line,
    polygon: Polygon,
    multiLine: seq<Line>,
    multiPolygon: seq<Polygon>,
    collection: seq<AnyGeometry>,
    multiPoint: seq<Point>,
    tag: nat)

  const EmptyPolygon: Polygon := Polygon([], [])

  const Blank: AnyGeometry := AnyGeometry(Origin, [], EmptyPolygon, [], [], [], [], 0)

  function FromPoint(p: Point): (g: AnyGeometry)
    ensures g.tag == PointTag && g.point == p
  {
    Blank.(point := p, tag := PointTag)
  }

  function FromLine(l: Line): (g: AnyGeometry)
    ensures g.tag == LineTag && g.line == l
  {
    Blank.(line := l, tag := LineTag)
  }

  function FromPolygon(p: Polygon): (g: AnyGeometry)
    ensures g.tag == PolygonTag && g.polygon == p
  {
    Blank.(polygon := p, tag := PolygonTag)
  }

  function FromMultiLine(ml: seq<Line>): (g: AnyGeometry)
    ensures g.tag == MultiLineTag && g.multiLine == ml
  {
    Blank.(multiLine := ml, tag := MultiLineTag)
  }

  function FromMultiPolygon(mp: seq<Polygon>): (g: AnyGeometry)
    ensures g.tag == MultiPolygonTag && g.multiPolygon == mp
  {
    Blank.(multiPolygon := mp, tag := MultiPolygonTag)
  }

  function FromCollection(c: seq<AnyGeometry>): (g: AnyGeometry)
    ensures g.tag == CollectionTag && g.collection == c
  {
    Blank.(collection := c, tag := CollectionTag)
  }

  function FromMultiPoint(mp: seq<Point>): (g: AnyGeometry)
    ensures g.tag == MultiPointTag && g.multiPoint == mp
  {
    Blank.(multiPoint := mp, tag := MultiPointTag)
  }

  /** `operator==`: equal tags, then the tagged slot compared; a collection
      compares element by element with this same equality. */
  predicate Equal(a: AnyGeometry, b: AnyGeometry)
    decreases a
  {
    if a.tag != b.tag then false
    else if a.tag == PointTag then a.point == b.point
    else if a.tag == LineTag then a.line == b.line
    else if a.tag == PolygonTag then a.polygon == b.polygon
    else if a.tag == MultiLineTag then a.multiLine == b.multiLine
    else if a.tag == MultiPolygonTag then a.multiPolygon == b.multiPolygon
    else if a.tag == CollectionTag then
      |a.collection| == |b.collection| &&
      forall i :: 0 <= i < |a.collection| ==> Equal(a.collection[i], b.collection[i])
    else if a.tag == MultiPointTag then a.multiPoint == b.multiPoint
    else false
  }

  /** A geometry built by the constructors: a known tag, and the same for
      every member of a collection. */
  predicate Valid(a: AnyGeometry)
    decreases a
  {
    a.tag <= MultiPointTag &&
    (a.tag == CollectionTag ==> forall i :: 0 <= i < |a.collection| ==> Valid(a.collection[i]))
  }

  /** The tagged union the class stands for. */
  datatype Geometry =
    | GPoint(p: Point)
    | GLine(l: Line)
    | GPolygon(poly: Polygon)
    | GMultiLine(ml: seq<Line>)
    | GMultiPolygon(mp: seq<Polygon>)
    | GCollection(c: seq<Geometry>)
    | GMultiPoint(pts: seq<Point>)

  /** What a valid geometry holds: its tagged slot. */
  function View(a: AnyGeometry): Geometry
    requires Valid(a)
    decreases a
  {
    if a.tag == PointTag then GPoint(a.point)
    else if a.tag == LineTag then GLine(a.line)
    else if a.tag == PolygonTag then GPolygon(a.polygon)
    else if a.tag == MultiLineTag then GMultiLine(a.multiLine)
    else if a.tag == MultiPolygonTag then GMultiPolygon(a.multiPolygon)
    else if a.tag == CollectionTag then
      GCollection(seq(|a.collection|, i requires 0 <= i < |a.collection| => View(a.collection[i])))
    else GMultiPoint(a.multiPoint)
  }

  /** Each constructor sets a distinct tag from 0 to 6, and is seen as the
      matching kind of geometry. */
  lemma ConstructorTags(p: Point, l: Line, poly: Polygon, ml: seq<Line>, mp: seq<Polygon>, c: seq<AnyGeometry>, pts: seq<Point>)
    requires forall i :: 0 <= i < |c| ==> Valid(c[i])
    ensures Valid(FromPoint(p)) && View(FromPoint(p)) == GPoint(p)
    ensures Valid(FromLine(l)) && View(FromLine(l)) == GLine(l)
    ensures Valid(FromPolygon(poly)) && View(FromPolygon(poly)) == GPolygon(poly)
    ensures Valid(FromMultiLine(ml)) && View(FromMultiLine(ml)) == GMultiLine(ml)
    ensures Valid(FromMultiPolygon(mp)) && View(FromMultiPolygon(mp)) == GMultiPolygon(mp)
    ensures Valid(FromCollection(c)) && View(FromCollection(c)).GCollection?
    ensures |View(FromCollection(c)).c| == |c|
    ensures forall i :: 0 <= i < |c| ==> View(FromCollection(c)).c[i] == View(c[i])
    ensures Valid(FromMultiPoint(pts)) && View(FromMultiPoint(pts)) == GMultiPoint(pts)
  {
  }

  /** Geometries with different tags are never equal. */
  lemma DifferentTagsUnequal(a: AnyGeometry, b: AnyGeometry)
    requires a.tag != b.tag
    ensures !Equal(a, b)
  {
  }

  /** Equality of valid geometries is equality of what they hold: the
      slots other than the tagged one never matter. */
  lemma {:induction false} EqualIsView(a: AnyGeometry, b: AnyGeometry)
    requires Valid(a) && Valid(b)
    ensures Equal(a, b) <==> View(a) == View(b)
    decreases a
  {
    if a.tag == b.tag && a.tag == CollectionTag {
      var va, vb := View(a).c, View(b).c;
      if |a.collection| == |b.collection| {
        forall i | 0 <= i < |a.collection|
          ensures Equal(a.collection[i], b.collection[i]) <==> va[i] == vb[i]
        {
          EqualIsView(a.collection[i], b.collection[i]);
        }
        if va == vb {
          assert forall i :: 0 <= i < |a.collection| ==> va[i] == vb[i];
        }
      } else {
        assert |va| != |vb|;
      }
    }
  }

  /** Equality is reflexive on valid geometries. */
  lemma EqualReflexive(a: AnyGeometry)
    requires Valid(a)
    ensures Equal(a, a)
  {
    EqualIsView(a, a);
  }

  /** Equality is symmetric on valid geometries. */
  lemma EqualSymmetric(a: AnyGeometry, b: AnyGeometry)
    requires Valid(a) && Valid(b)
    ensures Equal(a, b) == Equal(b, a)
  {
    EqualIsView(a, b);
    EqualIsView(b, a);
  }
}
