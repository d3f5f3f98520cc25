/** Points and line segments over integer coordinates (Point<int>, LineSegment<int>). */
module Points {

  datatype Point = Point(x: int, y: int)

  /** The point a default-constructed Point<T> holds. */
  const Origin: Point := Point(0, 0)

  /** std::pair<Point<T>, Point<T>>. */
  datatype Segment = Segment(first: Point, second: Point)

  function Swap(s: Segment): Segment
  {
    Segment(s.second, s.first)
  }

  function Abs(n: int): nat
  {
    if n < 0 then -n else n
  }
}
