/** Points, polylines, polygons and tagged paths, plus the interface of the external
    geometry kernel (offset, clip, cross-sections), which the model only ever calls. */
module Geometry {

  datatype Point = Point(x: real, y: real)

  /** A polyline as the kernel hands it out; the slicer always reads its first and last point. */
  type Polyline = s: seq<Point> | |s| > 0 witness [Point(0.0, 0.0)]

  /** A kernel polygon, already converted: its outer loop and the loops of its holes. */
  datatype Polygon = Polygon(boundary: Polyline, holes: seq<Polyline>)

  /** A material-fraction band [lower, higher]. */
  datatype Range = Range(lower: real, higher: real)

  /** The slicer's `(lower, higher, is_extrusion, polyline)` tuple. */
  datatype Path = Path(range: Range, extrusion: bool, points: Polyline)

  /** The kernel's answer to a material query: one set of polygons per range. */
  datatype RangedPolygons = RangedPolygons(range: Range, polygons: seq<Polygon>)

  /** One entry of a layer's `ranged_walls` or `ranged_infill` list. */
  datatype RangedPaths = RangedPaths(range: Range, paths: seq<Polyline>)

  /** The external geometry kernel. Nothing is known about its results beyond their types.
      `offset` stands for both `Polygon2.Offset(list, d)` and `polygon.offset(d)` (on a one-element list). */
  datatype Kernel = Kernel(
    offset: (seq<Polygon>, real) -> seq<Polygon>,
    clip: (seq<Polygon>, seq<Polyline>) -> seq<Polyline>,
    crossSection: real -> seq<Polygon>,
    sliceMaterial: (real, seq<Range>) -> seq<RangedPolygons>)

  const TravelRange := Range(0.0, 0.0)

  function First(s: Polyline): Point {
    s[0]
  }

  function Last(s: Polyline): Point {
    s[|s| - 1]
  }

  /** Squared Euclidean distance; the slicer's `distance` is its square root, which is monotone,
      so every comparison the slicer makes on distances is the same comparison on this value. */
  function Dist2(a: Point, b: Point): (d: real)
    ensures d >= 0.0
  {
    SquareNonNegative(a.x - b.x);
    SquareNonNegative(a.y - b.y);
    (a.x - b.x) * (a.x - b.x) + (a.y - b.y) * (a.y - b.y)
  }

  lemma PositiveProduct(a: real, b: real)
    requires a > 0.0 && b > 0.0
    ensures a * b > 0.0
  {
  }

  lemma NegativeProduct(a: real, b: real)
    requires a < 0.0 && b < 0.0
    ensures a * b > 0.0
  {
  }

  lemma SquareNonNegative(r: real)
    ensures r * r >= 0.0
  {
    if r > 0.0 {
      PositiveProduct(r, r);
    } else if r < 0.0 {
      NegativeProduct(r, r);
    }
  }

  /** A two-point travel move `(0, 0, False, Polyline2([from, to]))`. */
  function Travel(from: Point, to: Point): (p: Path)
    ensures !p.extrusion && p.range == TravelRange
    ensures First(p.points) == from && Last(p.points) == to
  {
    Path(TravelRange, false, [from, to])
  }

  /** `Polyline2.reverse()`: the same points in the opposite order. */
  function Reverse(s: Polyline): (r: Polyline)
    ensures |r| == |s|
    ensures forall i :: 0 <= i < |s| ==> r[i] == s[|s| - 1 - i]
    ensures First(r) == Last(s) && Last(r) == First(s)
  {
    seq(|s|, i requires 0 <= i < |s| => s[|s| - 1 - i])
  }

  lemma ReverseReverse(s: Polyline)
    ensures Reverse(Reverse(s)) == s
  {
  }

  /** A path in the given orientation: reversed in place when `reversed` holds. */
  function Orient(p: Path, reversed: bool): (q: Path)
    ensures q.range == p.range && q.extrusion == p.extrusion
    ensures q.points == (if reversed then Reverse(p.points) else p.points)
  {
    if reversed then p.(points := Reverse(p.points)) else p
  }

  function Shift(p: Point, v: Point): Point {
    Point(p.x + v.x, p.y + v.y)
  }

  /** Distances do not change when both ends move by the same vector. */
  lemma Dist2Shift(a: Point, b: Point, v: Point)
    ensures Dist2(Shift(a, v), Shift(b, v)) == Dist2(a, b)
  {
  }

  /** `Polyline2.translate(v)`: every point shifted by v. */
  function ShiftPolyline(s: Polyline, v: Point): (r: Polyline)
    ensures |r| == |s|
    ensures forall i :: 0 <= i < |s| ==> r[i] == Point(s[i].x + v.x, s[i].y + v.y)
  {
    seq(|s|, i requires 0 <= i < |s| => Point(s[i].x + v.x, s[i].y + v.y))
  }

  function ShiftPath(p: Path, v: Point): (q: Path)
    ensures q.range == p.range && q.extrusion == p.extrusion
    ensures |q.points| == |p.points|
  {
    p.(points := ShiftPolyline(p.points, v))
  }

  /** The translation applied by `translate_paths` to a connected-path list: same paths, same
      flags and ranges, every point moved by v. */
  function ShiftPaths(ps: seq<Path>, v: Point): (r: seq<Path>)
    ensures |r| == |ps|
    ensures forall i :: 0 <= i < |ps| ==>
      r[i].range == ps[i].range && r[i].extrusion == ps[i].extrusion &&
      |r[i].points| == |ps[i].points| &&
      forall j :: 0 <= j < |ps[i].points| ==>
        r[i].points[j] == Point(ps[i].points[j].x + v.x, ps[i].points[j].y + v.y)
  {
    seq(|ps|, i requires 0 <= i < |ps| => ShiftPath(ps[i], v))
  }

  /** The last point of the last path, or `dflt` when there is no path. */
  function EndPoint(dflt: Point, ps: seq<Path>): Point {
    if |ps| == 0 then dflt else Last(ps[|ps| - 1].points)
  }

  /** The offset distance of the i-th inset: i bead widths inwards. */
  function Inset(beadWidth: real, i: int): real {
    -beadWidth * (i as real)
  }

  /** All outer and hole loops of a list of polygons, each polygon's outline first. */
  function PolygonLoops(polys: seq<Polygon>): (r: seq<Polyline>)
    ensures |polys| > 0 ==> |r| > 0 && r[0] == polys[0].boundary
  {
    if |polys| == 0 then [] else [polys[0].boundary] + polys[0].holes + PolygonLoops(polys[1..])
  }

  /** Only the outer loops of a list of polygons (`polygon.to_polyline()` for each). */
  function Boundaries(polys: seq<Polygon>): (r: seq<Polyline>)
    ensures |r| == |polys|
    ensures forall i :: 0 <= i < |polys| ==> r[i] == polys[i].boundary
  {
    seq(|polys|, i requires 0 <= i < |polys| => polys[i].boundary)
  }

  function Concat<T>(ss: seq<seq<T>>): (r: seq<T>)
  {
    if |ss| == 0 then [] else ss[0] + Concat(ss[1..])
  }
}
