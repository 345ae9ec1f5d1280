/** Global bounding box of a set of outlines and the rectilinear (horizontal scan-line) infill
    generator. The final clip against the outlines is the kernel's. */
module Infill {
  import opened Geometry
  import opened Steps

  /** A bound as the source holds it: a float that starts at plus or minus infinity. */
  datatype Ext = NegInf | Fin(v: real) | PosInf

  /** `min(a, v)` on a bound. */
  function MinExt(a: Ext, v: real): Ext {
    match a
    case NegInf => NegInf
    case Fin(u) => Fin(if v < u then v else u)
    case PosInf => Fin(v)
  }

  /** `max(a, v)` on a bound. */
  function MaxExt(a: Ext, v: real): Ext {
    match a
    case NegInf => Fin(v)
    case Fin(u) => Fin(if v > u then v else u)
    case PosInf => PosInf
  }

  /** `(min_x, min_y, max_x, max_y)`. */
  datatype Bounds = Bounds(minX: Ext, minY: Ext, maxX: Ext, maxY: Ext) {
    predicate Finite() {
      minX.Fin? && minY.Fin? && maxX.Fin? && maxY.Fin?
    }

    /** The point lies in the closed box. */
    predicate Holds(p: Point)
      requires Finite()
    {
      minX.v <= p.x <= maxX.v && minY.v <= p.y <= maxY.v
    }
  }

  /** The bounds before any point is seen. */
  const NoBounds := Bounds(PosInf, PosInf, NegInf, NegInf)

  function Include(b: Bounds, p: Point): Bounds {
    Bounds(MinExt(b.minX, p.x), MinExt(b.minY, p.y), MaxExt(b.maxX, p.x), MaxExt(b.maxY, p.y))
  }

  /** The bounds after folding the points in, left to right. */
  function IncludeAll(b: Bounds, ps: seq<Point>): Bounds
    decreases |ps|
  {
    if |ps| == 0 then b else IncludeAll(Include(b, ps[0]), ps[1..])
  }

  /** Every point the scan visits: the points of each outline, outline by outline. */
  function OutlinePoints(outlines: seq<Polygon>): seq<Point> {
    Concat(Boundaries(outlines))
  }

  /** `get_global_bounding_box`. */
  function GlobalBoundingBox(outlines: seq<Polygon>): Bounds {
    BoundsOf(OutlinePoints(outlines))
  }

  /** The bound `e` was either already `before` or is one of the points' coordinates. */
  predicate AttainedOrKept(e: Ext, before: Ext, coords: seq<real>) {
    e == before || (e.Fin? && exists i :: 0 <= i < |coords| && coords[i] == e.v)
  }

  function Xs(ps: seq<Point>): (r: seq<real>)
    ensures |r| == |ps| && forall i :: 0 <= i < |ps| ==> r[i] == ps[i].x
  {
    seq(|ps|, i requires 0 <= i < |ps| => ps[i].x)
  }

  function Ys(ps: seq<Point>): (r: seq<real>)
    ensures |r| == |ps| && forall i :: 0 <= i < |ps| ==> r[i] == ps[i].y
  {
    seq(|ps|, i requires 0 <= i < |ps| => ps[i].y)
  }

  /** Folding points into a box that is empty or finite: the result contains every point, is
      finite as soon as one point is seen, keeps enclosing the starting box, and each bound is the
      starting one or attained by some point. */
  lemma {:induction false} IncludeAllSpec(b: Bounds, ps: seq<Point>)
    requires b == NoBounds || (b.Finite() && b.minX.v <= b.maxX.v && b.minY.v <= b.maxY.v)
    ensures var r := IncludeAll(b, ps);
      && (|ps| == 0 ==> r == b)
      && (|ps| > 0 ==> r.Finite())
      && (r.Finite() ==> r.minX.v <= r.maxX.v && r.minY.v <= r.maxY.v)
      && (r.Finite() ==> forall i :: 0 <= i < |ps| ==> r.Holds(ps[i]))
      && (b.Finite() ==> r.Finite() && r.minX.v <= b.minX.v && r.minY.v <= b.minY.v
                                     && b.maxX.v <= r.maxX.v && b.maxY.v <= r.maxY.v)
      && AttainedOrKept(r.minX, b.minX, Xs(ps)) && AttainedOrKept(r.maxX, b.maxX, Xs(ps))
      && AttainedOrKept(r.minY, b.minY, Ys(ps)) && AttainedOrKept(r.maxY, b.maxY, Ys(ps))
    decreases |ps|
  {
    if |ps| > 0 {
      var b1 := Include(b, ps[0]);
      IncludeAllSpec(b1, ps[1..]);
      var r := IncludeAll(b, ps);
      assert r == IncludeAll(b1, ps[1..]);
      forall i | 0 <= i < |ps|
        ensures r.Holds(ps[i])
      {
        if i > 0 {
          assert ps[i] == ps[1..][i - 1];
        }
      }
      AttainedStep(r.minX, b1.minX, b.minX, ps, true);
      AttainedStep(r.maxX, b1.maxX, b.maxX, ps, true);
      AttainedStep(r.minY, b1.minY, b.minY, ps, false);
      AttainedStep(r.maxY, b1.maxY, b.maxY, ps, false);
    }
  }

  lemma AttainedStep(e: Ext, mid: Ext, before: Ext, ps: seq<Point>, useX: bool)
    requires |ps| > 0
    requires mid == before || (mid.Fin? && mid.v == (if useX then ps[0].x else ps[0].y))
    requires AttainedOrKept(e, mid, if useX then Xs(ps[1..]) else Ys(ps[1..]))
    ensures AttainedOrKept(e, before, if useX then Xs(ps) else Ys(ps))
  {
    var tail := if useX then Xs(ps[1..]) else Ys(ps[1..]);
    var whole := if useX then Xs(ps) else Ys(ps);
    if e != mid {
      var i :| 0 <= i < |tail| && tail[i] == e.v;
      assert whole[i + 1] == e.v;
    } else if mid != before {
      assert whole[0] == e.v;
    }
  }

  /** The bounds of a list of points, folded from (+inf, +inf, -inf, -inf). */
  function BoundsOf(ps: seq<Point>): Bounds {
    IncludeAll(NoBounds, ps)
  }

  /** Bounds of points: (+inf, +inf, -inf, -inf) when there is no point; otherwise finite,
      enclosing every point, and each of the four bounds attained by some point. */
  lemma BoundsOfSpec(ps: seq<Point>)
    ensures var b := BoundsOf(ps);
      && (|ps| == 0 <==> b == NoBounds)
      && (|ps| > 0 ==>
            && b.Finite()
            && (forall i :: 0 <= i < |ps| ==> b.Holds(ps[i]))
            && (exists i :: 0 <= i < |ps| && ps[i].x == b.minX.v)
            && (exists i :: 0 <= i < |ps| && ps[i].x == b.maxX.v)
            && (exists i :: 0 <= i < |ps| && ps[i].y == b.minY.v)
            && (exists i :: 0 <= i < |ps| && ps[i].y == b.maxY.v))
  {
    IncludeAllSpec(NoBounds, ps);
    var b := BoundsOf(ps);
    if |ps| > 0 {
      var i :| 0 <= i < |ps| && Xs(ps)[i] == b.minX.v;
      var j :| 0 <= j < |ps| && Xs(ps)[j] == b.maxX.v;
      var k :| 0 <= k < |ps| && Ys(ps)[k] == b.minY.v;
      var l :| 0 <= l < |ps| && Ys(ps)[l] == b.maxY.v;
    }
  }

  /** The order of bounds: -inf below every float, +inf above. */
  predicate Below(a: Ext, b: Ext) {
    match a
    case NegInf => !b.NegInf?
    case Fin(u) => b.PosInf? || (b.Fin? && u < b.v)
    case PosInf => false
  }

  /** `if lmin < min: min = lmin`. */
  function MinE(a: Ext, c: Ext): Ext {
    if Below(c, a) then c else a
  }

  /** `if lmax > max: max = lmax`. */
  function MaxE(a: Ext, c: Ext): Ext {
    if Below(a, c) then c else a
  }

  /** Merging two boxes componentwise, as the outline slicer merges per-layer bounds. */
  function Merge(a: Bounds, b: Bounds): Bounds {
    Bounds(MinE(a.minX, b.minX), MinE(a.minY, b.minY), MaxE(a.maxX, b.maxX), MaxE(a.maxY, b.maxY))
  }

  /** Folding in a point is merging with that point's own box. */
  lemma IncludeIsMerge(b: Bounds, p: Point)
    ensures Include(b, p) == Merge(b, Include(NoBounds, p))
  {
  }

  lemma MergeAssociative(a: Bounds, b: Bounds, c: Bounds)
    ensures Merge(Merge(a, b), c) == Merge(a, Merge(b, c))
  {
  }

  lemma MergeEmpty(a: Bounds)
    ensures Merge(a, NoBounds) == a && Merge(NoBounds, a) == a
  {
  }

  /** Folding points into a box is merging the box with the points' own bounds. */
  lemma {:induction false} IncludeAllMerge(b: Bounds, ps: seq<Point>)
    ensures IncludeAll(b, ps) == Merge(b, BoundsOf(ps))
    decreases |ps|
  {
    if |ps| == 0 {
      MergeEmpty(b);
    } else {
      var p := ps[0];
      var single := Include(NoBounds, p);
      IncludeAllMerge(Include(b, p), ps[1..]);
      IncludeAllMerge(single, ps[1..]);
      IncludeIsMerge(b, p);
      MergeAssociative(b, single, BoundsOf(ps[1..]));
    }
  }

  /** The bounds of two point lists together are the merge of their bounds. */
  lemma {:induction false} BoundsOfAppend(a: seq<Point>, b: seq<Point>)
    ensures BoundsOf(a + b) == Merge(BoundsOf(a), BoundsOf(b))
  {
    IncludeAllAppend(NoBounds, a, b);
    IncludeAllMerge(BoundsOf(a), b);
  }

  lemma {:induction false} IncludeAllAppend(b: Bounds, xs: seq<Point>, ys: seq<Point>)
    ensures IncludeAll(b, xs + ys) == IncludeAll(IncludeAll(b, xs), ys)
    decreases |xs|
  {
    if |xs| == 0 {
      assert xs + ys == ys;
    } else {
      assert (xs + ys)[1..] == xs[1..] + ys;
      IncludeAllAppend(Include(b, xs[0]), xs[1..], ys);
    }
  }

  /** The global bounding box of outlines is the bounds of their outline points. */
  lemma GlobalBoundingBoxSpec(outlines: seq<Polygon>)
    ensures var b := GlobalBoundingBox(outlines); var ps := OutlinePoints(outlines);
      && (|ps| == 0 <==> b == NoBounds)
      && (|ps| > 0 ==>
            && b.Finite()
            && (forall i :: 0 <= i < |ps| ==> b.Holds(ps[i]))
            && (exists i :: 0 <= i < |ps| && ps[i].x == b.minX.v)
            && (exists i :: 0 <= i < |ps| && ps[i].x == b.maxX.v)
            && (exists i :: 0 <= i < |ps| && ps[i].y == b.minY.v)
            && (exists i :: 0 <= i < |ps| && ps[i].y == b.maxY.v))
  {
    BoundsOfSpec(OutlinePoints(outlines));
  }

  /** No point gives no bounds; some point gives a finite, well-ordered box. */
  lemma BoundingBoxShape(outlines: seq<Polygon>)
    ensures var b := GlobalBoundingBox(outlines);
      && (|OutlinePoints(outlines)| == 0 ==> b == NoBounds)
      && (|OutlinePoints(outlines)| > 0 ==> b.Finite() && b.minX.v <= b.maxX.v && b.minY.v <= b.maxY.v)
  {
    IncludeAllSpec(NoBounds, OutlinePoints(outlines));
  }

  /** A horizontal scan line at height y across the box. */
  function ScanLine(minX: real, maxX: real, y: real): Polyline {
    [Point(minX, y), Point(maxX, y)]
  }

  /** The unclipped lines of `generate_rectilinear_infill` over a box: `y` runs from `min_y` while
      `y <= max_y`, one line from `(min_x, y)` to `(max_x, y)` per value. Over the empty box there
      is no line, since `+inf <= -inf` fails at once; then, as over a box whose `min_y` lies
      above its `max_y`, the spacing is never used. */
  function ScanLinesIn(b: Bounds, spacing: real): seq<Polyline>
    requires spacing > 0.0 || !(b.Finite() && b.minY.v <= b.maxY.v)
  {
    if b.Finite() then
      var ys := Progression(b.minY.v, spacing, b.maxY.v, false);
      seq(|ys|, i requires 0 <= i < |ys| => ScanLine(b.minX.v, b.maxX.v, ys[i]))
    else
      []
  }

  /** The scan lines of `outlines`, over their global bounding box. */
  function ScanLines(outlines: seq<Polygon>, spacing: real): seq<Polyline>
    requires spacing > 0.0 || |OutlinePoints(outlines)| == 0
  {
    BoundingBoxShape(outlines);
    ScanLinesIn(GlobalBoundingBox(outlines), spacing)
  }

  /** Over a finite box the scan lines are horizontal across the box, start at min_y, step by the
      spacing, never pass max_y, and stop just before the next step would. */
  lemma ScanLinesInSpec(b: Bounds, spacing: real)
    requires spacing > 0.0
    requires b.Finite() && b.minY.v <= b.maxY.v
    ensures var lines := ScanLinesIn(b, spacing);
      && |lines| > 0
      && (forall i :: 0 <= i < |lines| ==>
            lines[i] == ScanLine(b.minX.v, b.maxX.v, b.minY.v + (i as real) * spacing)
            && b.minY.v + (i as real) * spacing <= b.maxY.v)
      && b.minY.v + (|lines| as real) * spacing > b.maxY.v
  {
    var ys := Progression(b.minY.v, spacing, b.maxY.v, false);
    ProgressionHead(b.minY.v, spacing, b.maxY.v, false);
    var lines := ScanLinesIn(b, spacing);
    assert |lines| == |ys|;
    forall i | 0 <= i < |lines|
      ensures lines[i] == ScanLine(b.minX.v, b.maxX.v, b.minY.v + (i as real) * spacing)
      ensures b.minY.v + (i as real) * spacing <= b.maxY.v
    {
      assert lines[i] == ScanLine(b.minX.v, b.maxX.v, ys[i]);
    }
  }

  /** Outlines without a point get no scan line; otherwise the lines of their bounding box. */
  lemma ScanLinesSpec(outlines: seq<Polygon>, spacing: real)
    requires spacing > 0.0 || |OutlinePoints(outlines)| == 0
    ensures var b := GlobalBoundingBox(outlines); var lines := ScanLines(outlines, spacing);
      && (|OutlinePoints(outlines)| == 0 ==> lines == [])
      && (|OutlinePoints(outlines)| > 0 ==>
            && b.Finite()
            && |lines| > 0
            && (forall i :: 0 <= i < |lines| ==>
                  lines[i] == ScanLine(b.minX.v, b.maxX.v, b.minY.v + (i as real) * spacing)
                  && b.minY.v + (i as real) * spacing <= b.maxY.v)
            && b.minY.v + (|lines| as real) * spacing > b.maxY.v)
  {
    BoundingBoxShape(outlines);
    var b := GlobalBoundingBox(outlines);
    if |OutlinePoints(outlines)| > 0 {
      ScanLinesInSpec(b, spacing);
    }
  }

  /** `generate_rectilinear_infill`: the scan lines clipped by the kernel against the outlines. */
  function RectilinearInfill(k: Kernel, outlines: seq<Polygon>, spacing: real): seq<Polyline>
    requires spacing > 0.0 || |OutlinePoints(outlines)| == 0
  {
    k.clip(outlines, ScanLines(outlines, spacing))
  }
}
