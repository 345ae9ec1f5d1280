/** One layer of the outline slicer (outline_layer.py): per material range, concentric insets of
    every region until the kernel returns nothing (or a solid fill), then per-range routing that
    only travels across gaps wider than the tolerance. */
module OutlineLayer {
  import opened Geometry
  import opened Router
  import Infill

  /** The most insets tried per region. */
  const WallsToTry: nat := 100

  datatype Layer = Layer(
    z: real,
    beadWidth: real,
    outline: seq<Polygon>,
    rangedWalls: seq<RangedPaths>,
    connected: seq<Path>,
    layerNum: int,
    fillWithInfill: bool)

  /** `OutlineLayer.__init__`. */
  function NewLayer(outline: seq<Polygon>, z: real, beadWidth: real, layerNum: int, fill: bool): Layer {
    Layer(z, beadWidth, outline, [], [], layerNum, fill)
  }

  // ---------------------------------------------------------------- walls

  /** The loops of the i-th inset of a region. */
  function InsetLoops(kernel: Kernel, polygon: Polygon, beadWidth: real, i: int): seq<Polyline> {
    PolygonLoops(kernel.offset([polygon], Inset(beadWidth, i)))
  }

  /** The wall loop from inset `i` on: every loop (outer and holes) of each inset, stopping at
      the first empty inset or after 100 insets. */
  function Rings(kernel: Kernel, polygon: Polygon, beadWidth: real, i: nat): seq<Polyline>
    decreases WallsToTry - i
  {
    if i >= WallsToTry then []
    else if |kernel.offset([polygon], Inset(beadWidth, i))| == 0 then []
    else InsetLoops(kernel, polygon, beadWidth, i) + Rings(kernel, polygon, beadWidth, i + 1)
  }

  /** The loops of insets i, i + 1, ..., m - 1, in that order. */
  function InsetRun(kernel: Kernel, polygon: Polygon, beadWidth: real, i: nat, m: nat): seq<Polyline>
    requires i <= m
    decreases m - i
  {
    if i == m then [] else InsetLoops(kernel, polygon, beadWidth, i) + InsetRun(kernel, polygon, beadWidth, i + 1, m)
  }

  /** Insets i .. m - 1 are non-empty, inset m is empty unless m = 100, and the walls from inset i
      on are exactly the loops of insets i .. m - 1. */
  predicate StopsAt(kernel: Kernel, polygon: Polygon, beadWidth: real, i: nat, m: nat) {
    && i <= m <= WallsToTry
    && (forall j :: i <= j < m ==> |kernel.offset([polygon], Inset(beadWidth, j))| > 0)
    && (m < WallsToTry ==> |kernel.offset([polygon], Inset(beadWidth, m))| == 0)
    && Rings(kernel, polygon, beadWidth, i) == InsetRun(kernel, polygon, beadWidth, i, m)
  }

  /** Some m <= 100 is the number of leading non-empty insets (the m-th being empty unless
      m = 100), and the walls are exactly the loops of insets 0 .. m - 1. */
  lemma RingsSpec(kernel: Kernel, polygon: Polygon, beadWidth: real)
    ensures exists m :: StopsAt(kernel, polygon, beadWidth, 0, m)
  {
    RingsFrom(kernel, polygon, beadWidth, 0);
  }

  /** The first inset at or after i that comes back empty, or 100 when none does. */
  function FirstEmpty(kernel: Kernel, polygon: Polygon, beadWidth: real, i: nat): (m: nat)
    requires i <= WallsToTry
    ensures i <= m <= WallsToTry
    decreases WallsToTry - i
  {
    if i == WallsToTry || |kernel.offset([polygon], Inset(beadWidth, i))| == 0 then i
    else FirstEmpty(kernel, polygon, beadWidth, i + 1)
  }

  lemma {:induction false} RingsFrom(kernel: Kernel, polygon: Polygon, beadWidth: real, i: nat)
    requires i <= WallsToTry
    ensures StopsAt(kernel, polygon, beadWidth, i, FirstEmpty(kernel, polygon, beadWidth, i))
    decreases WallsToTry - i
  {
    if i < WallsToTry && |kernel.offset([polygon], Inset(beadWidth, i))| > 0 {
      RingsFrom(kernel, polygon, beadWidth, i + 1);
      var m := FirstEmpty(kernel, polygon, beadWidth, i + 1);
      assert FirstEmpty(kernel, polygon, beadWidth, i) == m;
      assert Rings(kernel, polygon, beadWidth, i)
          == InsetLoops(kernel, polygon, beadWidth, i) + Rings(kernel, polygon, beadWidth, i + 1);
      assert InsetRun(kernel, polygon, beadWidth, i, m)
          == InsetLoops(kernel, polygon, beadWidth, i) + InsetRun(kernel, polygon, beadWidth, i + 1, m);
    }
  }

  /** Solid-fill mode for one region: its outer loop, its holes, then scan lines spaced one bead
      apart inside the region shrunk by half a bead. */
  function FillPaths(kernel: Kernel, polygon: Polygon, beadWidth: real): seq<Polyline>
    requires beadWidth > 0.0
  {
    [polygon.boundary] + polygon.holes + Infill.RectilinearInfill(kernel, kernel.offset([polygon], -beadWidth / 2.0), beadWidth)
  }

  /** A region in fill mode starts with its own loops and continues with infill lines spaced
      exactly one bead apart, so neighbouring lines touch. */
  lemma FillPathsSpec(kernel: Kernel, polygon: Polygon, beadWidth: real)
    requires beadWidth > 0.0
    ensures var r := FillPaths(kernel, polygon, beadWidth); var n := 1 + |polygon.holes|;
      var inner := kernel.offset([polygon], -beadWidth / 2.0);
      var b := Infill.GlobalBoundingBox(inner); var lines := Infill.ScanLines(inner, beadWidth);
      && |r| >= n && r[0] == polygon.boundary && r[1..n] == polygon.holes
      && r[n..] == kernel.clip(inner, lines)
      && (forall i :: 0 <= i < |lines| ==>
            lines[i] == Infill.ScanLine(b.minX.v, b.maxX.v, b.minY.v + (i as real) * beadWidth))
  {
    var inner := kernel.offset([polygon], -beadWidth / 2.0);
    Infill.ScanLinesSpec(inner, beadWidth);
  }

  /** The paths of one region, by mode. */
  function RegionPaths(kernel: Kernel, polygon: Polygon, beadWidth: real, fill: bool): seq<Polyline>
    requires fill ==> beadWidth > 0.0
  {
    if fill then FillPaths(kernel, polygon, beadWidth) else Rings(kernel, polygon, beadWidth, 0)
  }

  /** The paths of every region, in order. */
  function RegionsPaths(kernel: Kernel, regions: seq<Polygon>, beadWidth: real, fill: bool): seq<Polyline>
    requires fill ==> beadWidth > 0.0
    decreases |regions|
  {
    if |regions| == 0 then []
    else RegionPaths(kernel, regions[0], beadWidth, fill) + RegionsPaths(kernel, regions[1..], beadWidth, fill)
  }

  /** The paths of one material range: each polygon shrunk by half a bead, and each resulting
      region's paths. */
  function RangePaths(kernel: Kernel, polygons: seq<Polygon>, beadWidth: real, fill: bool): seq<Polyline>
    requires fill ==> beadWidth > 0.0
    decreases |polygons|
  {
    if |polygons| == 0 then []
    else RegionsPaths(kernel, kernel.offset([polygons[0]], -beadWidth / 2.0), beadWidth, fill)
         + RangePaths(kernel, polygons[1..], beadWidth, fill)
  }

  function RangeEntries(kernel: Kernel, parts: seq<RangedPolygons>, beadWidth: real, fill: bool): (r: seq<RangedPaths>)
    requires fill ==> beadWidth > 0.0
    ensures |r| == |parts|
    ensures forall i :: 0 <= i < |parts| ==> r[i].range == parts[i].range
    decreases |parts|
  {
    if |parts| == 0 then []
    else [RangedPaths(parts[0].range, RangePaths(kernel, parts[0].polygons, beadWidth, fill))]
         + RangeEntries(kernel, parts[1..], beadWidth, fill)
  }

  /** `list.reverse()`. */
  function Reversed<T>(s: seq<T>): (r: seq<T>)
    ensures |r| == |s| && forall i :: 0 <= i < |s| ==> r[i] == s[|s| - 1 - i]
  {
    seq(|s|, i requires 0 <= i < |s| => s[|s| - 1 - i])
  }

  /** Reversing twice restores the list. */
  lemma ReversedTwice<T>(s: seq<T>)
    ensures Reversed(Reversed(s)) == s
  {
  }

  /** Reversing keeps every element with its multiplicity: it only reorders the ranges. */
  lemma {:induction false} ReversedPermutes<T>(s: seq<T>)
    ensures multiset(Reversed(s)) == multiset(s)
    decreases |s|
  {
    if |s| > 0 {
      ReversedPermutes(s[1..]);
      assert Reversed(s) == Reversed(s[1..]) + [s[0]];
      assert s == [s[0]] + s[1..];
    }
  }

  /** `generate_walls(desired_ranges, slicer, reverse)`: one entry per range the kernel reports,
      in the kernel's order or reversed. */
  function GenerateWalls(kernel: Kernel, l: Layer, desired: seq<Range>, reverse: bool): Layer
    requires l.fillWithInfill ==> l.beadWidth > 0.0
  {
    var parts := kernel.sliceMaterial(l.z, desired);
    var ordered := if reverse then Reversed(parts) else parts;
    l.(rangedWalls := l.rangedWalls + RangeEntries(kernel, ordered, l.beadWidth, l.fillWithInfill))
  }

  /** Generating walls appends one entry per reported range and keeps earlier entries and every
      other field. */
  lemma GenerateWallsKeeps(kernel: Kernel, l: Layer, desired: seq<Range>, reverse: bool)
    requires l.fillWithInfill ==> l.beadWidth > 0.0
    ensures var r := GenerateWalls(kernel, l, desired, reverse);
      && |r.rangedWalls| == |l.rangedWalls| + |kernel.sliceMaterial(l.z, desired)|
      && r.rangedWalls[..|l.rangedWalls|] == l.rangedWalls
      && r == l.(rangedWalls := r.rangedWalls)
  {
    var r := GenerateWalls(kernel, l, desired, reverse);
    assert r.rangedWalls[..|l.rangedWalls|] == l.rangedWalls;
  }

  /** Entry i of `w` carries the range of part i, or of part n - 1 - i when `reverse` holds. */
  predicate InOrder(w: seq<RangedPaths>, parts: seq<RangedPolygons>, reverse: bool) {
    && |w| == |parts|
    && forall i :: 0 <= i < |parts| ==> w[i].range == (if reverse then parts[|parts| - 1 - i] else parts[i]).range
  }

  /** The new entries follow the kernel's order of ranges when `reverse` is false and the opposite
      order when it holds. */
  lemma GenerateWallsOrder(kernel: Kernel, l: Layer, desired: seq<Range>, reverse: bool)
    requires l.fillWithInfill ==> l.beadWidth > 0.0
    ensures InOrder(GenerateWalls(kernel, l, desired, reverse).rangedWalls[|l.rangedWalls|..],
                    kernel.sliceMaterial(l.z, desired), reverse)
  {
    var parts := kernel.sliceMaterial(l.z, desired);
    var ordered := if reverse then Reversed(parts) else parts;
    var entries := RangeEntries(kernel, ordered, l.beadWidth, l.fillWithInfill);
    var r := GenerateWalls(kernel, l, desired, reverse);
    assert r.rangedWalls[|l.rangedWalls|..] == entries;
    forall i | 0 <= i < |parts|
      ensures entries[i].range == (if reverse then parts[|parts| - 1 - i] else parts[i]).range
    {
      assert entries[i].range == ordered[i].range;
    }
  }

  // ---------------------------------------------------------------- connecting

  /** The `for lower, higher in ranges` loop of `connect_paths`: each range's paths routed from
      the last connected point, crossing only gaps wider than the tolerance. */
  function ConnectRanges(l: Layer, ranges: seq<Range>, prev: Point): Layer
    decreases |ranges|
  {
    if |ranges| == 0 then l
    else
      var l1 := l.(connected := ConnectInRange(AboveTolerance, l.connected, prev, l.rangedWalls, [], ranges[0]));
      ConnectRanges(l1, ranges[1..], EndPoint(prev, l1.connected))
  }

  /** `connect_paths`: nothing to do without walls; otherwise every walls range, from (-8, 10). */
  function ConnectPaths(l: Layer): Layer {
    if |l.rangedWalls| == 0 then l else ConnectRanges(l, RangesOf(l.rangedWalls), RouteStart)
  }

  /** What routing owes, range by range: every wall path whose range lies inside that range. */
  function RoutedBag(walls: seq<RangedPaths>, ranges: seq<Range>): multiset<Unoriented>
    decreases |ranges|
  {
    if |ranges| == 0 then multiset{} else ExtrusionBag(Available(walls, ranges[0])) + RoutedBag(walls, ranges[1..])
  }

  lemma AvailableWithoutInfill(walls: seq<RangedPaths>, r: Range)
    ensures Available(walls, r) + Available([], r) == Available(walls, r)
  {
    assert Available([], r) == [];
  }

  /** Routing keeps what was connected as a prefix and changes nothing else. */
  lemma {:induction false} ConnectRangesKeeps(l: Layer, ranges: seq<Range>, prev: Point)
    ensures var r := ConnectRanges(l, ranges, prev);
      && |r.connected| >= |l.connected| && r.connected[..|l.connected|] == l.connected
      && r == l.(connected := r.connected)
    decreases |ranges|
  {
    if |ranges| > 0 {
      var l1 := l.(connected := ConnectInRange(AboveTolerance, l.connected, prev, l.rangedWalls, [], ranges[0]));
      assert l1.connected[..|l.connected|] == l.connected;
      ConnectRangesKeeps(l1, ranges[1..], EndPoint(prev, l1.connected));
      var r := ConnectRanges(l1, ranges[1..], EndPoint(prev, l1.connected));
      assert r.connected[..|l1.connected|][..|l.connected|] == l.connected;
    }
  }

  /** Routing keeps what was connected, changes nothing else, and adds, up to orientation,
      exactly the extrusions owed: for each range, every wall path inside it. */
  lemma {:induction false} ConnectRangesPermutes(l: Layer, ranges: seq<Range>, prev: Point)
    ensures var r := ConnectRanges(l, ranges, prev);
      && |r.connected| >= |l.connected| && r.connected[..|l.connected|] == l.connected
      && ExtrusionBag(r.connected) == ExtrusionBag(l.connected) + RoutedBag(l.rangedWalls, ranges)
      && r == l.(connected := r.connected)
    decreases |ranges|
  {
    ConnectRangesKeeps(l, ranges, prev);
    if |ranges| > 0 {
      var avail := Available(l.rangedWalls, ranges[0]);
      AvailableWithoutInfill(l.rangedWalls, ranges[0]);
      var st := Stitch(AboveTolerance, prev, avail);
      var l1 := l.(connected := l.connected + st);
      assert l1 == l.(connected := ConnectInRange(AboveTolerance, l.connected, prev, l.rangedWalls, [], ranges[0]));
      StitchPermutes(AboveTolerance, prev, avail);
      ExtrusionBagAppend(l.connected, st);
      ConnectRangesPermutes(l1, ranges[1..], EndPoint(prev, l1.connected));
    }
  }

  /** Routing from the route start keeps the connected list threaded: every travel leaves from
      the end of the previous path and reaches the start of the next, and consecutive extrusions
      without a travel between them are at most the tolerance apart. */
  lemma {:induction false} ConnectRangesThreaded(l: Layer, ranges: seq<Range>, prev: Point)
    requires Threaded(AboveTolerance, RouteStart, l.connected) && prev == EndPoint(RouteStart, l.connected)
    ensures Threaded(AboveTolerance, RouteStart, ConnectRanges(l, ranges, prev).connected)
    decreases |ranges|
  {
    if |ranges| > 0 {
      var avail := Available(l.rangedWalls, ranges[0]);
      AvailableWithoutInfill(l.rangedWalls, ranges[0]);
      var st := Stitch(AboveTolerance, prev, avail);
      StitchThreaded(AboveTolerance, prev, avail);
      ThreadedAppend(AboveTolerance, RouteStart, l.connected, st);
      var l1 := l.(connected := l.connected + st);
      assert l1 == l.(connected := ConnectInRange(AboveTolerance, l.connected, prev, l.rangedWalls, [], ranges[0]));
      assert EndPoint(prev, l1.connected) == EndPoint(RouteStart, l1.connected);
      ConnectRangesThreaded(l1, ranges[1..], EndPoint(prev, l1.connected));
    }
  }

  /** A layer routed from scratch is one threaded tour from (-8, 10) holding, up to orientation,
      every wall path once per walls range that contains its range. */
  lemma ConnectPathsSpec(l: Layer)
    requires l.connected == []
    ensures var r := ConnectPaths(l);
      && Threaded(AboveTolerance, RouteStart, r.connected)
      && ExtrusionBag(r.connected) == RoutedBag(l.rangedWalls, RangesOf(l.rangedWalls))
      && r == l.(connected := r.connected)
  {
    if |l.rangedWalls| > 0 {
      ConnectRangesThreaded(l, RangesOf(l.rangedWalls), RouteStart);
      ConnectRangesPermutes(l, RangesOf(l.rangedWalls), RouteStart);
    }
  }

  // ---------------------------------------------------------------- bounds and translation

  /** Every point of every connected path, path by path. */
  function PathPoints(paths: seq<Path>): seq<Point>
    decreases |paths|
  {
    if |paths| == 0 then [] else paths[0].points + PathPoints(paths[1..])
  }

  /** `get_bounds`: the componentwise min and max over all connected points, starting from
      (+inf, +inf) and (-inf, -inf). */
  function GetBounds(l: Layer): Infill.Bounds {
    Infill.BoundsOf(PathPoints(l.connected))
  }

  /** Without a connected point the bounds stay infinite; otherwise they are finite, enclose
      every connected point, and each is attained by some point. */
  lemma GetBoundsSpec(l: Layer)
    ensures var b := GetBounds(l); var ps := PathPoints(l.connected);
      && (|ps| == 0 <==> b == Infill.NoBounds)
      && (|ps| > 0 ==>
            && b.Finite()
            && (forall i :: 0 <= i < |ps| ==> b.Holds(ps[i]))
            && (exists i :: 0 <= i < |ps| && ps[i].x == b.minX.v)
            && (exists i :: 0 <= i < |ps| && ps[i].x == b.maxX.v)
            && (exists i :: 0 <= i < |ps| && ps[i].y == b.minY.v)
            && (exists i :: 0 <= i < |ps| && ps[i].y == b.maxY.v))
  {
    Infill.BoundsOfSpec(PathPoints(l.connected));
  }

  /** `translate_paths`: every connected point moved by `v`, the height raised by `dz`. */
  function TranslatePaths(l: Layer, v: Point, dz: real): (r: Layer)
    ensures r.z == l.z + dz
    ensures |r.connected| == |l.connected|
    ensures forall i :: 0 <= i < |l.connected| ==>
      r.connected[i].range == l.connected[i].range && r.connected[i].extrusion == l.connected[i].extrusion &&
      |r.connected[i].points| == |l.connected[i].points| &&
      forall j :: 0 <= j < |l.connected[i].points| ==>
        r.connected[i].points[j] == Point(l.connected[i].points[j].x + v.x, l.connected[i].points[j].y + v.y)
    ensures r == l.(z := r.z, connected := r.connected)
  {
    l.(z := l.z + dz, connected := ShiftPaths(l.connected, v))
  }
}
