/** One layer of the cutting slicer (layer.py): counted wall offsets, infill, cutting into
    material ranges, purge towers and per-range routing with a travel before every path. */
module CuttingLayer {
  import opened Geometry
  import opened Wrappers
  import opened Router
  import Infill

  /** Number of offset walls tried for every purge tower. */
  const PurgeTowerWalls: nat := 56
  /** Fraction of the bead width by which the outline is shrunk into the first wall. */
  const WallShrink: real := 0.02

  datatype PurgeCenter = PurgeCenter(range: Range, center: Point)

  datatype Layer = Layer(
    z: real,
    beadWidth: real,
    outline: seq<Polygon>,
    walls: seq<seq<Polygon>>,
    infill: seq<Polyline>,
    rangedWalls: seq<RangedPaths>,
    rangedInfill: seq<RangedPaths>,
    connected: seq<Path>,
    purgeCenters: seq<PurgeCenter>,
    purgeXSize: real,
    purgeYSize: real)

  /** `Layer.__init__`: every derived list starts empty. */
  function NewLayer(outline: seq<Polygon>, z: real, beadWidth: real, centers: seq<PurgeCenter>,
                    purgeXSize: real, purgeYSize: real): Layer
  {
    Layer(z, beadWidth, outline, [], [], [], [], [], centers, purgeXSize, purgeYSize)
  }

  // ---------------------------------------------------------------- walls

  /** The walls `generate_walls(number)` appends after its base: the base offset inwards by
      1, 2, ..., number - 1 bead widths (nothing when number < 2). */
  function WallSeries(kernel: Kernel, base: seq<Polygon>, beadWidth: real, number: int): (r: seq<seq<Polygon>>)
    ensures |r| == if number > 1 then number - 1 else 0
    ensures forall i :: 0 <= i < |r| ==> r[i] == kernel.offset(base, Inset(beadWidth, i + 1))
  {
    var n := if number > 1 then number - 1 else 0;
    seq(n, i requires 0 <= i < n => kernel.offset(base, Inset(beadWidth, i + 1)))
  }

  /** `generate_walls`: with no wall yet, the outline shrunk by 2% of a bead becomes the first
      wall; then walls 1 .. number - 1 are offsets of the last wall present at that point. */
  function GenerateWalls(kernel: Kernel, l: Layer, number: int): Layer {
    var walls0 := if |l.walls| == 0 then [kernel.offset(l.outline, -l.beadWidth * WallShrink)] else l.walls;
    l.(walls := walls0 + WallSeries(kernel, walls0[|walls0| - 1], l.beadWidth, number))
  }

  /** From an empty wall list and number >= 1, exactly `number` walls result: the first is the
      outline offset by -0.02 bead, and wall i is the FIRST wall offset by -i beads (not the
      previous wall). Nothing but the wall list changes. */
  lemma GenerateWallsFromEmpty(kernel: Kernel, l: Layer, number: int)
    requires l.walls == [] && number >= 1
    ensures var r := GenerateWalls(kernel, l, number);
      && |r.walls| == number
      && r.walls[0] == kernel.offset(l.outline, -l.beadWidth * 0.02)
      && (forall i :: 1 <= i < number ==> r.walls[i] == kernel.offset(r.walls[0], -l.beadWidth * (i as real)))
      && r == l.(walls := r.walls)
  {
    var w0 := kernel.offset(l.outline, -l.beadWidth * WallShrink);
    var series := WallSeries(kernel, w0, l.beadWidth, number);
    var r := GenerateWalls(kernel, l, number);
    assert r.walls == [w0] + series;
    forall i | 1 <= i < number
      ensures r.walls[i] == kernel.offset(r.walls[0], -l.beadWidth * (i as real))
    {
      assert r.walls[i] == series[i - 1];
      assert Inset(l.beadWidth, i - 1 + 1) == -l.beadWidth * (i as real);
    }
  }

  /** With walls already present they are kept, and `max(number - 1, 0)` offsets of the last
      one are appended. */
  lemma GenerateWallsExtends(kernel: Kernel, l: Layer, number: int)
    requires l.walls != []
    ensures var r := GenerateWalls(kernel, l, number); var n := if number > 1 then number - 1 else 0;
      && |r.walls| == |l.walls| + n
      && r.walls[..|l.walls|] == l.walls
      && (forall i :: |l.walls| <= i < |r.walls| ==>
            r.walls[i] == kernel.offset(l.walls[|l.walls| - 1], -l.beadWidth * ((i - |l.walls| + 1) as real)))
  {
    var series := WallSeries(kernel, l.walls[|l.walls| - 1], l.beadWidth, number);
    var r := GenerateWalls(kernel, l, number);
    assert r.walls == l.walls + series;
    forall i | |l.walls| <= i < |r.walls|
      ensures r.walls[i] == kernel.offset(l.walls[|l.walls| - 1], -l.beadWidth * ((i - |l.walls| + 1) as real))
    {
      var k := i - |l.walls|;
      assert r.walls[i] == series[k];
      assert series[k] == kernel.offset(l.walls[|l.walls| - 1], Inset(l.beadWidth, k + 1));
      assert Inset(l.beadWidth, k + 1) == -l.beadWidth * ((i - |l.walls| + 1) as real);
    }
  }

  // ---------------------------------------------------------------- infill

  /** The boundary infill is laid inside: the last wall, or the outline when there is none. */
  function InfillBase(l: Layer): seq<Polygon> {
    if |l.walls| == 0 then l.outline else l.walls[|l.walls| - 1]
  }

  /** `generate_infill`: scan lines spaced `bead_width / density` clipped against the infill
      base offset inwards by one bead. */
  function GenerateInfill(kernel: Kernel, l: Layer, density: real): Layer
    requires density > 0.0 && l.beadWidth > 0.0
  {
    var boundary := kernel.offset(InfillBase(l), -l.beadWidth);
    l.(infill := Infill.RectilinearInfill(kernel, boundary, l.beadWidth / density))
  }

  /** The infill is the kernel's clip of scan lines spaced bead / density, laid over the base
      offset by -bead, where the base is the last wall or, without walls, the outline. Only the
      infill list changes. */
  lemma GenerateInfillSpec(kernel: Kernel, l: Layer, density: real)
    requires density > 0.0 && l.beadWidth > 0.0
    ensures var r := GenerateInfill(kernel, l, density);
      var base := if l.walls == [] then l.outline else l.walls[|l.walls| - 1];
      var boundary := kernel.offset(base, -l.beadWidth);
      var spacing := l.beadWidth / density;
      && spacing > 0.0
      && r.infill == kernel.clip(boundary, Infill.ScanLines(boundary, spacing))
      && r == l.(infill := r.infill)
  {
  }

  // ---------------------------------------------------------------- purge tower

  /** The first center whose range equals the desired one exactly. */
  function FindCenter(centers: seq<PurgeCenter>, r: Range): (c: Option<Point>)
    ensures c.None? <==> forall i :: 0 <= i < |centers| ==> centers[i].range != r
    ensures c.Some? ==> exists i :: 0 <= i < |centers| && centers[i].range == r && centers[i].center == c.value
                                    && forall j :: 0 <= j < i ==> centers[j].range != r
    decreases |centers|
  {
    if |centers| == 0 then None
    else if centers[0].range == r then Some(centers[0].center)
    else
      var c := FindCenter(centers[1..], r);
      if c.Some? then
        ghost var i :| 0 <= i < |centers[1..]| && centers[1..][i].range == r && centers[1..][i].center == c.value
                       && forall j :: 0 <= j < i ==> centers[1..][j].range != r;
        assert centers[i + 1] == centers[1..][i];
        assert forall j :: 1 <= j < i + 1 ==> centers[j] == centers[1..][j - 1];
        c
      else
        c
  }

  /** The closed five-point box around `c` with the given half sizes, counter-clockwise from the
      lower-left corner. */
  function TowerBox(c: Point, halfX: real, halfY: real): (b: Polygon)
    ensures |b.boundary| == 5 && b.holes == []
    ensures b.boundary[0] == b.boundary[4]
    ensures forall i :: 0 <= i < 5 ==>
      (b.boundary[i].x == c.x - halfX || b.boundary[i].x == c.x + halfX) &&
      (b.boundary[i].y == c.y - halfY || b.boundary[i].y == c.y + halfY)
    ensures b.boundary[0] == Point(c.x - halfX, c.y - halfY) && b.boundary[2] == Point(c.x + halfX, c.y + halfY)
  {
    Polygon([Point(c.x - halfX, c.y - halfY), Point(c.x + halfX, c.y - halfY),
             Point(c.x + halfX, c.y + halfY), Point(c.x - halfX, c.y + halfY),
             Point(c.x - halfX, c.y - halfY)], [])
  }

  /** The tower's walls: the box offset inwards by 0, 1, ..., 55 bead widths. */
  function TowerWalls(kernel: Kernel, box: Polygon, beadWidth: real): seq<seq<Polygon>> {
    seq(PurgeTowerWalls, i requires 0 <= i < PurgeTowerWalls => kernel.offset([box], Inset(beadWidth, i)))
  }

  /** The outer loop of the first polygon of every non-empty wall, in wall order. */
  function FirstLoops(walls: seq<seq<Polygon>>): (r: seq<Polyline>)
    ensures |r| <= |walls|
    decreases |walls|
  {
    if |walls| == 0 then []
    else if |walls[0]| == 0 then FirstLoops(walls[1..])
    else [walls[0][0].boundary] + FirstLoops(walls[1..])
  }

  /** The tower's paths: for every non-empty wall, a travel from the current point to its first
      point and the wall's loop as an extrusion in the desired range; empty walls are skipped. */
  function TowerPaths(start: Point, r: Range, loops: seq<Polyline>): (t: seq<Path>)
    ensures |t| == 2 * |loops|
    decreases |loops|
  {
    if |loops| == 0 then []
    else [Travel(start, First(loops[0])), Path(r, true, loops[0])] + TowerPaths(Last(loops[0]), r, loops[1..])
  }

  /** Entry 2j of the tower is the travel to loop j, from the start or from the end of loop j - 1,
      and entry 2j + 1 is loop j itself, printed in the desired range. */
  lemma {:induction false} TowerPathsAt(start: Point, r: Range, loops: seq<Polyline>, j: nat)
    requires j < |loops|
    ensures var t := TowerPaths(start, r, loops);
      && t[2 * j + 1] == Path(r, true, loops[j])
      && t[2 * j] == Travel(if j == 0 then start else Last(loops[j - 1]), First(loops[j]))
    decreases |loops|
  {
    if j > 0 {
      var rest := TowerPaths(Last(loops[0]), r, loops[1..]);
      TowerPathsAt(Last(loops[0]), r, loops[1..], j - 1);
      var t := TowerPaths(start, r, loops);
      assert t == [Travel(start, First(loops[0])), Path(r, true, loops[0])] + rest;
      assert t[2 * j] == rest[2 * (j - 1)] && t[2 * j + 1] == rest[2 * (j - 1) + 1];
      assert loops[1..][j - 1] == loops[j];
      if j > 1 {
        assert loops[1..][j - 2] == loops[j - 1];
      }
    }
  }

  /** The loops of the tower around center `c`. */
  function TowerLoops(kernel: Kernel, l: Layer, c: Point): seq<Polyline> {
    FirstLoops(TowerWalls(kernel, TowerBox(c, l.purgeXSize / 2.0, l.purgeYSize / 2.0), l.beadWidth))
  }

  /** What `generate_purge_tower(start, r)` appends, or the failure when no center has range r. */
  function PurgeTowerPaths(kernel: Kernel, l: Layer, start: Point, r: Range): Result<seq<Path>> {
    match FindCenter(l.purgeCenters, r)
    case None => Err(NoPurgeCenterForRange)
    case Some(c) => Ok(TowerPaths(start, r, TowerLoops(kernel, l, c)))
  }

  /** The tower fails exactly when no center carries the range. */
  lemma PurgeTowerFails(kernel: Kernel, l: Layer, start: Point, r: Range)
    ensures PurgeTowerPaths(kernel, l, start, r).Err? <==>
      forall i :: 0 <= i < |l.purgeCenters| ==> l.purgeCenters[i].range != r
  {
  }

  /** Otherwise it holds one travel and one extrusion per non-empty wall (at most 56 of each),
      alternating, every extrusion in the desired range. */
  lemma PurgeTowerAlternates(kernel: Kernel, l: Layer, start: Point, r: Range)
    requires PurgeTowerPaths(kernel, l, start, r).Ok?
    ensures var t := PurgeTowerPaths(kernel, l, start, r).value;
      && |t| % 2 == 0 && |t| <= 2 * PurgeTowerWalls
      && (forall j :: 0 <= j < |t| ==> (t[j].extrusion <==> j % 2 == 1))
      && (forall j :: 0 <= j < |t| && t[j].extrusion ==> t[j].range == r)
  {
    var c := FindCenter(l.purgeCenters, r).value;
    var loops := TowerLoops(kernel, l, c);
    var t := TowerPaths(start, r, loops);
    assert PurgeTowerPaths(kernel, l, start, r).value == t;
    assert |loops| <= PurgeTowerWalls;
    forall j | 0 <= j < |t|
      ensures (t[j].extrusion <==> j % 2 == 1)
      ensures t[j].extrusion ==> t[j].range == r
    {
      TowerEntry(start, r, loops, j);
    }
  }

  /** ... and it is threaded from `start`: each travel leaves from the end of the previous loop. */
  lemma PurgeTowerThreaded(kernel: Kernel, l: Layer, start: Point, r: Range)
    requires PurgeTowerPaths(kernel, l, start, r).Ok?
    ensures Threaded(Always, start, PurgeTowerPaths(kernel, l, start, r).value)
  {
    TowerThreaded(start, r, TowerLoops(kernel, l, FindCenter(l.purgeCenters, r).value));
  }

  /** Even entries of a tower are travels; odd entries are extrusions in the desired range. */
  lemma TowerEntry(start: Point, r: Range, loops: seq<Polyline>, j: nat)
    requires j < |TowerPaths(start, r, loops)|
    ensures var t := TowerPaths(start, r, loops);
      && (t[j].extrusion <==> j % 2 == 1)
      && (t[j].extrusion ==> t[j].range == r)
  {
    var h := j / 2;
    TowerPathsAt(start, r, loops, h);
    if j % 2 == 0 {
      assert j == 2 * h;
    } else {
      assert j == 2 * h + 1;
    }
  }

  lemma {:induction false} TowerThreaded(start: Point, r: Range, loops: seq<Polyline>)
    ensures Threaded(Always, start, TowerPaths(start, r, loops))
    decreases |loops|
  {
    if |loops| > 0 {
      var t := TowerPaths(start, r, loops);
      var rest := TowerPaths(Last(loops[0]), r, loops[1..]);
      TowerThreaded(Last(loops[0]), r, loops[1..]);
      assert t == [Travel(start, First(loops[0])), Path(r, true, loops[0])] + rest;
      assert t[2..] == rest;
    }
  }

  /** `generate_purge_tower`: the tower's paths appended to the connected list. */
  function GeneratePurgeTower(kernel: Kernel, l: Layer, start: Point, r: Range): Result<Layer> {
    var tower :- PurgeTowerPaths(kernel, l, start, r);
    Ok(l.(connected := l.connected + tower))
  }

  // ---------------------------------------------------------------- cutting into ranges

  /** Every wall polygon's outline, wall by wall. */
  function WallLoops(walls: seq<seq<Polygon>>): seq<Polyline> {
    Concat(seq(|walls|, i requires 0 <= i < |walls| => Boundaries(walls[i])))
  }

  function CutEntries(kernel: Kernel, parts: seq<RangedPolygons>, subjects: seq<Polyline>): (r: seq<RangedPaths>)
    ensures |r| == |parts|
    ensures forall i :: 0 <= i < |parts| ==> r[i] == RangedPaths(parts[i].range, kernel.clip(parts[i].polygons, subjects))
  {
    seq(|parts|, i requires 0 <= i < |parts| => RangedPaths(parts[i].range, kernel.clip(parts[i].polygons, subjects)))
  }

  /** `cut_into_ranges`: for every range the kernel reports at this height, the wall loops and
      the infill lines clipped to that range's polygons. */
  function CutIntoRanges(kernel: Kernel, l: Layer, desired: seq<Range>): Layer {
    var parts := kernel.sliceMaterial(l.z, desired);
    l.(rangedWalls := l.rangedWalls + CutEntries(kernel, parts, WallLoops(l.walls)),
       rangedInfill := l.rangedInfill + CutEntries(kernel, parts, l.infill))
  }

  /** One walls entry and one infill entry per reported range, in the kernel's order, both
      carrying that range; earlier entries and every other field are kept. */
  lemma CutIntoRangesSpec(kernel: Kernel, l: Layer, desired: seq<Range>)
    ensures var r := CutIntoRanges(kernel, l, desired); var parts := kernel.sliceMaterial(l.z, desired);
      && |r.rangedWalls| == |l.rangedWalls| + |parts| && |r.rangedInfill| == |l.rangedInfill| + |parts|
      && r.rangedWalls[..|l.rangedWalls|] == l.rangedWalls && r.rangedInfill[..|l.rangedInfill|] == l.rangedInfill
      && (forall i :: 0 <= i < |parts| ==>
            r.rangedWalls[|l.rangedWalls| + i].range == parts[i].range &&
            r.rangedInfill[|l.rangedInfill| + i].range == parts[i].range)
      && r == l.(rangedWalls := r.rangedWalls, rangedInfill := r.rangedInfill)
  {
  }

  // ---------------------------------------------------------------- connecting

  /** The paths of every walls entry and then every infill entry whose range lies in `r`. */
  function RangePaths(l: Layer, r: Range): seq<Path> {
    Available(l.rangedWalls, r) + Available(l.rangedInfill, r)
  }

  /** One range: its tower appended, then its paths connected starting from `from`. */
  function ConnectRange(l: Layer, tower: seq<Path>, from: Point, r: Range): (l1: Layer)
    ensures l1 == l.(connected := l.connected + (tower + Stitch(Always, from, RangePaths(l, r))))
  {
    l.(connected := ConnectInRange(Always, l.connected + tower, from, l.rangedWalls, l.rangedInfill, r))
  }

  /** The `for lower, higher in ranges` loop of `connect_paths`. For each range, the purge tower
      is generated from `prev`, then the range's paths are connected. As written
      (`resumeAfterTower` false) the range's first travel also leaves from `prev`; the corrected
      loop leaves from the end of the tower. Afterwards `prev` becomes the last connected point. */
  function ConnectRanges(kernel: Kernel, l: Layer, ranges: seq<Range>, prev: Point, resumeAfterTower: bool): Result<Layer>
    decreases |ranges|
  {
    if |ranges| == 0 then Ok(l)
    else
      var tower :- PurgeTowerPaths(kernel, l, prev, ranges[0]);
      var l1 := ConnectRange(l, tower, if resumeAfterTower then EndPoint(prev, tower) else prev, ranges[0]);
      ConnectRanges(kernel, l1, ranges[1..], EndPoint(prev, l1.connected), resumeAfterTower)
  }

  /** The body of `connect_paths`: a layer without ranged entries is left alone; otherwise its
      walls' ranges are visited in order from (-8, 10). */
  function Route(kernel: Kernel, l: Layer, resumeAfterTower: bool): Result<Layer> {
    if |l.rangedWalls| == 0 && |l.rangedInfill| == 0 then Ok(l)
    else ConnectRanges(kernel, l, RangesOf(l.rangedWalls), RouteStart, resumeAfterTower)
  }

  /** `connect_paths` of layer.py as written: each range's paths are entered from the point
      reached before that range's purge tower. */
  function ConnectPaths(kernel: Kernel, l: Layer): Result<Layer> {
    Route(kernel, l, false)
  }

  /** `connect_paths` corrected: each range's routing resumes from the end of its purge tower. */
  function ConnectPathsResumed(kernel: Kernel, l: Layer): Result<Layer> {
    Route(kernel, l, true)
  }

  /** The layer has ranged entries and some range of its walls has no purge-tower center. */
  predicate LacksCenter(l: Layer) {
    !(|l.rangedWalls| == 0 && |l.rangedInfill| == 0) && MissingCenter(l.purgeCenters, RangesOf(l.rangedWalls))
  }

  /** Routing a layer, either way, fails exactly when it lacks a center for one of its ranges. */
  lemma RouteFails(kernel: Kernel, l: Layer, resumeAfterTower: bool)
    ensures Route(kernel, l, resumeAfterTower).Err? <==> LacksCenter(l)
  {
    if !(|l.rangedWalls| == 0 && |l.rangedInfill| == 0) {
      ConnectRangesFails(kernel, l, RangesOf(l.rangedWalls), RouteStart, resumeAfterTower);
    }
  }

  /** Routing a layer, either way, only appends to its connected list and changes nothing else. */
  lemma RouteKeeps(kernel: Kernel, l: Layer, resumeAfterTower: bool)
    requires Route(kernel, l, resumeAfterTower).Ok?
    ensures var r := Route(kernel, l, resumeAfterTower).value;
      && |r.connected| >= |l.connected| && r.connected[..|l.connected|] == l.connected
      && r == l.(connected := r.connected)
  {
    if !(|l.rangedWalls| == 0 && |l.rangedInfill| == 0) {
      ConnectRangesKeeps(kernel, l, RangesOf(l.rangedWalls), RouteStart, resumeAfterTower);
    }
  }

  /** Routing only appends: on success the old connected list is a prefix and nothing else changes. */
  lemma {:induction false} ConnectRangesKeeps(kernel: Kernel, l: Layer, ranges: seq<Range>, prev: Point, resume: bool)
    requires ConnectRanges(kernel, l, ranges, prev, resume).Ok?
    ensures var r := ConnectRanges(kernel, l, ranges, prev, resume).value;
      && |r.connected| >= |l.connected| && r.connected[..|l.connected|] == l.connected
      && r == l.(connected := r.connected)
    decreases |ranges|
  {
    if |ranges| > 0 {
      var tower := PurgeTowerPaths(kernel, l, prev, ranges[0]).value;
      var l1 := ConnectRange(l, tower, if resume then EndPoint(prev, tower) else prev, ranges[0]);
      ConnectRangesKeeps(kernel, l1, ranges[1..], EndPoint(prev, l1.connected), resume);
      var r := ConnectRanges(kernel, l1, ranges[1..], EndPoint(prev, l1.connected), resume).value;
      assert r.connected[..|l1.connected|] == l1.connected;
      assert l1.connected[..|l.connected|] == l.connected;
    }
  }

  /** Routing a layer fails exactly when some range has no purge-tower center. */
  lemma {:induction false} ConnectRangesFails(kernel: Kernel, l: Layer, ranges: seq<Range>, prev: Point, resume: bool)
    ensures ConnectRanges(kernel, l, ranges, prev, resume).Err? <==> MissingCenter(l.purgeCenters, ranges)
    decreases |ranges|
  {
    if |ranges| > 0 {
      var t := PurgeTowerPaths(kernel, l, prev, ranges[0]);
      if t.Ok? {
        var l1 := ConnectRange(l, t.value, if resume then EndPoint(prev, t.value) else prev, ranges[0]);
        ConnectRangesFails(kernel, l1, ranges[1..], EndPoint(prev, l1.connected), resume);
        MissingCenterTail(l.purgeCenters, ranges);
      } else {
        assert ranges[0] == ranges[0];
      }
    }
  }

  /** Some range has no center among `centers`. */
  predicate MissingCenter(centers: seq<PurgeCenter>, ranges: seq<Range>) {
    exists i :: 0 <= i < |ranges| && FindCenter(centers, ranges[i]).None?
  }

  lemma MissingCenterTail(centers: seq<PurgeCenter>, ranges: seq<Range>)
    requires |ranges| > 0 && FindCenter(centers, ranges[0]).Some?
    ensures MissingCenter(centers, ranges) <==> MissingCenter(centers, ranges[1..])
  {
    if MissingCenter(centers, ranges) {
      var i :| 0 <= i < |ranges| && FindCenter(centers, ranges[i]).None?;
      assert ranges[1..][i - 1] == ranges[i];
    }
    if MissingCenter(centers, ranges[1..]) {
      var i :| 0 <= i < |ranges[1..]| && FindCenter(centers, ranges[1..][i]).None?;
      assert ranges[i + 1] == ranges[1..][i];
    }
  }

  /** Appending a tower threaded from `prev` and a list threaded from the tower's end keeps a
      list threaded from the route start, and its end is where the next range starts. */
  lemma ThreadedStep(c: seq<Path>, prev: Point, tower: seq<Path>, st: seq<Path>)
    requires Threaded(Always, RouteStart, c) && prev == EndPoint(RouteStart, c)
    requires Threaded(Always, prev, tower) && Threaded(Always, EndPoint(prev, tower), st)
    ensures Threaded(Always, RouteStart, c + (tower + st))
    ensures EndPoint(prev, c + (tower + st)) == EndPoint(RouteStart, c + (tower + st))
  {
    ThreadedAppend(Always, prev, tower, st);
    ThreadedAppend(Always, RouteStart, c, tower + st);
  }

  /** Corrected routing keeps the whole connected list threaded from the route start: every
      travel leaves from the point the previous path ended at. */
  lemma {:induction false} ConnectRangesThreaded(kernel: Kernel, l: Layer, ranges: seq<Range>, prev: Point)
    requires Threaded(Always, RouteStart, l.connected) && prev == EndPoint(RouteStart, l.connected)
    requires ConnectRanges(kernel, l, ranges, prev, true).Ok?
    ensures Threaded(Always, RouteStart, ConnectRanges(kernel, l, ranges, prev, true).value.connected)
    decreases |ranges|
  {
    if |ranges| > 0 {
      var tower := PurgeTowerPaths(kernel, l, prev, ranges[0]).value;
      PurgeTowerThreaded(kernel, l, prev, ranges[0]);
      var from := EndPoint(prev, tower);
      StitchThreaded(Always, from, RangePaths(l, ranges[0]));
      ThreadedStep(l.connected, prev, tower, Stitch(Always, from, RangePaths(l, ranges[0])));
      var l1 := ConnectRange(l, tower, from, ranges[0]);
      ConnectRangesThreaded(kernel, l1, ranges[1..], EndPoint(prev, l1.connected));
    }
  }

  /** A freshly routed layer (corrected routing) is one threaded tour from (-8, 10): every travel
      leaves from where the previous path ended and ends where the next path starts. */
  lemma ConnectPathsResumedThreaded(kernel: Kernel, l: Layer)
    requires l.connected == [] && ConnectPathsResumed(kernel, l).Ok?
    ensures Threaded(Always, RouteStart, ConnectPathsResumed(kernel, l).value.connected)
  {
    if !(|l.rangedWalls| == 0 && |l.rangedInfill| == 0) {
      ConnectRangesThreaded(kernel, l, RangesOf(l.rangedWalls), RouteStart);
    }
  }

  /** The routing as written and the corrected one, started from lists that agree up to travel
      starts, succeed together, change the same fields the same way, and append lists that
      again agree up to travel starts: the same paths in the same order, with only some travels
      leaving from another point. */
  lemma {:induction false} ConnectRangesAgree(kernel: Kernel, l: Layer, c: seq<Path>, ranges: seq<Range>, prev: Point)
    requires SameUpToTravelStarts(l.connected, c)
    ensures var a := ConnectRanges(kernel, l, ranges, prev, false);
      var b := ConnectRanges(kernel, l.(connected := c), ranges, prev, true);
      && (a.Ok? <==> b.Ok?)
      && (a.Ok? ==> a.value == b.value.(connected := a.value.connected)
                    && SameUpToTravelStarts(a.value.connected, b.value.connected))
    decreases |ranges|
  {
    if |ranges| > 0 {
      var l' := l.(connected := c);
      var t := PurgeTowerPaths(kernel, l, prev, ranges[0]);
      assert PurgeTowerPaths(kernel, l', prev, ranges[0]) == t;
      if t.Ok? {
        var tower := t.value;
        var avail := RangePaths(l, ranges[0]);
        assert RangePaths(l', ranges[0]) == avail;
        var l1 := ConnectRange(l, tower, prev, ranges[0]);
        var l1' := ConnectRange(l', tower, EndPoint(prev, tower), ranges[0]);
        var st, st' := Stitch(Always, prev, avail), Stitch(Always, EndPoint(prev, tower), avail);
        StitchStartOnlyMovesTravel(Always, prev, EndPoint(prev, tower), avail);
        assert SameUpToTravelStarts(tower, tower);
        SameUpToTravelStartsAppend(tower, tower, st, st');
        SameUpToTravelStartsAppend(l.connected, c, tower + st, tower + st');
        assert l1.connected == l.connected + (tower + st) && l1'.connected == c + (tower + st');
        SameUpToTravelStartsEnd(prev, l1.connected, l1'.connected);
        assert l1' == l1.(connected := l1'.connected);
        ConnectRangesAgree(kernel, l1, l1'.connected, ranges[1..], EndPoint(prev, l1.connected));
      }
    }
  }

  /** `connect_paths` as written succeeds exactly when the corrected routing does, changes
      nothing but the connected list, and lays the same paths in the same order as the corrected
      routing's threaded tour; only some travels leave from another point. */
  lemma ConnectPathsAgree(kernel: Kernel, l: Layer)
    ensures var a := ConnectPaths(kernel, l); var b := ConnectPathsResumed(kernel, l);
      && (a.Ok? <==> b.Ok?)
      && (a.Ok? ==> a.value == b.value.(connected := a.value.connected)
                    && SameUpToTravelStarts(a.value.connected, b.value.connected))
  {
    assert SameUpToTravelStarts(l.connected, l.connected);
    if !(|l.rangedWalls| == 0 && |l.rangedInfill| == 0) {
      assert l.(connected := l.connected) == l;
      ConnectRangesAgree(kernel, l, l.connected, RangesOf(l.rangedWalls), RouteStart);
    }
  }

  /** As written, the first range's paths are entered from (-8, 10) rather than from the end of
      the purge tower just laid. */
  lemma AsWrittenFirstRange(kernel: Kernel, l: Layer)
    requires l.connected == [] && |l.rangedWalls| > 0
    requires ConnectPaths(kernel, l).Ok?
    ensures var r0 := l.rangedWalls[0].range;
      var tower := PurgeTowerPaths(kernel, l, RouteStart, r0).value;
      var c := ConnectPaths(kernel, l).value.connected;
      var added := tower + Stitch(Always, RouteStart, RangePaths(l, r0));
      |added| <= |c| && c[..|added|] == added
  {
    var ranges := RangesOf(l.rangedWalls);
    var tower := PurgeTowerPaths(kernel, l, RouteStart, ranges[0]).value;
    var l1 := ConnectRange(l, tower, RouteStart, ranges[0]);
    assert l1.connected == tower + Stitch(Always, RouteStart, RangePaths(l, ranges[0]));
    ConnectRangesKeeps(kernel, l1, ranges[1..], EndPoint(RouteStart, l1.connected), false);
  }

  /** As written, the travel that opens a range's paths leaves from the point routing had
      reached before the purge tower, not from where the tower ended: whenever the tower of the
      first range is not empty, ends away from (-8, 10), and the range has paths, the entry
      right after the tower is a travel that does not start where the tower's last path ends,
      so the layer's tour is broken. */
  lemma AsWrittenTravelSkipsTower(kernel: Kernel, l: Layer)
    requires l.connected == [] && |l.rangedWalls| > 0
    requires var r0 := l.rangedWalls[0].range; var t := PurgeTowerPaths(kernel, l, RouteStart, r0);
      && t.Ok? && |t.value| > 0 && EndPoint(RouteStart, t.value) != RouteStart
      && |RangePaths(l, r0)| > 0
    requires ConnectPaths(kernel, l).Ok?
    ensures var c := ConnectPaths(kernel, l).value.connected;
      var n := |PurgeTowerPaths(kernel, l, RouteStart, l.rangedWalls[0].range).value|;
      && n < |c| && !c[n].extrusion
      && First(c[n].points) != Last(c[n - 1].points)
      && !Threaded(Always, RouteStart, c)
  {
    var r0 := l.rangedWalls[0].range;
    var tower := PurgeTowerPaths(kernel, l, RouteStart, r0).value;
    var avail := RangePaths(l, r0);
    AsWrittenFirstRange(kernel, l);
    PurgeTowerAlternates(kernel, l, RouteStart, r0);
    BrokenAfterTower(ConnectPaths(kernel, l).value.connected, tower, Stitch(Always, RouteStart, avail));
  }

  /** A list that starts with a non-empty alternating tower followed by a travel from the route
      start, where the tower ends elsewhere, is not threaded. */
  lemma BrokenAfterTower(c: seq<Path>, tower: seq<Path>, st: seq<Path>)
    requires |tower| > 0 && |tower| % 2 == 0 && forall j :: 0 <= j < |tower| ==> (tower[j].extrusion <==> j % 2 == 1)
    requires EndPoint(RouteStart, tower) != RouteStart
    requires |st| > 0 && !st[0].extrusion && First(st[0].points) == RouteStart
    requires |tower| + |st| <= |c| && c[..|tower| + |st|] == tower + st
    ensures var n := |tower|;
      && n < |c| && !c[n].extrusion
      && First(c[n].points) != Last(c[n - 1].points)
      && !Threaded(Always, RouteStart, c)
  {
    var n := |tower|;
    assert c[n] == st[0] by {
      assert c[n] == (tower + st)[n];
    }
    assert c[n - 1] == tower[n - 1] by {
      assert c[n - 1] == (tower + st)[n - 1];
    }
    assert c[..n] == tower by {
      assert c[..n] == (tower + st)[..n];
    }
    TowerNotThreaded(c, tower);
  }

  /** A list that starts with an alternating prefix and then a travel leaving from somewhere
      other than the prefix's end is not threaded. */
  lemma TowerNotThreaded(c: seq<Path>, tower: seq<Path>)
    requires |tower| % 2 == 0 && forall j :: 0 <= j < |tower| ==> (tower[j].extrusion <==> j % 2 == 1)
    requires |tower| < |c| && c[..|tower|] == tower
    requires !c[|tower|].extrusion && First(c[|tower|].points) != EndPoint(RouteStart, tower)
    ensures !Threaded(Always, RouteStart, c)
  {
    var n := |tower|;
    if Threaded(Always, RouteStart, c) {
      assert c == tower + c[n..];
      ThreadedSplit(RouteStart, tower, c[n..]);
    }
  }

  /** A threaded list that starts with an alternating prefix continues from that prefix's end. */
  lemma {:induction false} ThreadedSplit(from: Point, s: seq<Path>, t: seq<Path>)
    requires Threaded(Always, from, s + t)
    requires |s| % 2 == 0 && forall j :: 0 <= j < |s| ==> (s[j].extrusion <==> j % 2 == 1)
    ensures |t| > 0 && !t[0].extrusion ==> First(t[0].points) == EndPoint(from, s)
    decreases |s|
  {
    if |s| > 0 {
      assert (s + t)[2..] == s[2..] + t;
      assert forall j :: 0 <= j < |s[2..]| ==> s[2..][j] == s[j + 2];
      ThreadedSplit(Last(s[1].points), s[2..], t);
      assert EndPoint(Last(s[1].points), s[2..]) == EndPoint(from, s);
    } else {
      assert s + t == t;
    }
  }

  // ---------------------------------------------------------------- translation

  /** `translate_paths`: every connected point moved by `v`, the height raised by `dz`. */
  function TranslatePaths(l: Layer, v: Point, dz: real): (r: Layer)
    ensures r.z == l.z + dz
    ensures |r.connected| == |l.connected|
    ensures forall i :: 0 <= i < |l.connected| ==>
      r.connected[i].range == l.connected[i].range && r.connected[i].extrusion == l.connected[i].extrusion &&
      |r.connected[i].points| == |l.connected[i].points| &&
      forall j :: 0 <= j < |l.connected[i].points| ==>
        r.connected[i].points[j] == Point(l.connected[i].points[j].x + v.x, l.connected[i].points[j].y + v.y)
    ensures r == l.(z := r.z, connected := r.connected)
  {
    l.(z := l.z + dz, connected := ShiftPaths(l.connected, v))
  }
}
