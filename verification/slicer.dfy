/** The cutting slicer's build pipeline (slicer.py): purge-tower placement on a grid, one layer
    per non-empty cross-section with walls and infill, cutting into material ranges, routing,
    and centering on the bed. */
module CuttingSlicer {
  import opened Geometry
  import opened Wrappers
  import opened Steps
  import opened Layering
  import CuttingLayer
  import Router

  datatype Vec3 = Vec3(x: real, y: real, z: real)

  /** Where purge towers may go and how big they are. */
  datatype PurgeGrid = PurgeGrid(min: Point, max: Point, spacingX: real, spacingY: real, sizeX: real, sizeY: real)
  {
    predicate Valid() {
      spacingX > 0.0 && spacingY > 0.0
    }
  }

  /** First-layer height above the bed after centering. */
  const FirstLayerHeight: real := 0.2

  // ---------------------------------------------------------------- purge towers

  /** One row of candidate centers at height y. */
  function Row(xs: seq<real>, y: real): (r: seq<Point>)
    ensures |r| == |xs| && forall i :: 0 <= i < |xs| ==> r[i] == Point(xs[i], y)
  {
    seq(|xs|, i requires 0 <= i < |xs| => Point(xs[i], y))
  }

  /** The column positions: from min x + spacing / 2 while below max x. */
  function GridXs(g: PurgeGrid): seq<real>
    requires g.Valid()
  {
    Progression(g.min.x + g.spacingX / 2.0, g.spacingX, g.max.x, true)
  }

  /** The row positions: from min y + spacing / 2 while below max y. */
  function GridYs(g: PurgeGrid): seq<real>
    requires g.Valid()
  {
    Progression(g.min.y + g.spacingY / 2.0, g.spacingY, g.max.y, true)
  }

  /** The candidate centers of the two nested `while` loops, row by row. */
  function Candidates(g: PurgeGrid): seq<Point>
    requires g.Valid()
  {
    var xs := GridXs(g);
    var ys := GridYs(g);
    Concat(seq(|ys|, j requires 0 <= j < |ys| => Row(xs, ys[j])))
  }

  /** (j + 1)·n = j·n + n. */
  lemma MulSucc(j: nat, n: nat)
    ensures (j + 1) * n == j * n + n
  {
  }

  lemma {:induction false} ConcatLength<T>(ss: seq<seq<T>>, n: nat)
    requires forall j :: 0 <= j < |ss| ==> |ss[j]| == n
    ensures |Concat(ss)| == |ss| * n
    decreases |ss|
  {
    if |ss| > 0 {
      ConcatLength(ss[1..], n);
      MulSucc(|ss| - 1, n);
    }
  }

  /** Element i of row j sits at j·n + i when every row has n elements. */
  lemma {:induction false} ConcatAt<T>(ss: seq<seq<T>>, n: nat, j: nat, i: nat)
    requires forall h :: 0 <= h < |ss| ==> |ss[h]| == n
    requires j < |ss| && i < n
    ensures j * n + i < |Concat(ss)| && Concat(ss)[j * n + i] == ss[j][i]
    decreases j
  {
    ConcatLength(ss, n);
    var tail := ss[1..];
    assert Concat(ss) == ss[0] + Concat(tail);
    if j > 0 {
      ConcatAt(tail, n, j - 1, i);
      MulSucc(j - 1, n);
    }
  }

  lemma {:induction false} MulLe(a: nat, b: nat, n: nat)
    requires a <= b
    ensures a * n <= b * n
    decreases b - a
  {
    if a < b {
      MulLe(a, b - 1, n);
      MulSucc(b - 1, n);
    }
  }

  /** Column i of row j is candidate j·columns + i, at (xs[i], ys[j]). */
  lemma CandidateAt(g: PurgeGrid, j: nat, i: nat)
    requires g.Valid() && j < |GridYs(g)| && i < |GridXs(g)|
    ensures j * |GridXs(g)| + i < |Candidates(g)|
    ensures Candidates(g)[j * |GridXs(g)| + i] == Point(GridXs(g)[i], GridYs(g)[j])
  {
    var xs, ys := GridXs(g), GridYs(g);
    var rows := seq(|ys|, h requires 0 <= h < |ys| => Row(xs, ys[h]));
    ConcatAt(rows, |xs|, j, i);
  }

  /** Candidate k is column k mod columns of row k div columns. */
  lemma CandidateIndex(g: PurgeGrid, k: nat)
    requires g.Valid() && k < |Candidates(g)|
    ensures var xs := GridXs(g); var ys := GridYs(g);
      |xs| > 0 && k / |xs| < |ys| && k % |xs| < |xs| && Candidates(g)[k] == Point(xs[k % |xs|], ys[k / |xs|])
  {
    CandidatesCount(g);
    var n, m := |GridXs(g)|, |GridYs(g)|;
    DivBound(k, n, m);
    var j, i := k / n, k % n;
    CandidateAt(g, j, i);
    assert j * n + i == k;
  }

  /** An index below m·n splits into a row below m and a column below n. */
  lemma DivBound(k: nat, n: nat, m: nat)
    requires k < m * n
    ensures n > 0 && k / n < m && k == (k / n) * n + k % n && k % n < n
  {
    if n > 0 && k / n >= m {
      MulLe(m, k / n, n);
    }
  }

  /** There are rows × columns candidates. */
  lemma CandidatesCount(g: PurgeGrid)
    requires g.Valid()
    ensures |Candidates(g)| == |GridYs(g)| * |GridXs(g)|
  {
    var xs, ys := GridXs(g), GridYs(g);
    var rows := seq(|ys|, h requires 0 <= h < |ys| => Row(xs, ys[h]));
    ConcatLength(rows, |xs|);
  }

  /** The candidates form a row-major grid: column i of row j is candidate j·columns + i, at
      (min x + spacing/2 + i·spacing, min y + spacing/2 + j·spacing), strictly below max x and
      max y. */
  lemma CandidateCoordinates(g: PurgeGrid, j: nat, i: nat)
    requires g.Valid() && j < |GridYs(g)| && i < |GridXs(g)|
    ensures j * |GridXs(g)| + i < |Candidates(g)|
    ensures Candidates(g)[j * |GridXs(g)| + i]
         == Point(g.min.x + g.spacingX / 2.0 + (i as real) * g.spacingX, g.min.y + g.spacingY / 2.0 + (j as real) * g.spacingY)
    ensures Candidates(g)[j * |GridXs(g)| + i].x < g.max.x && Candidates(g)[j * |GridXs(g)| + i].y < g.max.y
  {
    CandidateAt(g, j, i);
    GridPoint(g, i, j);
  }

  /** Column i lies at min x + spacing/2 + i·spacing and row j at min y + spacing/2 + j·spacing,
      both strictly below the maximum. */
  lemma GridPoint(g: PurgeGrid, i: nat, j: nat)
    requires g.Valid() && i < |GridXs(g)| && j < |GridYs(g)|
    ensures GridXs(g)[i] == g.min.x + g.spacingX / 2.0 + (i as real) * g.spacingX && GridXs(g)[i] < g.max.x
    ensures GridYs(g)[j] == g.min.y + g.spacingY / 2.0 + (j as real) * g.spacingY && GridYs(g)[j] < g.max.y
  {
  }

  /** `compute_purge_tower_centers`: fails when there are fewer candidates than ranges;
      otherwise range i gets candidate i. The previous list is replaced, not extended. */
  function PurgeTowerCenters(g: PurgeGrid, ranges: seq<Range>): (r: Result<seq<CuttingLayer.PurgeCenter>>)
    requires g.Valid()
    ensures r.Err? <==> |Candidates(g)| < |ranges|
    ensures r.Ok? ==> (|r.value| == |ranges| &&
      forall i :: 0 <= i < |ranges| ==> r.value[i] == CuttingLayer.PurgeCenter(ranges[i], Candidates(g)[i]))
  {
    var c := Candidates(g);
    if |c| < |ranges| then Err(NotEnoughPurgeCenters)
    else Ok(seq(|ranges|, i requires 0 <= i < |ranges| => CuttingLayer.PurgeCenter(ranges[i], c[i])))
  }

  /** A position below m·n is row j, column i of a grid with n columns and m rows. */
  lemma Split(k: nat, n: nat, m: nat) returns (j: nat, i: nat)
    requires k < m * n
    ensures k == j * n + i && i < n && j < m
  {
    DivBound(k, n, m);
    j, i := k / n, k % n;
  }

  /** Row-major positions are ordered by row first, then by column. */
  lemma RowMajorOrder(ja: nat, ia: nat, jb: nat, ib: nat, n: nat)
    requires ia < n && ib < n && ja * n + ia < jb * n + ib
    ensures ja < jb || (ja == jb && ia < ib)
  {
    if ja > jb {
      MulSucc(jb, n);
      MulLe(jb + 1, ja, n);
    }
  }

  /** Two grid cells, the second in a later row or later in the same row, lie at different points. */
  lemma CellsDistinct(g: PurgeGrid, ia: nat, ja: nat, ib: nat, jb: nat)
    requires g.Valid() && ia < |GridXs(g)| && ib < |GridXs(g)| && ja < |GridYs(g)| && jb < |GridYs(g)|
    requires ja < jb || (ja == jb && ia < ib)
    ensures Point(GridXs(g)[ia], GridYs(g)[ja]) != Point(GridXs(g)[ib], GridYs(g)[jb])
  {
    if ja == jb {
      ProgressionIncreasing(g.min.x + g.spacingX / 2.0, g.spacingX, g.max.x, true, ia, ib);
    } else {
      ProgressionIncreasing(g.min.y + g.spacingY / 2.0, g.spacingY, g.max.y, true, ja, jb);
    }
  }

  /** No two candidates coincide. */
  lemma CandidatesDistinct(g: PurgeGrid, a: nat, b: nat)
    requires g.Valid() && a < b < |Candidates(g)|
    ensures Candidates(g)[a] != Candidates(g)[b]
  {
    CandidatesCount(g);
    var n, m := |GridXs(g)|, |GridYs(g)|;
    var ja, ia := Split(a, n, m);
    var jb, ib := Split(b, n, m);
    RowMajorOrder(ja, ia, jb, ib, n);
    CandidateAt(g, ja, ia);
    CandidateAt(g, jb, ib);
    CellsDistinct(g, ia, ja, ib, jb);
  }

  /** Every range gets its own tower position. */
  lemma PurgeTowerCentersDistinct(g: PurgeGrid, ranges: seq<Range>)
    requires g.Valid() && PurgeTowerCenters(g, ranges).Ok?
    ensures var cs := PurgeTowerCenters(g, ranges).value;
      forall i, j :: 0 <= i < j < |cs| ==> cs[i].center != cs[j].center
  {
    forall i, j | 0 <= i < j < |ranges| ensures Candidates(g)[i] != Candidates(g)[j] {
      CandidatesDistinct(g, i, j);
    }
  }

  // ---------------------------------------------------------------- layers

  /** The build parameters of `slice`. */
  datatype Settings = Settings(layerHeight: real, beadWidth: real, numWalls: int, density: real)
  {
    /** The z loop advances, and the infill scan loop too when infill is asked for. */
    predicate Valid() {
      layerHeight > 0.0 && (density > 0.0 ==> beadWidth > 0.0)
    }
  }

  /** A new layer for one slice, with walls when `num_walls > 0` and infill when the density is
      positive. */
  function BuildLayer(kernel: Kernel, g: PurgeGrid, centers: seq<CuttingLayer.PurgeCenter>, st: Settings, s: Slice): CuttingLayer.Layer
    requires st.Valid()
  {
    var l := CuttingLayer.NewLayer(s.outline, s.z, st.beadWidth, centers, g.sizeX, g.sizeY);
    var l1 := if st.numWalls > 0 then CuttingLayer.GenerateWalls(kernel, l, st.numWalls) else l;
    if st.density > 0.0 then CuttingLayer.GenerateInfill(kernel, l1, st.density) else l1
  }

  /** The layers `generate_paths` appends, and the model bottom it records. */
  datatype Build = Build(layers: seq<CuttingLayer.Layer>, bottom: real)

  function GeneratePaths(kernel: Kernel, g: PurgeGrid, centers: seq<CuttingLayer.PurgeCenter>, st: Settings,
                         minZ: real, maxZ: real): Build
    requires st.Valid()
  {
    var run := SliceObject(kernel.crossSection, minZ, maxZ, st.layerHeight);
    Build(seq(|run.slices|, k requires 0 <= k < |run.slices| => BuildLayer(kernel, g, centers, st, run.slices[k])), run.bottom)
  }

  /** One layer per non-empty cross-section, at strictly increasing heights within
      [min_z, max_z], each with that cross-section as outline, no connected path yet and the
      shared tower centers; without walls asked for it has none, otherwise `num_walls`; the
      bottom is the first layer's height. */
  lemma GeneratePathsSpec(kernel: Kernel, g: PurgeGrid, centers: seq<CuttingLayer.PurgeCenter>, st: Settings,
                          minZ: real, maxZ: real)
    requires st.Valid()
    ensures var b := GeneratePaths(kernel, g, centers, st, minZ, maxZ); var ls := b.layers;
      && (forall k :: 0 <= k < |ls| ==>
            && minZ <= ls[k].z <= maxZ
            && ls[k].outline == kernel.crossSection(ls[k].z) && |ls[k].outline| > 0
            && ls[k].connected == [] && ls[k].purgeCenters == centers
            && |ls[k].walls| == (if st.numWalls > 0 then st.numWalls else 0))
      && (forall i, j :: 0 <= i < j < |ls| ==> ls[i].z < ls[j].z)
      && (|ls| > 0 ==> b.bottom == ls[0].z)
  {
    var run := SliceObject(kernel.crossSection, minZ, maxZ, st.layerHeight);
    SliceObjectSpec(kernel.crossSection, minZ, maxZ, st.layerHeight);
    var ls := GeneratePaths(kernel, g, centers, st, minZ, maxZ).layers;
    forall k | 0 <= k < |ls|
      ensures ls[k].z == run.slices[k].z && ls[k].outline == run.slices[k].outline
      ensures ls[k].connected == [] && ls[k].purgeCenters == centers
      ensures |ls[k].walls| == (if st.numWalls > 0 then st.numWalls else 0)
    {
      var s := run.slices[k];
      var l := CuttingLayer.NewLayer(s.outline, s.z, st.beadWidth, centers, g.sizeX, g.sizeY);
      if st.numWalls > 0 {
        CuttingLayer.GenerateWallsFromEmpty(kernel, l, st.numWalls);
      }
    }
  }

  /** `cut_into_ranges` on every layer. */
  function CutAll(kernel: Kernel, ls: seq<CuttingLayer.Layer>, desired: seq<Range>): (r: seq<CuttingLayer.Layer>)
    ensures |r| == |ls|
  {
    seq(|ls|, k requires 0 <= k < |ls| => CuttingLayer.CutIntoRanges(kernel, ls[k], desired))
  }

  /** `connect_paths` on every layer, in order, as written or with the corrected routing; the
      first failure stops the build. */
  function ConnectAll(kernel: Kernel, ls: seq<CuttingLayer.Layer>, resumeAfterTower: bool): Result<seq<CuttingLayer.Layer>> {
    AllOk(Attempts(kernel, ls, resumeAfterTower))
  }

  /** The outcome of routing each layer. */
  function Attempts(kernel: Kernel, ls: seq<CuttingLayer.Layer>, resumeAfterTower: bool): (r: seq<Result<CuttingLayer.Layer>>)
    ensures |r| == |ls| && forall k :: 0 <= k < |ls| ==> r[k] == CuttingLayer.Route(kernel, ls[k], resumeAfterTower)
  {
    seq(|ls|, k requires 0 <= k < |ls| => CuttingLayer.Route(kernel, ls[k], resumeAfterTower))
  }

  /** Connecting all layers, either way, fails exactly when some layer lacks a purge-tower
      center for one of its ranges. */
  lemma ConnectAllFails(kernel: Kernel, ls: seq<CuttingLayer.Layer>, resumeAfterTower: bool)
    ensures ConnectAll(kernel, ls, resumeAfterTower).Err? <==> exists k :: 0 <= k < |ls| && CuttingLayer.LacksCenter(ls[k])
  {
    var rs := Attempts(kernel, ls, resumeAfterTower);
    AllOkFails(rs);
    if AllOk(rs).Err? {
      var k :| 0 <= k < |rs| && rs[k].Err?;
      CuttingLayer.RouteFails(kernel, ls[k], resumeAfterTower);
    }
    if exists k :: 0 <= k < |ls| && CuttingLayer.LacksCenter(ls[k]) {
      var k :| 0 <= k < |ls| && CuttingLayer.LacksCenter(ls[k]);
      CuttingLayer.RouteFails(kernel, ls[k], resumeAfterTower);
      assert rs[k].Err?;
    }
  }

  /** When connecting all layers succeeds, layer k is layer k routed: its old connected list is
      kept as a prefix and nothing else about it changes. */
  lemma ConnectAllAt(kernel: Kernel, ls: seq<CuttingLayer.Layer>, resumeAfterTower: bool, k: nat)
    requires ConnectAll(kernel, ls, resumeAfterTower).Ok? && k < |ls|
    ensures var r := ConnectAll(kernel, ls, resumeAfterTower).value;
      && |r| == |ls|
      && CuttingLayer.Route(kernel, ls[k], resumeAfterTower) == Ok(r[k])
      && r[k] == ls[k].(connected := r[k].connected)
      && |r[k].connected| >= |ls[k].connected| && r[k].connected[..|ls[k].connected|] == ls[k].connected
  {
    var rs := Attempts(kernel, ls, resumeAfterTower);
    AllOkAt(rs, k);
    CuttingLayer.RouteKeeps(kernel, ls[k], resumeAfterTower);
  }

  /** `connect_paths` on every layer as written fails exactly when a layer lacks a center, and
      exactly when the corrected routing fails; on success layer k is layer k routed as written,
      equal to its corrected routing except that some travels leave from another point. */
  lemma ConnectAllSpec(kernel: Kernel, ls: seq<CuttingLayer.Layer>)
    ensures var r := ConnectAll(kernel, ls, false); var q := ConnectAll(kernel, ls, true);
      && (r.Err? <==> exists k :: 0 <= k < |ls| && CuttingLayer.LacksCenter(ls[k]))
      && (r.Ok? <==> q.Ok?)
      && (r.Ok? ==> |r.value| == |ls| && |q.value| == |ls| && forall k :: 0 <= k < |ls| ==>
            && CuttingLayer.ConnectPaths(kernel, ls[k]) == Ok(r.value[k])
            && r.value[k] == q.value[k].(connected := r.value[k].connected)
            && Router.SameUpToTravelStarts(r.value[k].connected, q.value[k].connected))
  {
    ConnectAllFails(kernel, ls, false);
    ConnectAllFails(kernel, ls, true);
    var r, q := ConnectAll(kernel, ls, false), ConnectAll(kernel, ls, true);
    if r.Ok? {
      if |ls| == 0 {
        assert r.value == [] && q.value == [];
      }
      forall k | 0 <= k < |ls|
        ensures |r.value| == |ls| && |q.value| == |ls|
        ensures CuttingLayer.ConnectPaths(kernel, ls[k]) == Ok(r.value[k])
        ensures r.value[k] == q.value[k].(connected := r.value[k].connected)
        ensures Router.SameUpToTravelStarts(r.value[k].connected, q.value[k].connected)
      {
        ConnectAllAt(kernel, ls, false, k);
        ConnectAllAt(kernel, ls, true, k);
        CuttingLayer.ConnectPathsAgree(kernel, ls[k]);
      }
    }
  }

  /** With the corrected routing, every layer that had nothing connected becomes one threaded
      tour from (-8, 10). */
  lemma ConnectAllResumedSpec(kernel: Kernel, ls: seq<CuttingLayer.Layer>)
    requires ConnectAll(kernel, ls, true).Ok?
    ensures var r := ConnectAll(kernel, ls, true).value;
      && |r| == |ls|
      && forall k :: 0 <= k < |ls| && ls[k].connected == [] ==>
           Router.Threaded(Router.Always, Router.RouteStart, r[k].connected)
  {
    var r := ConnectAll(kernel, ls, true).value;
    if |ls| == 0 {
      assert r == [];
    } else {
      ConnectAllAt(kernel, ls, true, 0);
    }
    forall k | 0 <= k < |ls| && ls[k].connected == []
      ensures |r| == |ls| && Router.Threaded(Router.Always, Router.RouteStart, r[k].connected)
    {
      ConnectAllAt(kernel, ls, true, k);
      CuttingLayer.ConnectPathsResumedThreaded(kernel, ls[k]);
    }
  }

  /** `center_paths`: every layer moved so that the object's xy extent is centred on the
      center point and the bottom layer sits 0.2 above the bed. */
  function CenterPaths(ls: seq<CuttingLayer.Layer>, center: Point, objMin: Vec3, objMax: Vec3, bottom: real): seq<CuttingLayer.Layer> {
    var xy := Point(center.x - (objMax.x - objMin.x) / 2.0, center.y - (objMax.y - objMin.y) / 2.0);
    seq(|ls|, k requires 0 <= k < |ls| => CuttingLayer.TranslatePaths(ls[k], xy, -bottom + FirstLayerHeight))
  }

  /** Every layer is lifted by 0.2 minus the bottom, so the bottom layer lands at 0.2, and all
      its points move by the center minus half the object's xy extent; paths keep their
      number, order, ranges and flags. */
  lemma CenterPathsSpec(ls: seq<CuttingLayer.Layer>, center: Point, objMin: Vec3, objMax: Vec3, bottom: real)
    ensures var r := CenterPaths(ls, center, objMin, objMax, bottom);
      var dx := center.x - (objMax.x - objMin.x) / 2.0; var dy := center.y - (objMax.y - objMin.y) / 2.0;
      && |r| == |ls|
      && (forall k :: 0 <= k < |ls| ==> r[k].z == ls[k].z - bottom + 0.2)
      && (|ls| > 0 && ls[0].z == bottom ==> r[0].z == 0.2)
      && (forall k :: 0 <= k < |ls| ==> (|r[k].connected| == |ls[k].connected| &&
            forall i :: 0 <= i < |ls[k].connected| ==>
              r[k].connected[i].range == ls[k].connected[i].range &&
              r[k].connected[i].extrusion == ls[k].connected[i].extrusion &&
              |r[k].connected[i].points| == |ls[k].connected[i].points| &&
              forall j :: 0 <= j < |ls[k].connected[i].points| ==>
                r[k].connected[i].points[j] ==
                  Point(ls[k].connected[i].points[j].x + dx, ls[k].connected[i].points[j].y + dy)))
  {
  }

  // ---------------------------------------------------------------- the whole build

  /** `slice` with either routing: towers, layers, cutting, routing, centering, in that order. */
  function Pipeline(kernel: Kernel, g: PurgeGrid, st: Settings, ranges: seq<Range>, objMin: Vec3, objMax: Vec3,
                    center: Point, resumeAfterTower: bool): Result<seq<CuttingLayer.Layer>>
    requires g.Valid() && st.Valid()
  {
    var centers :- PurgeTowerCenters(g, ranges);
    var b := GeneratePaths(kernel, g, centers, st, objMin.z, objMax.z);
    var connected :- ConnectAll(kernel, CutAll(kernel, b.layers, ranges), resumeAfterTower);
    Ok(CenterPaths(connected, center, objMin, objMax, b.bottom))
  }

  /** `slice` of slicer.py as written. */
  function Slice(kernel: Kernel, g: PurgeGrid, st: Settings, ranges: seq<Range>, objMin: Vec3, objMax: Vec3,
                 center: Point): Result<seq<CuttingLayer.Layer>>
    requires g.Valid() && st.Valid()
  {
    Pipeline(kernel, g, st, ranges, objMin, objMax, center, false)
  }

  /** `slice` with each range's routing resumed from the end of its purge tower. */
  function SliceResumed(kernel: Kernel, g: PurgeGrid, st: Settings, ranges: seq<Range>, objMin: Vec3, objMax: Vec3,
                        center: Point): Result<seq<CuttingLayer.Layer>>
    requires g.Valid() && st.Valid()
  {
    Pipeline(kernel, g, st, ranges, objMin, objMax, center, true)
  }

  /** The material split at height z reports a range that was not asked for. */
  predicate UnrequestedRange(kernel: Kernel, z: real, ranges: seq<Range>) {
    exists i :: 0 <= i < |kernel.sliceMaterial(z, ranges)| && kernel.sliceMaterial(z, ranges)[i].range !in ranges
  }

  /** A freshly built layer sits at its slice's height, shares the tower centers and has no
      ranged entry yet. */
  lemma BuildLayerFresh(kernel: Kernel, g: PurgeGrid, centers: seq<CuttingLayer.PurgeCenter>, st: Settings, s: Slice)
    requires st.Valid()
    ensures var l := BuildLayer(kernel, g, centers, st, s);
      && l.z == s.z && l.purgeCenters == centers && l.connected == []
      && l.rangedWalls == [] && l.rangedInfill == []
  {
  }

  /** Cutting a layer without ranged entries leaves it lacking a center exactly when the
      material split reports a range that was not asked for, given centers for exactly the
      asked ranges. */
  lemma FreshCutLacksCenter(kernel: Kernel, l: CuttingLayer.Layer, ranges: seq<Range>)
    requires l.rangedWalls == [] && l.rangedInfill == []
    requires |l.purgeCenters| == |ranges| && forall i :: 0 <= i < |ranges| ==> l.purgeCenters[i].range == ranges[i]
    ensures CuttingLayer.LacksCenter(CuttingLayer.CutIntoRanges(kernel, l, ranges)) <==> UnrequestedRange(kernel, l.z, ranges)
  {
    var cut := CuttingLayer.CutIntoRanges(kernel, l, ranges);
    var parts := kernel.sliceMaterial(l.z, ranges);
    var rs := Router.RangesOf(cut.rangedWalls);
    FreshCutRanges(kernel, l, ranges);
    if UnrequestedRange(kernel, l.z, ranges) {
      var i :| 0 <= i < |parts| && parts[i].range !in ranges;
      CentersFind(l.purgeCenters, ranges, rs[i]);
      assert CuttingLayer.FindCenter(l.purgeCenters, rs[i]).None?;
    }
    if CuttingLayer.LacksCenter(cut) {
      var i :| 0 <= i < |rs| && CuttingLayer.FindCenter(l.purgeCenters, rs[i]).None?;
      CentersFind(l.purgeCenters, ranges, rs[i]);
      assert parts[i].range !in ranges;
    }
  }

  /** The ranges a fresh layer is routed over after cutting are the ranges of the material
      split, and it has ranged entries exactly when the split reports some range. */
  lemma FreshCutRanges(kernel: Kernel, l: CuttingLayer.Layer, ranges: seq<Range>)
    requires l.rangedWalls == [] && l.rangedInfill == []
    ensures var cut := CuttingLayer.CutIntoRanges(kernel, l, ranges); var parts := kernel.sliceMaterial(l.z, ranges);
      var rs := Router.RangesOf(cut.rangedWalls);
      && |rs| == |parts| && (forall i :: 0 <= i < |parts| ==> rs[i] == parts[i].range)
      && (|cut.rangedWalls| == 0 && |cut.rangedInfill| == 0 <==> |parts| == 0)
  {
    CuttingLayer.CutIntoRangesSpec(kernel, l, ranges);
  }

  /** With one center per asked range, a range has no center exactly when it was not asked for. */
  lemma CentersFind(centers: seq<CuttingLayer.PurgeCenter>, ranges: seq<Range>, r: Range)
    requires |centers| == |ranges| && forall i :: 0 <= i < |ranges| ==> centers[i].range == ranges[i]
    ensures CuttingLayer.FindCenter(centers, r).None? <==> r !in ranges
  {
    if r in ranges {
      var j :| 0 <= j < |ranges| && ranges[j] == r;
      assert centers[j].range == r;
    }
  }

  /** The build, either way, fails exactly when the grid has fewer candidates than ranges or
      the material split of some layer's height reports a range that was not asked for (its
      purge tower has no center). */
  lemma PipelineFails(kernel: Kernel, g: PurgeGrid, st: Settings, ranges: seq<Range>, objMin: Vec3, objMax: Vec3,
                      center: Point, resumeAfterTower: bool)
    requires g.Valid() && st.Valid()
    ensures var zs := SliceObject(kernel.crossSection, objMin.z, objMax.z, st.layerHeight).slices;
      Pipeline(kernel, g, st, ranges, objMin, objMax, center, resumeAfterTower).Err? <==>
        || |Candidates(g)| < |ranges|
        || exists k :: 0 <= k < |zs| && UnrequestedRange(kernel, zs[k].z, ranges)
  {
    var zs := SliceObject(kernel.crossSection, objMin.z, objMax.z, st.layerHeight).slices;
    if |Candidates(g)| >= |ranges| {
      var centers := PurgeTowerCenters(g, ranges).value;
      var ls := GeneratePaths(kernel, g, centers, st, objMin.z, objMax.z).layers;
      var cut := CutAll(kernel, ls, ranges);
      ConnectAllFails(kernel, cut, resumeAfterTower);
      forall k | 0 <= k < |zs|
        ensures CuttingLayer.LacksCenter(cut[k]) <==> UnrequestedRange(kernel, zs[k].z, ranges)
      {
        BuildLayerFresh(kernel, g, centers, st, zs[k]);
        assert ls[k] == BuildLayer(kernel, g, centers, st, zs[k]);
        FreshCutLacksCenter(kernel, ls[k], ranges);
      }
    }
  }

  /** Centering two lists of layers that are equal except for travel starts keeps them so. */
  lemma CenteredAgree(ls: seq<CuttingLayer.Layer>, ms: seq<CuttingLayer.Layer>, center: Point, objMin: Vec3, objMax: Vec3,
                      bottom: real)
    requires |ls| == |ms|
    requires forall k :: 0 <= k < |ls| ==>
      ls[k] == ms[k].(connected := ls[k].connected) && Router.SameUpToTravelStarts(ls[k].connected, ms[k].connected)
    ensures var r := CenterPaths(ls, center, objMin, objMax, bottom); var q := CenterPaths(ms, center, objMin, objMax, bottom);
      && |r| == |q|
      && forall k :: 0 <= k < |r| ==>
           r[k] == q[k].(connected := r[k].connected) && Router.SameUpToTravelStarts(r[k].connected, q[k].connected)
  {
    var xy := Point(center.x - (objMax.x - objMin.x) / 2.0, center.y - (objMax.y - objMin.y) / 2.0);
    forall k | 0 <= k < |ls|
      ensures Router.SameUpToTravelStarts(ShiftPaths(ls[k].connected, xy), ShiftPaths(ms[k].connected, xy))
    {
      ShiftSameUpToTravelStarts(ls[k].connected, ms[k].connected, xy);
    }
  }

  /** Translation keeps two lists equal up to travel starts. */
  lemma ShiftSameUpToTravelStarts(a: seq<Path>, b: seq<Path>, v: Point)
    requires Router.SameUpToTravelStarts(a, b)
    ensures Router.SameUpToTravelStarts(ShiftPaths(a, v), ShiftPaths(b, v))
  {
    var sa, sb := ShiftPaths(a, v), ShiftPaths(b, v);
    forall i | 0 <= i < |sa|
      ensures sa[i] == sb[i] ||
        (sa[i] == Travel(First(sa[i].points), Last(sb[i].points)) && sb[i] == Travel(First(sb[i].points), Last(sb[i].points)))
    {
      if a[i] != b[i] {
        ShiftTravel(First(a[i].points), Last(b[i].points), v);
        ShiftTravel(First(b[i].points), Last(b[i].points), v);
      }
    }
  }

  /** A moved travel is the travel between the moved points. */
  lemma ShiftTravel(p: Point, q: Point, v: Point)
    ensures ShiftPath(Travel(p, q), v) == Travel(Shift(p, v), Shift(q, v))
  {
    assert ShiftPath(Travel(p, q), v).points == [Shift(p, v), Shift(q, v)];
  }

  /** The build, either way, fails when the grid has fewer candidates than ranges; when it
      succeeds, its layers climb strictly from 0.2 above the bed. */
  lemma PipelineHeights(kernel: Kernel, g: PurgeGrid, st: Settings, ranges: seq<Range>, objMin: Vec3, objMax: Vec3,
                        center: Point, resumeAfterTower: bool)
    requires g.Valid() && st.Valid()
    ensures |Candidates(g)| < |ranges| ==> Pipeline(kernel, g, st, ranges, objMin, objMax, center, resumeAfterTower).Err?
    ensures var r := Pipeline(kernel, g, st, ranges, objMin, objMax, center, resumeAfterTower);
      r.Ok? ==>
        && (|r.value| > 0 ==> r.value[0].z == 0.2)
        && (forall i, j :: 0 <= i < j < |r.value| ==> r.value[i].z < r.value[j].z)
  {
    var r := Pipeline(kernel, g, st, ranges, objMin, objMax, center, resumeAfterTower);
    if r.Ok? {
      var centers := PurgeTowerCenters(g, ranges).value;
      var b := GeneratePaths(kernel, g, centers, st, objMin.z, objMax.z);
      GeneratePathsSpec(kernel, g, centers, st, objMin.z, objMax.z);
      RoutedLayers(kernel, b.layers, ranges, resumeAfterTower);
      var connected := ConnectAll(kernel, CutAll(kernel, b.layers, ranges), resumeAfterTower).value;
      assert r.value == CenterPaths(connected, center, objMin, objMax, b.bottom);
      CenterPathsSpec(connected, center, objMin, objMax, b.bottom);
    }
  }

  /** `slice` as written fails when the grid has fewer candidates than ranges and otherwise
      exactly when the corrected build fails; when it succeeds, its layers climb strictly from
      0.2 above the bed, and layer k equals the corrected build's layer k except that some
      travels leave from another point. */
  lemma SliceSpec(kernel: Kernel, g: PurgeGrid, st: Settings, ranges: seq<Range>, objMin: Vec3, objMax: Vec3, center: Point)
    requires g.Valid() && st.Valid()
    ensures |Candidates(g)| < |ranges| ==> Slice(kernel, g, st, ranges, objMin, objMax, center).Err?
    ensures var r := Slice(kernel, g, st, ranges, objMin, objMax, center);
      r.Ok? ==>
        && (|r.value| > 0 ==> r.value[0].z == 0.2)
        && (forall i, j :: 0 <= i < j < |r.value| ==> r.value[i].z < r.value[j].z)
    ensures var r := Slice(kernel, g, st, ranges, objMin, objMax, center);
      var q := SliceResumed(kernel, g, st, ranges, objMin, objMax, center);
      && (r.Ok? <==> q.Ok?)
      && (r.Ok? ==> |r.value| == |q.value| && forall k :: 0 <= k < |r.value| ==>
            r.value[k] == q.value[k].(connected := r.value[k].connected) &&
            Router.SameUpToTravelStarts(r.value[k].connected, q.value[k].connected))
  {
    PipelineHeights(kernel, g, st, ranges, objMin, objMax, center, false);
    if |Candidates(g)| >= |ranges| {
      var centers := PurgeTowerCenters(g, ranges).value;
      var b := GeneratePaths(kernel, g, centers, st, objMin.z, objMax.z);
      var cut := CutAll(kernel, b.layers, ranges);
      ConnectAllSpec(kernel, cut);
      var a, c := ConnectAll(kernel, cut, false), ConnectAll(kernel, cut, true);
      if a.Ok? {
        CenteredAgree(a.value, c.value, center, objMin, objMax, b.bottom);
      }
    }
  }

  /** The corrected build: when it succeeds, each layer holds one continuous tour that starts
      at (-8, 10) moved by the centering shift. */
  lemma SliceResumedSpec(kernel: Kernel, g: PurgeGrid, st: Settings, ranges: seq<Range>, objMin: Vec3, objMax: Vec3, center: Point)
    requires g.Valid() && st.Valid()
    ensures var r := SliceResumed(kernel, g, st, ranges, objMin, objMax, center);
      var shift := Point(center.x - (objMax.x - objMin.x) / 2.0, center.y - (objMax.y - objMin.y) / 2.0);
      r.Ok? ==> forall k :: 0 <= k < |r.value| ==>
        Router.Threaded(Router.Always, Shift(Router.RouteStart, shift), r.value[k].connected)
  {
    var r := SliceResumed(kernel, g, st, ranges, objMin, objMax, center);
    if r.Ok? {
      var centers := PurgeTowerCenters(g, ranges).value;
      var b := GeneratePaths(kernel, g, centers, st, objMin.z, objMax.z);
      GeneratePathsSpec(kernel, g, centers, st, objMin.z, objMax.z);
      RoutedLayersResumed(kernel, b.layers, ranges);
      var connected := ConnectAll(kernel, CutAll(kernel, b.layers, ranges), true).value;
      assert r.value == CenterPaths(connected, center, objMin, objMax, b.bottom);
      CenteredThreaded(connected, center, objMin, objMax, b.bottom);
    }
  }

  /** Cutting and routing fresh layers, either way, keeps their heights. */
  lemma RoutedLayers(kernel: Kernel, ls: seq<CuttingLayer.Layer>, ranges: seq<Range>, resumeAfterTower: bool)
    requires ConnectAll(kernel, CutAll(kernel, ls, ranges), resumeAfterTower).Ok?
    ensures var c := ConnectAll(kernel, CutAll(kernel, ls, ranges), resumeAfterTower).value;
      && |c| == |ls|
      && forall k :: 0 <= k < |ls| ==> c[k].z == ls[k].z
  {
    var cut := CutAll(kernel, ls, ranges);
    var c := ConnectAll(kernel, cut, resumeAfterTower).value;
    if |ls| == 0 {
      assert c == [];
    }
    forall k | 0 <= k < |ls| ensures |c| == |ls| && c[k].z == ls[k].z {
      CuttingLayer.CutIntoRangesSpec(kernel, ls[k], ranges);
      ConnectAllAt(kernel, cut, resumeAfterTower, k);
    }
  }

  /** Cutting and routing fresh layers with the corrected routing leaves each with one threaded
      tour from (-8, 10). */
  lemma RoutedLayersResumed(kernel: Kernel, ls: seq<CuttingLayer.Layer>, ranges: seq<Range>)
    requires forall k :: 0 <= k < |ls| ==> ls[k].connected == []
    requires ConnectAll(kernel, CutAll(kernel, ls, ranges), true).Ok?
    ensures var c := ConnectAll(kernel, CutAll(kernel, ls, ranges), true).value;
      && |c| == |ls|
      && forall k :: 0 <= k < |ls| ==> Router.Threaded(Router.Always, Router.RouteStart, c[k].connected)
  {
    var cut := CutAll(kernel, ls, ranges);
    forall k | 0 <= k < |cut| ensures cut[k].connected == [] {
      CuttingLayer.CutIntoRangesSpec(kernel, ls[k], ranges);
    }
    ConnectAllResumedSpec(kernel, cut);
  }

  /** Centering moves every tour together with its start point. */
  lemma CenteredThreaded(ls: seq<CuttingLayer.Layer>, center: Point, objMin: Vec3, objMax: Vec3, bottom: real)
    requires forall k :: 0 <= k < |ls| ==> Router.Threaded(Router.Always, Router.RouteStart, ls[k].connected)
    ensures var r := CenterPaths(ls, center, objMin, objMax, bottom);
      var shift := Point(center.x - (objMax.x - objMin.x) / 2.0, center.y - (objMax.y - objMin.y) / 2.0);
      forall k :: 0 <= k < |r| ==> Router.Threaded(Router.Always, Shift(Router.RouteStart, shift), r[k].connected)
  {
    var r := CenterPaths(ls, center, objMin, objMax, bottom);
    var shift := Point(center.x - (objMax.x - objMin.x) / 2.0, center.y - (objMax.y - objMin.y) / 2.0);
    forall k | 0 <= k < |r|
      ensures Router.Threaded(Router.Always, Shift(Router.RouteStart, shift), r[k].connected)
    {
      assert r[k].connected == ShiftPaths(ls[k].connected, shift);
      Router.ThreadedShift(Router.Always, Router.RouteStart, ls[k].connected, shift);
    }
  }
}
