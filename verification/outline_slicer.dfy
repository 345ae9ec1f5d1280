/** The outline slicer's build pipeline (outline_slicer.py): one outline layer per non-empty
    cross-section, concentric walls per material range with the range order alternating from
    layer to layer, tolerance-aware routing, centering on the bed, and the global bounds. */
module OutlineSlicer {
  import opened Geometry
  import opened Wrappers
  import opened Layering
  import Router
  import Infill
  import OutlineLayer

  /** The printer-bed midpoint as the constructor computes it: half the bed's extent along x and
      along y (the bed minimum is not added back). */
  function CenterPoint(bedMin: Point, bedMax: Point): (c: Point)
    ensures c.x + c.x == bedMax.x - bedMin.x && c.y + c.y == bedMax.y - bedMin.y
  {
    Point((bedMax.x - bedMin.x) / 2.0, (bedMax.y - bedMin.y) / 2.0)
  }

  /** The settings the pipeline reads. `fill` is the solid-fill choice every new layer gets. */
  datatype Settings = Settings(layerHeight: real, beadWidth: real, fill: bool, translation: Option<Point>)
  {
    /** The z loop advances, and the fill scan loop too when solid fill is asked for. */
    predicate Valid() {
      layerHeight > 0.0 && (fill ==> beadWidth > 0.0)
    }
  }

  /** The layers `generate_outlines` appends, and the model bottom it records. */
  datatype Build = Build(layers: seq<OutlineLayer.Layer>, bottom: real)

  function LayerOf(s: Slice, st: Settings): OutlineLayer.Layer {
    OutlineLayer.NewLayer(s.outline, s.z, st.beadWidth, s.num, st.fill)
  }

  /** `generate_outlines`: a layer per non-empty cross-section, numbered from 1. */
  function GenerateOutlines(kernel: Kernel, st: Settings, minZ: real, maxZ: real): Build
    requires st.Valid()
  {
    var run := SliceObject(kernel.crossSection, minZ, maxZ, st.layerHeight);
    Build(seq(|run.slices|, k requires 0 <= k < |run.slices| => LayerOf(run.slices[k], st)), run.bottom)
  }

  /** Layer k is numbered k + 1, lies within [min_z, max_z] above the previous one, has the
      non-empty cross-section at its height as outline and starts with nothing; the bottom is the
      first layer's height. */
  lemma GenerateOutlinesSpec(kernel: Kernel, st: Settings, minZ: real, maxZ: real)
    requires st.Valid()
    ensures var b := GenerateOutlines(kernel, st, minZ, maxZ); var ls := b.layers;
      && (forall k :: 0 <= k < |ls| ==> (
            && ls[k].layerNum == k + 1 && minZ <= ls[k].z <= maxZ
            && ls[k].outline == kernel.crossSection(ls[k].z) && |ls[k].outline| > 0
            && ls[k].rangedWalls == [] && ls[k].connected == []
            && ls[k].beadWidth == st.beadWidth && ls[k].fillWithInfill == st.fill))
      && (forall i, j :: 0 <= i < j < |ls| ==> ls[i].z < ls[j].z)
      && (|ls| > 0 ==> b.bottom == ls[0].z)
  {
    SliceObjectSpec(kernel.crossSection, minZ, maxZ, st.layerHeight);
  }

  /** `generate_paths`: walls of every layer, with the reported ranges reversed on even-numbered
      layers. */
  function GeneratePaths(kernel: Kernel, ls: seq<OutlineLayer.Layer>, ranges: seq<Range>): (r: seq<OutlineLayer.Layer>)
    requires forall k :: 0 <= k < |ls| ==> (ls[k].fillWithInfill ==> ls[k].beadWidth > 0.0)
    ensures |r| == |ls|
  {
    seq(|ls|, k requires 0 <= k < |ls| => OutlineLayer.GenerateWalls(kernel, ls[k], ranges, ls[k].layerNum % 2 == 0))
  }

  /** On layers numbered from 1, the range order alternates: layer k (numbered k + 1) lists the
      kernel's ranges in order when k is even and reversed when k is odd; nothing else changes. */
  lemma GeneratePathsAlternates(kernel: Kernel, ls: seq<OutlineLayer.Layer>, ranges: seq<Range>)
    requires forall k :: 0 <= k < |ls| ==> (ls[k].fillWithInfill ==> ls[k].beadWidth > 0.0)
    requires forall k :: 0 <= k < |ls| ==> ls[k].layerNum == k + 1 && ls[k].rangedWalls == []
    ensures var r := GeneratePaths(kernel, ls, ranges);
      forall k :: 0 <= k < |ls| ==>
        && OutlineLayer.InOrder(r[k].rangedWalls, kernel.sliceMaterial(ls[k].z, ranges), k % 2 == 1)
        && r[k] == ls[k].(rangedWalls := r[k].rangedWalls)
  {
    var r := GeneratePaths(kernel, ls, ranges);
    forall k | 0 <= k < |ls|
      ensures OutlineLayer.InOrder(r[k].rangedWalls, kernel.sliceMaterial(ls[k].z, ranges), k % 2 == 1)
      ensures r[k] == ls[k].(rangedWalls := r[k].rangedWalls)
    {
      LayerAlternates(kernel, ls[k], ranges, k);
    }
  }

  /** Layer number k + 1 gets its ranges reversed exactly when k is odd. */
  lemma LayerAlternates(kernel: Kernel, l: OutlineLayer.Layer, ranges: seq<Range>, k: nat)
    requires l.fillWithInfill ==> l.beadWidth > 0.0
    requires l.layerNum == k + 1 && l.rangedWalls == []
    ensures var g := OutlineLayer.GenerateWalls(kernel, l, ranges, l.layerNum % 2 == 0);
      && OutlineLayer.InOrder(g.rangedWalls, kernel.sliceMaterial(l.z, ranges), k % 2 == 1)
      && g == l.(rangedWalls := g.rangedWalls)
  {
    var reverse := l.layerNum % 2 == 0;
    assert reverse == (k % 2 == 1);
    OutlineLayer.GenerateWallsKeeps(kernel, l, ranges, reverse);
    OutlineLayer.GenerateWallsOrder(kernel, l, ranges, reverse);
    var g := OutlineLayer.GenerateWalls(kernel, l, ranges, reverse);
    assert g.rangedWalls[|l.rangedWalls|..] == g.rangedWalls;
  }

  /** `connect_paths` on every layer. */
  function ConnectPaths(ls: seq<OutlineLayer.Layer>): (r: seq<OutlineLayer.Layer>)
    ensures |r| == |ls|
  {
    seq(|ls|, k requires 0 <= k < |ls| => OutlineLayer.ConnectPaths(ls[k]))
  }

  /** The shift `center_paths` applies in the plane: the bed midpoint, plus the user's
      translation when one is set. */
  function PlanarShift(center: Point, translation: Option<Point>): (v: Point)
    ensures translation.None? ==> v == center
    ensures translation.Some? ==> v == Shift(center, translation.value)
  {
    match translation
    case None => center
    case Some(t) => Point(center.x + t.x, center.y + t.y)
  }

  /** `center_paths`: every layer shifted in the plane and lowered so the bottom layer sits one
      layer height above the bed. */
  function CenterPaths(ls: seq<OutlineLayer.Layer>, center: Point, st: Settings, bottom: real): (r: seq<OutlineLayer.Layer>)
    ensures |r| == |ls|
  {
    var v := PlanarShift(center, st.translation);
    seq(|ls|, k requires 0 <= k < |ls| => OutlineLayer.TranslatePaths(ls[k], v, -bottom + st.layerHeight))
  }

  /** `slice` followed by the centering: outlines, walls, routing, centering. */
  function Slice(kernel: Kernel, st: Settings, ranges: seq<Range>, minZ: real, maxZ: real, center: Point): seq<OutlineLayer.Layer>
    requires st.Valid()
  {
    var b := GenerateOutlines(kernel, st, minZ, maxZ);
    GenerateOutlinesSpec(kernel, st, minZ, maxZ);
    CenterPaths(ConnectPaths(GeneratePaths(kernel, b.layers, ranges)), center, st, b.bottom)
  }

  /** Walls and routing leave every height alone, and each layer becomes one threaded tour from
      (-8, 10). */
  lemma RoutedLayers(kernel: Kernel, ls: seq<OutlineLayer.Layer>, ranges: seq<Range>)
    requires forall k :: 0 <= k < |ls| ==> (ls[k].fillWithInfill ==> ls[k].beadWidth > 0.0)
    requires forall k :: 0 <= k < |ls| ==> ls[k].connected == []
    ensures var c := ConnectPaths(GeneratePaths(kernel, ls, ranges));
      forall k :: 0 <= k < |ls| ==>
        c[k].z == ls[k].z && Router.Threaded(Router.AboveTolerance, Router.RouteStart, c[k].connected)
  {
    var g := GeneratePaths(kernel, ls, ranges);
    forall k | 0 <= k < |ls| ensures g[k].z == ls[k].z && g[k].connected == [] {
      OutlineLayer.GenerateWallsKeeps(kernel, ls[k], ranges, ls[k].layerNum % 2 == 0);
    }
    forall k | 0 <= k < |ls|
      ensures ConnectPaths(g)[k].z == ls[k].z
      ensures Router.Threaded(Router.AboveTolerance, Router.RouteStart, ConnectPaths(g)[k].connected)
    {
      OutlineLayer.ConnectPathsSpec(g[k]);
    }
  }

  /** A whole build: its layers climb strictly, the first one layer height above the bed, and
      each is one threaded tour starting at (-8, 10) moved by the planar shift. */
  lemma SliceSpec(kernel: Kernel, st: Settings, ranges: seq<Range>, minZ: real, maxZ: real, center: Point)
    requires st.Valid()
    ensures var r := Slice(kernel, st, ranges, minZ, maxZ, center);
      var v := PlanarShift(center, st.translation);
      && (|r| > 0 ==> r[0].z == st.layerHeight)
      && (forall i, j :: 0 <= i < j < |r| ==> r[i].z < r[j].z)
      && (forall k :: 0 <= k < |r| ==>
            Router.Threaded(Router.AboveTolerance, Shift(Router.RouteStart, v), r[k].connected))
  {
    var b := GenerateOutlines(kernel, st, minZ, maxZ);
    GenerateOutlinesSpec(kernel, st, minZ, maxZ);
    RoutedLayers(kernel, b.layers, ranges);
    var c := ConnectPaths(GeneratePaths(kernel, b.layers, ranges));
    var r := Slice(kernel, st, ranges, minZ, maxZ, center);
    var v := PlanarShift(center, st.translation);
    assert r == CenterPaths(c, center, st, b.bottom);
    forall k | 0 <= k < |r|
      ensures r[k].z == b.layers[k].z - b.bottom + st.layerHeight
      ensures Router.Threaded(Router.AboveTolerance, Shift(Router.RouteStart, v), r[k].connected)
    {
      assert r[k].connected == ShiftPaths(c[k].connected, v);
      Router.ThreadedShift(Router.AboveTolerance, Router.RouteStart, c[k].connected, v);
    }
  }

  // ---------------------------------------------------------------- bounds

  /** Every connected point of every layer, layer by layer. */
  function AllPoints(ls: seq<OutlineLayer.Layer>): seq<Point>
    decreases |ls|
  {
    if |ls| == 0 then [] else OutlineLayer.PathPoints(ls[0].connected) + AllPoints(ls[1..])
  }

  /** The `for l in self.layers` loop of `get_bounds`, from `acc`. */
  function MergeLayers(acc: Infill.Bounds, ls: seq<OutlineLayer.Layer>): Infill.Bounds
    decreases |ls|
  {
    if |ls| == 0 then acc else MergeLayers(Infill.Merge(acc, OutlineLayer.GetBounds(ls[0])), ls[1..])
  }

  /** `get_bounds`: per-layer bounds merged, starting from (+inf, +inf) and (-inf, -inf). */
  function GetBounds(ls: seq<OutlineLayer.Layer>): Infill.Bounds {
    MergeLayers(Infill.NoBounds, ls)
  }

  lemma {:induction false} MergeLayersPoints(ps: seq<Point>, ls: seq<OutlineLayer.Layer>)
    ensures MergeLayers(Infill.BoundsOf(ps), ls) == Infill.BoundsOf(ps + AllPoints(ls))
    decreases |ls|
  {
    if |ls| == 0 {
      assert ps + AllPoints(ls) == ps;
    } else {
      var head := OutlineLayer.PathPoints(ls[0].connected);
      var rest := AllPoints(ls[1..]);
      Infill.BoundsOfAppend(ps, head);
      MergeLayersPoints(ps + head, ls[1..]);
      assert AllPoints(ls) == head + rest;
      assert ps + head + rest == ps + (head + rest);
      calc {
        MergeLayers(Infill.BoundsOf(ps), ls);
        MergeLayers(Infill.Merge(Infill.BoundsOf(ps), Infill.BoundsOf(head)), ls[1..]);
        MergeLayers(Infill.BoundsOf(ps + head), ls[1..]);
        Infill.BoundsOf(ps + head + rest);
      }
    }
  }

  /** Merging per-layer bounds gives the bounds of all connected points at once: infinite when
      no layer has a point; otherwise finite, enclosing every point, each bound attained. */
  lemma GetBoundsSpec(ls: seq<OutlineLayer.Layer>)
    ensures GetBounds(ls) == Infill.BoundsOf(AllPoints(ls))
    ensures var b := GetBounds(ls); var ps := AllPoints(ls);
      && (|ps| == 0 <==> b == Infill.NoBounds)
      && (|ps| > 0 ==>
            && b.Finite()
            && (forall i :: 0 <= i < |ps| ==> b.Holds(ps[i]))
            && (exists i :: 0 <= i < |ps| && ps[i].x == b.minX.v)
            && (exists i :: 0 <= i < |ps| && ps[i].x == b.maxX.v)
            && (exists i :: 0 <= i < |ps| && ps[i].y == b.minY.v)
            && (exists i :: 0 <= i < |ps| && ps[i].y == b.maxY.v))
  {
    MergeLayersPoints([], ls);
    assert [] + AllPoints(ls) == AllPoints(ls);
    Infill.BoundsOfSpec(AllPoints(ls));
  }
}
