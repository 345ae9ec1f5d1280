/** The G-code writer (gcode_writer.py) as a function from writer state and paths to an abstract
    command list, together with a small printer interpreter that says what those commands do. */
module GCode {
  import opened Geometry
  import opened Wrappers

  /** One line of output. Only the commands the writer emits are represented; number formatting
      is not. */
  datatype Cmd =
    | LayerComment(layer: int)                 // "; Layer n"
    | RangeComment(lower: real, higher: real)  // "; Starting material range: lo to hi"
    | MoveZ(z: real)                           // "G0 Z"
    | Move(x: real, y: real, z: real)          // "G0 X Y Z"
    | Extrude(x: real, y: real, z: real, e: real)  // "G1 X Y Z E"
    | Retract                                  // "G10"
    | Unretract                                // "G11"
    | SetMix(tool: nat, p: real)               // "M163 S<tool> P<p>"
    | SaveMix                                  // "M164 S0"

  /** The writer's fields: position, current material range, layer counter. */
  datatype WriterState = WriterState(x: real, y: real, z: real, current: Range, layer: int)

  /** A new writer: at the origin, in range (0, 0), no layer written yet. */
  const InitialState := WriterState(0.0, 0.0, 0.0, Range(0.0, 0.0), 0)

  /** Travels longer than 6 mm retract; compared on the squared length. */
  const RetractDistance2: real := 36.0

  /** The one range `write_mixing_ratios` refuses. */
  const FullRange := Range(0.0, 1.0)

  /** Printer parameters. `pi` and `sqrt` stand for `math.pi` and `math.sqrt`. */
  datatype Config = Config(filamentDiameter: real, layerHeight: real, beadWidth: real, flowRate: real,
                           pi: real, sqrt: real -> real)
  {
    /** The divisor of the extrusion formula is not zero (otherwise the source raises
        `ZeroDivisionError`). */
    predicate Valid() {
      FilamentArea() != 0.0
    }

    /** Cross-section of a bead in the capsule model: a rectangle plus a circle of the layer height. */
    function BeadArea(): real {
      beadWidth * layerHeight + pi * ((layerHeight / 2.0) * (layerHeight / 2.0))
    }

    /** Cross-section of the filament. */
    function FilamentArea(): real {
      pi * ((filamentDiameter / 2.0) * (filamentDiameter / 2.0))
    }
  }

  function SegmentLength(cfg: Config, a: Point, b: Point): real {
    cfg.sqrt(Dist2(a, b))
  }

  /** `calculate_extrusion_amount`: filament length for a segment under the capsule model. */
  function ExtrusionAmount(cfg: Config, a: Point, b: Point): real
    requires cfg.Valid()
  {
    SegmentLength(cfg, a, b) * cfg.BeadArea() / cfg.FilamentArea() * cfg.flowRate
  }

  /** Volume is conserved: the filament fed in, times its cross-section, is the bead's volume
      (length times capsule cross-section) scaled by the flow rate. */
  lemma ExtrusionVolume(cfg: Config, a: Point, b: Point)
    requires cfg.Valid()
    ensures ExtrusionAmount(cfg, a, b) * cfg.FilamentArea() == cfg.flowRate * SegmentLength(cfg, a, b) * cfg.BeadArea()
  {
    var v := SegmentLength(cfg, a, b) * cfg.BeadArea();
    var f := cfg.FilamentArea();
    assert v / f * f == v;
    assert (v / f * cfg.flowRate) * f == (v / f * f) * cfg.flowRate;
  }

  /** With a non-negative length and non-negative, positive-where-needed parameters nothing is
      ever retracted through an extrusion: the amount is not negative. */
  lemma ExtrusionAmountNonNegative(cfg: Config, a: Point, b: Point)
    requires cfg.Valid() && cfg.pi > 0.0
    requires cfg.beadWidth >= 0.0 && cfg.layerHeight >= 0.0 && cfg.flowRate >= 0.0
    requires SegmentLength(cfg, a, b) >= 0.0
    ensures ExtrusionAmount(cfg, a, b) >= 0.0
  {
    AreaNonNegative(cfg.pi, cfg.layerHeight / 2.0);
    AreaNonNegative(cfg.pi, cfg.filamentDiameter / 2.0);
    NonNegativeProduct(cfg.beadWidth, cfg.layerHeight);
    var v := SegmentLength(cfg, a, b) * cfg.BeadArea();
    NonNegativeProduct(SegmentLength(cfg, a, b), cfg.BeadArea());
    assert cfg.FilamentArea() > 0.0;
    assert v / cfg.FilamentArea() >= 0.0;
    NonNegativeProduct(v / cfg.FilamentArea(), cfg.flowRate);
  }

  /** Filament fed per unit of segment length under the capsule model. */
  function PerLength(cfg: Config): real
    requires cfg.Valid()
  {
    cfg.BeadArea() / cfg.FilamentArea() * cfg.flowRate
  }

  /** The amount is linear in the segment's length: the length times a per-length factor that
      depends only on the configuration, so a zero-length segment extrudes nothing and segments
      of equal length extrude the same. */
  lemma ExtrusionLinear(cfg: Config, a: Point, b: Point, c: Point, d: Point)
    requires cfg.Valid()
    ensures ExtrusionAmount(cfg, a, b) == SegmentLength(cfg, a, b) * PerLength(cfg)
    ensures SegmentLength(cfg, a, b) == 0.0 ==> ExtrusionAmount(cfg, a, b) == 0.0
    ensures SegmentLength(cfg, a, b) == SegmentLength(cfg, c, d) ==> ExtrusionAmount(cfg, a, b) == ExtrusionAmount(cfg, c, d)
  {
    var len, bead, fil, flow := SegmentLength(cfg, a, b), cfg.BeadArea(), cfg.FilamentArea(), cfg.flowRate;
    assert len * bead / fil == len * (bead / fil);
    assert len * (bead / fil) * flow == len * (bead / fil * flow);
  }

  lemma AreaNonNegative(k: real, h: real)
    requires k >= 0.0
    ensures k * (h * h) >= 0.0
  {
    SquareNonNegative(h);
    NonNegativeProduct(k, h * h);
  }

  lemma NonNegativeProduct(a: real, b: real)
    requires a >= 0.0 && b >= 0.0
    ensures a * b >= 0.0
  {
    if a > 0.0 && b > 0.0 {
      PositiveProduct(a, b);
    }
  }

  /** The writer state and the commands produced by one step. */
  datatype Emitted = Emitted(st: WriterState, out: seq<Cmd>)

  /** `write_travel`: a G0 to the target at the current height, wrapped in G10/G11 when the
      segment is longer than 6 mm. */
  function WriteTravel(st: WriterState, a: Point, b: Point): Emitted {
    var move := Move(b.x, b.y, st.z);
    Emitted(st.(x := b.x, y := b.y), if Dist2(a, b) > RetractDistance2 then [Retract, move, Unretract] else [move])
  }

  /** `write_extrusion_line`: a G1 to the target with the segment's filament length. */
  function WriteExtrusionLine(cfg: Config, st: WriterState, a: Point, b: Point): Emitted
    requires cfg.Valid()
  {
    Emitted(st.(x := b.x, y := b.y), [Extrude(b.x, b.y, st.z, ExtrusionAmount(cfg, a, b))])
  }

  /** `do_mixing_ratios_diff`. */
  predicate MixingDiffers(st: WriterState, r: Range) {
    r.lower != st.current.lower || r.higher != st.current.higher
  }

  /** The mixing fraction set for a range: its midpoint. */
  function Mid(r: Range): real {
    (r.lower + r.higher) / 2.0
  }

  /** `write_mixing_ratios`: refuses the full range (0, 1); otherwise records the range and sets
      extruder 0 to the midpoint and extruder 1 to the rest, then saves the mix. */
  function WriteMixingRatios(st: WriterState, r: Range): (e: Result<Emitted>)
    ensures e.Err? <==> r == FullRange
    ensures e.Ok? ==> e.value.st == st.(current := r)
    ensures e.Ok? ==> exists p :: SetMix(0, p) in e.value.out && SetMix(1, 1.0 - p) in e.value.out && p == Mid(r)
  {
    if r.lower == 0.0 && r.higher == 1.0 then Err(FullMixingRange)
    else
      var mid := (r.lower + r.higher) / 2.0;
      var out := [RangeComment(r.lower, r.higher), SetMix(0, mid), SetMix(1, 1.0 - mid), SaveMix];
      assert SetMix(0, mid) == out[1] && SetMix(1, 1.0 - mid) == out[2];
      Ok(Emitted(st.(current := r), out))
  }

  /** One segment of a path: extrusions switch the mix first when their range differs. */
  function WriteSegment(cfg: Config, st: WriterState, p: Path, a: Point, b: Point): Result<Emitted>
    requires cfg.Valid()
  {
    if p.extrusion then
      var mixed :- if MixingDiffers(st, p.range) then WriteMixingRatios(st, p.range) else Ok(Emitted(st, []));
      var line := WriteExtrusionLine(cfg, mixed.st, a, b);
      Ok(Emitted(line.st, mixed.out + line.out))
    else
      Ok(WriteTravel(st, a, b))
  }

  /** Segments i, i + 1, ... of one path (`polyline.segments()`: consecutive point pairs). */
  function WriteSegments(cfg: Config, st: WriterState, p: Path, i: nat): Result<Emitted>
    requires cfg.Valid()
    decreases |p.points| - i
  {
    if i + 1 >= |p.points| then Ok(Emitted(st, []))
    else
      var head :- WriteSegment(cfg, st, p, p.points[i], p.points[i + 1]);
      var rest :- WriteSegments(cfg, head.st, p, i + 1);
      Ok(Emitted(rest.st, head.out + rest.out))
  }

  function WritePaths(cfg: Config, st: WriterState, ps: seq<Path>): Result<Emitted>
    requires cfg.Valid()
    decreases |ps|
  {
    if |ps| == 0 then Ok(Emitted(st, []))
    else
      var head :- WriteSegments(cfg, st, ps[0], 0);
      var rest :- WritePaths(cfg, head.st, ps[1..]);
      Ok(Emitted(rest.st, head.out + rest.out))
  }

  /** `write_layer`: count the layer, move to its height, then every segment of every path. */
  function WriteLayer(cfg: Config, st: WriterState, z: real, ps: seq<Path>): Result<Emitted>
    requires cfg.Valid()
  {
    var st1 := st.(layer := st.layer + 1, z := z);
    var body :- WritePaths(cfg, st1, ps);
    Ok(Emitted(body.st, [LayerComment(st1.layer), MoveZ(z)] + body.out))
  }

  /** Whether a command changes the mix. */
  predicate Mixes(c: Cmd) {
    c.SetMix? || c.SaveMix?
  }

  /** One segment moves the head to the segment's end at the current height and leaves the
      layer counter alone. A travel never mixes and keeps the range. An extrusion emits mixing
      commands exactly when its range differs from the current one, and then fails exactly on
      the full range; afterwards the current range is the path's. */
  lemma SegmentEffects(cfg: Config, st: WriterState, p: Path, a: Point, b: Point)
    requires cfg.Valid()
    ensures var e := WriteSegment(cfg, st, p, a, b);
      && (e.Err? <==> p.extrusion && MixingDiffers(st, p.range) && p.range == FullRange)
      && (e.Ok? ==>
            && e.value.st.x == b.x && e.value.st.y == b.y && e.value.st.z == st.z && e.value.st.layer == st.layer
            && ((exists i :: 0 <= i < |e.value.out| && Mixes(e.value.out[i])) <==> p.extrusion && MixingDiffers(st, p.range))
            && (!p.extrusion ==> e.value.st.current == st.current)
            && (p.extrusion ==> e.value.st.current == p.range)
            && (p.extrusion ==> e.value.out[|e.value.out| - 1] == Extrude(b.x, b.y, st.z, ExtrusionAmount(cfg, a, b))))
  {
    var e := WriteSegment(cfg, st, p, a, b);
    if e.Ok? {
      var out := e.value.out;
      if p.extrusion && MixingDiffers(st, p.range) {
        assert Mixes(out[1]);
      } else if p.extrusion {
        assert p.range == st.current;
        assert out == [Extrude(b.x, b.y, st.z, ExtrusionAmount(cfg, a, b))];
        assert forall i :: 0 <= i < |out| ==> !Mixes(out[i]);
      } else {
        assert forall i :: 0 <= i < |out| ==> !Mixes(out[i]);
      }
    }
  }

  /** Once an extrusion segment of a path has been written, the path's next segment emits only
      its extrusion move: the range is already current, so no mixing command is repeated. */
  lemma RepeatedRangeSilent(cfg: Config, st: WriterState, p: Path, a: Point, b: Point, c: Point, d: Point)
    requires cfg.Valid() && p.extrusion && WriteSegment(cfg, st, p, a, b).Ok?
    ensures var st1 := WriteSegment(cfg, st, p, a, b).value.st;
      WriteSegment(cfg, st1, p, c, d) == Ok(Emitted(st1.(x := d.x, y := d.y), [Extrude(d.x, d.y, st1.z, ExtrusionAmount(cfg, c, d))]))
  {
    SegmentEffects(cfg, st, p, a, b);
    var st1 := WriteSegment(cfg, st, p, a, b).value.st;
    assert !MixingDiffers(st1, p.range);
    var line := WriteExtrusionLine(cfg, st1, c, d);
    assert WriteSegment(cfg, st1, p, c, d) == Ok(Emitted(line.st, [] + line.out));
    assert [] + line.out == line.out;
  }

  // ---------------------------------------------------------------- what the printer does

  /** A movement of the print head as the printer carries it out. */
  datatype Stroke =
    | MoveTo(to: Point, z: real, retracted: bool)
    | PrintTo(to: Point, z: real, mix: real, amount: real)

  /** The printer's mode: the fraction of extruder 0 and whether the filament is retracted. */
  datatype Printer = Printer(mix: real, retracted: bool)

  datatype Trace = Trace(strokes: seq<Stroke>, final: Printer)

  /** The strokes a command list makes the printer perform, and its mode afterwards. */
  function Run(pr: Printer, cmds: seq<Cmd>): Trace
    decreases |cmds|
  {
    if |cmds| == 0 then Trace([], pr)
    else
      var rest := cmds[1..];
      match cmds[0]
      case Move(x, y, z) =>
        var t := Run(pr, rest); Trace([MoveTo(Point(x, y), z, pr.retracted)] + t.strokes, t.final)
      case Extrude(x, y, z, e) =>
        var t := Run(pr, rest); Trace([PrintTo(Point(x, y), z, pr.mix, e)] + t.strokes, t.final)
      case Retract => Run(pr.(retracted := true), rest)
      case Unretract => Run(pr.(retracted := false), rest)
      case SetMix(tool, p) => Run(if tool == 0 then pr.(mix := p) else pr, rest)
      case _ => Run(pr, rest)
  }

  lemma {:induction false} RunAppend(pr: Printer, a: seq<Cmd>, b: seq<Cmd>)
    ensures Run(pr, a + b).strokes == Run(pr, a).strokes + Run(Run(pr, a).final, b).strokes
    ensures Run(pr, a + b).final == Run(Run(pr, a).final, b).final
    decreases |a|
  {
    if |a| == 0 {
      assert a + b == b;
    } else {
      assert (a + b)[0] == a[0] && (a + b)[1..] == a[1..] + b;
      match a[0]
      case Retract => RunAppend(pr.(retracted := true), a[1..], b);
      case Unretract => RunAppend(pr.(retracted := false), a[1..], b);
      case SetMix(tool, p) => RunAppend(if tool == 0 then pr.(mix := p) else pr, a[1..], b);
      case _ => RunAppend(pr, a[1..], b);
    }
  }

  /** What the printer should do for segment i of path p on a layer at height z: travels go to
      the next point, retracted exactly when the gap exceeds 6 mm; extrusions print to the next
      point with the path's range midpoint and the capsule-model amount. */
  function SegmentStroke(cfg: Config, z: real, p: Path, i: nat): Stroke
    requires cfg.Valid() && i + 1 < |p.points|
  {
    var a := p.points[i];
    var b := p.points[i + 1];
    if p.extrusion then PrintTo(b, z, Mid(p.range), ExtrusionAmount(cfg, a, b))
    else MoveTo(b, z, Dist2(a, b) > RetractDistance2)
  }

  function SegmentStrokes(cfg: Config, z: real, p: Path, i: nat): seq<Stroke>
    requires cfg.Valid()
    decreases |p.points| - i
  {
    if i + 1 >= |p.points| then [] else [SegmentStroke(cfg, z, p, i)] + SegmentStrokes(cfg, z, p, i + 1)
  }

  /** The strokes a layer of paths stands for, path by path, segment by segment. */
  function LayerStrokes(cfg: Config, z: real, ps: seq<Path>): seq<Stroke>
    requires cfg.Valid()
    decreases |ps|
  {
    if |ps| == 0 then [] else SegmentStrokes(cfg, z, ps[0], 0) + LayerStrokes(cfg, z, ps[1..])
  }

  /** The printer mode a writer state stands for: mixing the current range's midpoint, filament
      not retracted. */
  predicate InSync(pr: Printer, st: WriterState) {
    pr.mix == Mid(st.current) && !pr.retracted
  }

  lemma SegmentPlays(cfg: Config, st: WriterState, pr: Printer, p: Path, i: nat)
    requires cfg.Valid() && i + 1 < |p.points| && InSync(pr, st)
    requires WriteSegment(cfg, st, p, p.points[i], p.points[i + 1]).Ok?
    ensures var e := WriteSegment(cfg, st, p, p.points[i], p.points[i + 1]).value;
      && Run(pr, e.out).strokes == [SegmentStroke(cfg, st.z, p, i)]
      && InSync(Run(pr, e.out).final, e.st) && e.st.z == st.z && e.st.layer == st.layer
  {
    var a := p.points[i];
    var b := p.points[i + 1];
    var e := WriteSegment(cfg, st, p, a, b).value;
    if p.extrusion {
      var mixed := (if MixingDiffers(st, p.range) then WriteMixingRatios(st, p.range) else Ok(Emitted(st, []))).value;
      var line := WriteExtrusionLine(cfg, mixed.st, a, b);
      RunAppend(pr, mixed.out, line.out);
      if MixingDiffers(st, p.range) {
        MixingPlays(pr, st, p.range);
      } else {
        assert p.range == st.current;
      }
    } else if Dist2(a, b) > RetractDistance2 {
      RetractedMovePlays(pr, b.x, b.y, st.z);
    }
  }

  /** The mixing block sets extruder 0 to the range's midpoint and moves nothing. */
  lemma MixingPlays(pr: Printer, st: WriterState, r: Range)
    requires WriteMixingRatios(st, r).Ok?
    ensures Run(pr, WriteMixingRatios(st, r).value.out) == Trace([], pr.(mix := Mid(r)))
  {
    var out := WriteMixingRatios(st, r).value.out;
    var mid := Mid(r);
    assert out == [RangeComment(r.lower, r.higher), SetMix(0, mid), SetMix(1, 1.0 - mid), SaveMix];
    assert out[1..][1..][1..][1..] == [];
    assert Run(pr, out) == Run(pr, out[1..]);
    assert Run(pr, out[1..]) == Run(pr.(mix := mid), out[1..][1..]);
    assert Run(pr.(mix := mid), out[1..][1..]) == Run(pr.(mix := mid), out[1..][1..][1..]);
  }

  /** A retracted travel is one move, made retracted, after which the filament is restored. */
  lemma RetractedMovePlays(pr: Printer, x: real, y: real, z: real)
    ensures Run(pr, [Retract, Move(x, y, z), Unretract]) == Trace([MoveTo(Point(x, y), z, true)], pr.(retracted := false))
  {
    var out := [Retract, Move(x, y, z), Unretract];
    assert out[1..] == [Move(x, y, z), Unretract];
    assert out[1..][1..] == [Unretract];
    assert out[1..][1..][1..] == [];
    var up := pr.(retracted := true);
    var down := pr.(retracted := false);
    assert Run(up, out[1..][1..]) == Run(down, []) == Trace([], down);
    assert Run(up, out[1..]) == Trace([MoveTo(Point(x, y), z, true)], down);
    assert Run(pr, out) == Run(up, out[1..]);
  }

  lemma {:induction false} SegmentsPlay(cfg: Config, st: WriterState, pr: Printer, p: Path, i: nat)
    requires cfg.Valid() && InSync(pr, st) && WriteSegments(cfg, st, p, i).Ok?
    ensures var e := WriteSegments(cfg, st, p, i).value;
      && Run(pr, e.out).strokes == SegmentStrokes(cfg, st.z, p, i)
      && InSync(Run(pr, e.out).final, e.st) && e.st.z == st.z && e.st.layer == st.layer
    decreases |p.points| - i
  {
    if i + 1 < |p.points| {
      var head := WriteSegment(cfg, st, p, p.points[i], p.points[i + 1]).value;
      SegmentPlays(cfg, st, pr, p, i);
      var pr1 := Run(pr, head.out).final;
      SegmentsPlay(cfg, head.st, pr1, p, i + 1);
      var rest := WriteSegments(cfg, head.st, p, i + 1).value;
      RunAppend(pr, head.out, rest.out);
    }
  }

  lemma {:induction false} PathsPlay(cfg: Config, st: WriterState, pr: Printer, ps: seq<Path>)
    requires cfg.Valid() && InSync(pr, st) && WritePaths(cfg, st, ps).Ok?
    ensures var e := WritePaths(cfg, st, ps).value;
      && Run(pr, e.out).strokes == LayerStrokes(cfg, st.z, ps)
      && InSync(Run(pr, e.out).final, e.st) && e.st.z == st.z && e.st.layer == st.layer
    decreases |ps|
  {
    if |ps| > 0 {
      var head := WriteSegments(cfg, st, ps[0], 0).value;
      SegmentsPlay(cfg, st, pr, ps[0], 0);
      var pr1 := Run(pr, head.out).final;
      PathsPlay(cfg, head.st, pr1, ps[1..]);
      var rest := WritePaths(cfg, head.st, ps[1..]).value;
      RunAppend(pr, head.out, rest.out);
    }
  }

  /** A written layer opens with its number and height, and a printer that starts mixing the
      writer's current range, not retracted, performs exactly the layer's strokes at that height:
      every segment in order, each travel retracted exactly when longer than 6 mm, each print
      mixed at its own range's midpoint. The writer counts the layer and ends at its height. */
  lemma WriteLayerPlays(cfg: Config, st: WriterState, z: real, ps: seq<Path>)
    requires cfg.Valid() && WriteLayer(cfg, st, z, ps).Ok?
    ensures var e := WriteLayer(cfg, st, z, ps).value;
      && e.out[..2] == [LayerComment(st.layer + 1), MoveZ(z)]
      && Run(Printer(Mid(st.current), false), e.out).strokes == LayerStrokes(cfg, z, ps)
      && e.st.layer == st.layer + 1 && e.st.z == z
  {
    var st1 := st.(layer := st.layer + 1, z := z);
    var pr := Printer(Mid(st.current), false);
    var body := WritePaths(cfg, st1, ps).value;
    PathsPlay(cfg, st1, pr, ps);
    RunAppend(pr, [LayerComment(st1.layer), MoveZ(z)], body.out);
  }

  // ---------------------------------------------------------------- failure

  /** The path is an extrusion in the full range (0, 1) with at least one segment. */
  predicate PrintsFullRange(p: Path) {
    p.extrusion && p.range == FullRange && |p.points| >= 2
  }

  lemma {:induction false} SegmentsFail(cfg: Config, st: WriterState, p: Path, i: nat)
    requires cfg.Valid() && st.current != FullRange
    ensures WriteSegments(cfg, st, p, i).Err? <==> i + 1 < |p.points| && PrintsFullRange(p)
    ensures WriteSegments(cfg, st, p, i).Ok? ==> WriteSegments(cfg, st, p, i).value.st.current != FullRange
    decreases |p.points| - i
  {
    if i + 1 < |p.points| {
      var h := WriteSegment(cfg, st, p, p.points[i], p.points[i + 1]);
      if h.Ok? {
        assert h.value.st.current != FullRange;
        SegmentsFail(cfg, h.value.st, p, i + 1);
      }
    }
  }

  lemma {:induction false} PathsFail(cfg: Config, st: WriterState, ps: seq<Path>)
    requires cfg.Valid() && st.current != FullRange
    ensures WritePaths(cfg, st, ps).Err? <==> exists j :: 0 <= j < |ps| && PrintsFullRange(ps[j])
    decreases |ps|
  {
    if |ps| > 0 {
      SegmentsFail(cfg, st, ps[0], 0);
      var h := WriteSegments(cfg, st, ps[0], 0);
      if h.Ok? {
        PathsFail(cfg, h.value.st, ps[1..]);
        if exists j :: 0 <= j < |ps| && PrintsFullRange(ps[j]) {
          var j :| 0 <= j < |ps| && PrintsFullRange(ps[j]);
          assert ps[1..][j - 1] == ps[j];
        }
        if exists j :: 0 <= j < |ps[1..]| && PrintsFullRange(ps[1..][j]) {
          var j :| 0 <= j < |ps[1..]| && PrintsFullRange(ps[1..][j]);
          assert ps[j + 1] == ps[1..][j];
        }
      } else {
        assert PrintsFullRange(ps[0]);
      }
    }
  }

  /** Writing a layer fails exactly when one of its extrusions with a segment asks for the full
      range (0, 1), provided the writer is not already in that range (it never is: it starts at
      (0, 0) and refuses to enter (0, 1)). */
  lemma WriteLayerFails(cfg: Config, st: WriterState, z: real, ps: seq<Path>)
    requires cfg.Valid() && st.current != FullRange
    ensures WriteLayer(cfg, st, z, ps).Err? <==> exists j :: 0 <= j < |ps| && PrintsFullRange(ps[j])
    ensures WriteLayer(cfg, st, z, ps).Ok? ==> WriteLayer(cfg, st, z, ps).value.st.current != FullRange
  {
    PathsFail(cfg, st.(layer := st.layer + 1, z := z), ps);
    PathsKeepsRange(cfg, st.(layer := st.layer + 1, z := z), ps);
  }

  /** A new writer is not in the full range, so its first layer is numbered 1 and fails exactly
      when one of the layer's paths prints the full range; after it the writer is still out of
      that range, so the same holds for the next layer. */
  lemma FreshWriterFirstLayer(cfg: Config, z: real, ps: seq<Path>)
    requires cfg.Valid()
    ensures InitialState.current != FullRange
    ensures WriteLayer(cfg, InitialState, z, ps).Err? <==> exists j :: 0 <= j < |ps| && PrintsFullRange(ps[j])
    ensures WriteLayer(cfg, InitialState, z, ps).Ok? ==>
      var e := WriteLayer(cfg, InitialState, z, ps).value;
      && e.out[0] == LayerComment(1)
      && e.st.layer == 1
      && e.st.current != FullRange
  {
    WriteLayerFails(cfg, InitialState, z, ps);
    if WriteLayer(cfg, InitialState, z, ps).Ok? {
      WriteLayerPlays(cfg, InitialState, z, ps);
    }
  }

  lemma {:induction false} PathsKeepsRange(cfg: Config, st: WriterState, ps: seq<Path>)
    requires cfg.Valid() && st.current != FullRange
    ensures WritePaths(cfg, st, ps).Ok? ==> WritePaths(cfg, st, ps).value.st.current != FullRange
    decreases |ps|
  {
    if |ps| > 0 {
      SegmentsFail(cfg, st, ps[0], 0);
      var h := WriteSegments(cfg, st, ps[0], 0);
      if h.Ok? {
        PathsKeepsRange(cfg, h.value.st, ps[1..]);
      }
    }
  }
}
