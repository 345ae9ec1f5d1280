# VCAD slicer core in Dafny

This project models the sequential core of the VCAD multi-material slicer, which turns a
voxel-defined object into G-code for a two-input mixing extruder. It has two build pipelines.

**Cutting slicer** (slicer.py, layer.py) runs these steps in order:
- It places purge towers on a row-major grid, one tower per material range.
- It slices the object into layers. It keeps only non-empty cross-sections, and it counts and
  numbers only those.
- It gives every layer shrunk walls and rectilinear infill.
- It cuts the paths into material ranges.
- It routes each range: first the range's purge tower, then a greedy nearest-endpoint tour
  with a travel move before every path. As written, the range's first travel leaves from the
  point reached before its tower, not from the tower's end (see Findings). `Slice` follows the
  program. `SliceResumed` is the same build with the travel leaving from the tower's end.
- It centres the result on the bed.

**Outline slicer** (outline_slicer.py, outline_layer.py) runs these steps:
- It builds one outline layer per non-empty cross-section.
- Per material range, it lays concentric insets until the geometry kernel returns nothing,
  or lays a solid fill instead. Every other layer reverses the range order.
- It routes with travel moves only across gaps wider than 0.05.
- It centres the result on the bed and computes the global bounds.

Both pipelines feed a **G-code writer** (gcode_writer.py). The writer tracks the head
position, the layer counter and the active material range:
- It retracts around travels longer than 6 mm.
- It emits a mixing command only when the range changes.
- It refuses the full range (0, 1).
- It meters filament with the capsule model.

Two small helpers of the batch driver (demo_batch.py) are modelled as well: the settings
`deep_update` and `generate_linear_ranges`.

## How the model is built

The external geometry kernel is a `Kernel` value of total functions: `offset`, `clip`,
`crossSection` and `sliceMaterial`. Every pipeline function receives it as a parameter.
Every property holds for any kernel whose polylines are non-empty. That is the one assumption
made about the kernel, and the `Polyline` type carries it (see "Left out"). Other modelling choices:
- Python's `float('inf')` bounds are the `Ext` datatype.
- Distances are compared squared: 0.05 becomes 0.0025 and 6.0 becomes 36.0.
- `math.sqrt` and `math.pi` are fields of the writer configuration.
- The writer emits an abstract command list (`GCode.Cmd`) instead of text.
- A small printer interpreter (`GCode.Run`) gives those commands a meaning.
- Errors the source raises are `Wrappers.Result` failures:
  - the `ValueError` for too few purge candidates;
  - the missing purge-tower centre that `generate_purge_tower` dereferences;
  - the `assert` in `write_mixing_ratios`;
  - the division by a zero range count.

Module map:

| module | file | source |
|---|---|---|
| Geometry | geometry.dfy | points, polylines, paths, kernel interface |
| Steps | steps.dfy | the `while v <= limit: v += step` loops |
| Infill | infill.dfy | infill.py |
| Router | router.dfy | `connect_paths_in_range` of layer.py and outline_layer.py |
| CuttingLayer | layer.dfy | layer.py |
| OutlineLayer | outline_layer.dfy | outline_layer.py |
| GCode | gcode_writer.dfy | gcode_writer.py |
| Layering | layering.dfy | the z loops of slicer.py and outline_slicer.py |
| CuttingSlicer | slicer.dfy | slicer.py |
| OutlineSlicer | outline_slicer.dfy | outline_slicer.py |
| Settings | settings.dfy | demo_batch.py helpers |

## Model

| member | source | states |
|---|---|---|
| Geometry.Travel | layer.py:184-186 | A travel move is a non-extrusion tagged (0, 0) that starts at the current end and ends at the next path's first point. |
| Geometry.Reverse | layer.py:181-182 | Reversing a polyline keeps its length and puts point i at position n-1-i, so first and last swap. |
| Geometry.ShiftPaths | layer.py:208-210 | Translating paths keeps their number, ranges, flags and point counts, and moves every point by the vector. |
| Steps.Progression | infill.py:23-26 | The loop visits start + k·step for k = 0, 1, ...; every visited value passes the guard, and the next one would not. When the start already fails the guard, nothing is visited whatever the step. |
| Steps.CountWithin | infill.py:23-26 | Every value the loop visits passes its guard. |
| Steps.CountStops | infill.py:23-26 | The value one step past the last visited one fails the guard, so the loop stops exactly there. |
| Steps.ProgressionIncreasing | slicer.py:63-82 | The visited values are strictly increasing. |
| Steps.ProgressionHead | slicer.py:63 | The loop visits some value exactly when the start passes the guard, for any step allowed, including a non-positive one when the start fails. |
| Router.Scan | layer.py:168-180 | The scan picks a remaining path, and the distance it reports is that of the chosen endpoint. |
| Router.ScanGreedy | layer.py:168-180 | The scan picks the path whose start or end is nearest. A candidate wins only when strictly nearer, and a start is tried before its end, so ties keep the earlier path and prefer its start. The path is reversed exactly when its end is strictly nearer than its start. |
| Router.NearestGreedy | layer.py:163-180 | The nearest-path choice meets the greedy specification over all remaining paths. |
| Router.GreedyChoiceUnique | layer.py:168-180 | The greedy specification admits only one choice. |
| Router.GreedyChoiceMinimal | layer.py:168-180 | The winning distance is at most the distance to either endpoint of every remaining path. |
| Router.RemoveAt | layer.py:188 | Removing the chosen path leaves the other paths in order. |
| Router.TourStep | layer.py:163-189 | One step of the tour takes one extrusion. A travel to its first point comes before it exactly when the policy asks for one across that gap. The tour then continues from its end over one path fewer. |
| Router.TourPermutes | layer.py:163-189 | The tour contains every remaining path exactly once, possibly reversed, and adds no other extrusion. |
| Router.TourThreaded | layer.py:163-189 | Every travel in the tour runs from the current end to the next path's first point. A path with no travel before it starts within the tolerance of the current end. |
| Router.TourTravelsNeeded | outline_layer.py:132-136 | Under the outline policy, a travel is inserted only across a gap wider than 0.05. |
| Router.TourHeadIsNearest | layer.py:168-187 | The tour's first path starts no farther from the current end than any endpoint of any remaining path. |
| Router.TourAlternates | layer.py:184-187 | When a travel is always inserted, the tour strictly alternates travel and extrusion, two entries per path. |
| Router.Available | layer.py:134-144 | Only paths whose range lies inside the desired range are offered, and all of them are tagged as extrusions. |
| Router.StitchPermutes | layer.py:149-189 | One range's routing holds every available path exactly once, possibly reversed. |
| Router.StitchThreaded | layer.py:149-189 | One range's routing is threaded from its start point. |
| Router.StitchRanges | layer.py:149-189 | Every extrusion routed for a range carries the range of some available path. |
| Router.StitchAlternates | layer.py:149-189 | When a travel is always inserted, one range's routing alternates travel and extrusion. |
| Router.ConnectInRangeHead | layer.py:133-189 | With no available path the connected list is unchanged. Otherwise the old list is a prefix, and the first addition is a travel from the start point to the first available path, taken as is. |
| Router.StitchSpec | layer.py:149-189 | One range's routing holds every available path exactly once, is threaded from its start point, and adds travels after the first only where the policy asks. |
| Router.StitchInside | layer.py:134-144 | Every extrusion routed for a range lies inside the desired range. |
| Router.ConnectInRangeSpec | layer.py:133-189 | With no available path the connected list is unchanged. Otherwise the old list is kept as a prefix, and the first available path is taken as is, after a travel from the start point, not chosen by distance. Every available path then appears exactly once. The additions stay inside the range and are threaded. |
| Router.ConnectInRangeAlternates | layer.py:149-189 | Under layer.py's policy the additions are two entries per available path, travel then extrusion. |
| Router.ThreadedAppend | layer.py:200-206 | A list threaded from p, followed by a list threaded from its end point, is threaded from p. |
| Router.ThreadedShift | layer.py:208-211 | Translation preserves threading: the moved list is threaded from the moved start point. |
| Router.StitchStartOnlyMovesTravel | layer.py:149-189 | Routing the same paths from two start points gives the same list except for the source of the opening travel, because the first path is taken as is. |
| Router.SameUpToTravelStartsEnd | layer.py:205-206 | Lists that differ only in travel starts end at the same point, so the next range starts from the same `previous_end`. |
| Router.SameUpToTravelStartsAppend | layer.py:196-206 | Differing only in travel starts survives concatenation. |
| CuttingLayer.WallSeries | layer.py:43-44 | The loop appends number-1 walls (none when number < 2), and wall i is the base offset by -bead·(i+1). |
| CuttingLayer.GenerateWallsFromEmpty | layer.py:36-44 | Starting with no walls and number ≥ 1, there are exactly `number` walls. Wall 0 is the outline offset by -0.02·bead. Wall i is wall 0 offset by -bead·i, not the previous wall offset. Nothing else changes. |
| CuttingLayer.GenerateWallsExtends | layer.py:38-44 | Existing walls are kept, and the new walls are offsets of the last existing wall. |
| CuttingLayer.GenerateInfillSpec | layer.py:46-58 | The infill is the kernel's clip of scan lines spaced bead/density, over the last wall (or the outline when there are no walls) offset by -bead. Nothing else changes. |
| CuttingLayer.FindCenter | layer.py:62-66 | The result is the centre of the first entry whose (lower, higher) equals the desired range exactly, or nothing when no entry matches. |
| CuttingLayer.TowerBox | layer.py:68-75 | The tower box is a closed five-point loop whose corners lie at the centre ± the half sizes. |
| CuttingLayer.TowerPathsAt | layer.py:81-91 | For each non-empty wall, the tower adds one travel from the previous loop's end (the start point for the first) followed by that wall's loop as an extrusion in the desired range. |
| CuttingLayer.TowerEntry | layer.py:81-91 | Tower entries alternate travel and extrusion, and every extrusion carries the desired range. |
| CuttingLayer.PurgeTowerFails | layer.py:60-71 | The purge tower fails exactly when no centre carries the desired range. |
| CuttingLayer.PurgeTowerAlternates | layer.py:77-93 | The tower's paths alternate travel and extrusion, with at most 56 of each, and every extrusion is tagged with the desired range. |
| CuttingLayer.PurgeTowerThreaded | layer.py:86-91 | Each tower travel starts where the previous tower loop ended. |
| CuttingLayer.CutIntoRangesSpec | layer.py:95-117 | Cutting appends one walls entry and one infill entry per range the kernel reports, in the kernel's order. Earlier entries and every other field are kept. |
| CuttingLayer.ConnectRangesKeeps | layer.py:191-206 | Routing only appends: the old connected list is a prefix, and no other field changes. |
| CuttingLayer.ConnectRangesFails | layer.py:200-204 | Routing a layer fails exactly when one of its ranges has no purge-tower centre. |
| CuttingLayer.ConnectRangesThreaded | layer.py:196-206 | Corrected routing keeps the connected list threaded from (-8, 10) across towers and ranges. |
| CuttingLayer.ConnectPathsResumedThreaded | layer.py:191-206 | Corrected routing only (not the program): a freshly routed layer is one threaded tour from (-8, 10). |
| CuttingLayer.RouteFails | layer.py:191-206 | Routing a layer, as written or corrected, fails exactly when the layer has ranged entries and one of its walls' ranges has no purge-tower centre. |
| CuttingLayer.RouteKeeps | layer.py:191-206 | Routing a layer, as written or corrected, only appends to its connected list and changes nothing else. |
| CuttingLayer.ConnectRangesAgree | layer.py:196-206 | The range loop as written and the corrected loop succeed together and change the same fields. They lay the same paths in the same order. Only some travels leave from another point. |
| CuttingLayer.ConnectPathsAgree | layer.py:191-206 | `connect_paths` as written succeeds exactly when the corrected routing does. Its result equals the corrected threaded tour except where some travels start. |
| CuttingLayer.AsWrittenFirstRange | layer.py:200-204 | As written, the first range's paths are routed from (-8, 10) after its tower. |
| CuttingLayer.AsWrittenTravelSkipsTower | layer.py:200-206 | As written, when a tower is non-empty and ends away from (-8, 10), the travel after it starts elsewhere, so the tour is broken. |
| CuttingLayer.TranslatePaths | layer.py:208-211 | Every connected point moves by the vector and z increases by the offset. Path count, ranges and flags are unchanged. |
| OutlineLayer.RingsSpec | outline_layer.py:67-78 | Insets -bead·i are tried for i = 0..99. The walls are the loops of the leading non-empty insets, and the loop stops at the first empty one. |
| OutlineLayer.FillPathsSpec | outline_layer.py:53-65 | In fill mode a region contributes its outline, then its holes, then clipped scan lines spaced one bead apart inside the region shrunk by half a bead. |
| OutlineLayer.RangeEntries | outline_layer.py:46-79 | Each reported range contributes exactly one ranged-walls entry carrying that range. |
| OutlineLayer.Reversed | outline_layer.py:43-44 | `ranges.reverse()` puts element i at position n-1-i. |
| OutlineLayer.ReversedTwice | outline_layer.py:43-44 | Reversing twice restores the range list. |
| OutlineLayer.ReversedPermutes | outline_layer.py:43-44 | Reversing only reorders the ranges: every range keeps its multiplicity. |
| OutlineLayer.GenerateWallsKeeps | outline_layer.py:38-79 | One entry is appended per reported range, the old entries are kept as a prefix, and nothing else changes. |
| OutlineLayer.GenerateWallsOrder | outline_layer.py:43-79 | The new entries follow the kernel's order of ranges, or the opposite order when `reverse` holds. |
| OutlineLayer.ConnectRangesPermutes | outline_layer.py:140-153 | Routing keeps the old list and adds, up to orientation, exactly the wall paths owed for each range. |
| OutlineLayer.ConnectRangesThreaded | outline_layer.py:145-153 | Each range starts from the last connected point, so the list stays threaded from (-8, 10). |
| OutlineLayer.ConnectPathsSpec | outline_layer.py:140-153 | A layer routed from scratch is one threaded tour from (-8, 10) that holds the owed paths. |
| OutlineLayer.GetBoundsSpec | outline_layer.py:155-170 | Without points the bounds are (+inf, +inf, -inf, -inf). Otherwise they are finite, enclose every connected point, and each bound is attained by some point. |
| OutlineLayer.TranslatePaths | outline_layer.py:172-175 | Every point moves by the vector and z increases by the offset. Count and flags are unchanged. |
| GCode.ExtrusionVolume | gcode_writer.py:45-66 | Volume is conserved: filament length × filament area = flow × segment length × capsule area. |
| GCode.ExtrusionLinear | gcode_writer.py:45-66 | The amount is linear in the segment length, so a zero-length segment extrudes nothing. |
| GCode.ExtrusionAmountNonNegative | gcode_writer.py:45-66 | With non-negative parameters the amount is never negative. |
| GCode.WriteMixingRatios | gcode_writer.py:123-134 | It fails exactly on (0, 1). Otherwise the range becomes current, and the shares are the midpoint and 1 - midpoint. |
| GCode.SegmentEffects | gcode_writer.py:68-121 | The head moves to the segment's target, and z and the layer counter are unchanged. Travels never mix and keep the range. An extrusion emits mixing exactly when its range differs from the current one, and then makes its range current. |
| GCode.RepeatedRangeSilent | gcode_writer.py:106-126 | Once a path's range is current, its later segments emit only their extrusion moves. |
| GCode.MixingPlays | gcode_writer.py:123-134 | The mixing block sets extruder 0 to the midpoint and moves nothing. |
| GCode.RetractedMovePlays | gcode_writer.py:80-87 | A retract-wrapped travel is one retracted move, after which the filament is restored. |
| GCode.SegmentPlays | gcode_writer.py:106-113 | One written segment makes the printer perform that segment's stroke and stay in sync with the writer. |
| GCode.SegmentsPlay | gcode_writer.py:107-113 | A written path performs its segments in order. |
| GCode.PathsPlay | gcode_writer.py:106-113 | Written paths perform their segments in order. |
| GCode.WriteLayerPlays | gcode_writer.py:98-113 | The output opens with the layer comment and `G0 Z`, and then performs exactly the layer's strokes. Travels retract exactly when longer than 6, and prints use their range's midpoint. The layer counter increases by one and z is set. |
| GCode.SegmentsFail | gcode_writer.py:106-124 | Writing a path fails exactly when it is an extrusion in (0, 1) with at least one segment. |
| GCode.PathsFail | gcode_writer.py:106-124 | Writing paths fails exactly when one of them prints the full range. |
| GCode.WriteLayerFails | gcode_writer.py:98-124 | Writing a layer fails exactly when one of its paths prints the full range. Otherwise (0, 1) never becomes current. |
| GCode.FreshWriterFirstLayer | gcode_writer.py:5-18 | A new writer starts outside (0, 1). Its first layer is numbered 1 and fails exactly when one of the layer's paths prints the full range. After that layer the writer is still outside (0, 1). |
| GCode.PathsKeepsRange | gcode_writer.py:118-126 | A successful write never makes (0, 1) current. |
| Infill.IncludeAllSpec | infill.py:9-14 | Folding points into a box contains them, keeps enclosing the start box, and every bound is the start bound or attained. |
| Infill.BoundsOfSpec | infill.py:4-15 | Empty input gives (+inf, +inf, -inf, -inf). Otherwise the box is finite, holds every point, and attains every bound. |
| Infill.GlobalBoundingBoxSpec | infill.py:4-15 | The same holds for the points of all outlines. |
| Infill.BoundingBoxShape | infill.py:4-15 | The bounding box is either empty or finite with min ≤ max. |
| Infill.ScanLinesInSpec | infill.py:23-26 | Scan lines run horizontally from min_x to max_x. They start at min_y, step by the spacing, stay ≤ max_y, and the next step would pass max_y. |
| Infill.ScanLinesSpec | infill.py:19-26 | Outlines without points get no scan line, whatever the spacing; otherwise they get the lines of their bounding box. |
| Infill.IncludeAllMerge | outline_slicer.py:81-87 | Folding points into a box equals merging the box with the points' own bounds. |
| Infill.BoundsOfAppend | outline_slicer.py:81-87 | The bounds of two point lists together are the merge of their bounds. |
| Layering.SliceHeightsSpec | slicer.py:63-82 | One slice is made per non-empty height, in order, numbered consecutively, holding that height's cross-section. |
| Layering.SliceHeightsBottom | slicer.py:64-68 | The model bottom is the first non-empty height; without one, it is the last height visited. |
| Layering.BottomSettled | slicer.py:67-68 | Once a layer exists, the bottom no longer moves. |
| Layering.NonEmptyHeightsSub | slicer.py:65-70 | The kept heights are among the visited heights. |
| Layering.NonEmptyHeightsIncreasing | slicer.py:63-82 | The kept heights are strictly increasing. |
| Layering.NonEmptyHeightsNonEmpty | slicer.py:70 | Every kept height has a non-empty cross-section. |
| Layering.SliceObjectSpec | slicer.py:60-82 | Layers are numbered 1..n and have non-empty outlines. Their z values lie in [min_z, max_z] and are strictly increasing. The bottom is the first layer's z. |
| CuttingSlicer.CandidateAt | slicer.py:46-52 | Column i of row j is candidate j·columns + i. |
| CuttingSlicer.CandidateIndex | slicer.py:46-52 | Candidate k is column k mod columns of row k div columns. |
| CuttingSlicer.CandidatesCount | slicer.py:46-52 | There are rows × columns candidates. |
| CuttingSlicer.CandidateCoordinates | slicer.py:46-52 | Column i of row j is candidate j·columns + i, at min + spacing/2 + index·spacing in each axis, strictly below max x and max y. |
| CuttingSlicer.CandidatesDistinct | slicer.py:46-52 | No two candidates coincide. |
| CuttingSlicer.PurgeTowerCenters | slicer.py:39-58 | It fails exactly when there are fewer candidates than ranges. Otherwise entry i pairs ranges[i] with candidate i, and earlier results are replaced. |
| CuttingSlicer.PurgeTowerCentersDistinct | slicer.py:54-58 | Different ranges get different tower positions. |
| CuttingSlicer.GeneratePathsSpec | slicer.py:60-82 | There is one layer per non-empty cross-section, with strictly increasing z in [min_z, max_z], the shared tower centres, and `num_walls` walls when asked for. |
| CuttingSlicer.CutAll | slicer.py:84-89 | Every layer is cut. |
| Wrappers.AllOkFails | slicer.py:91-96 | Running the per-layer steps in order fails exactly when one of them fails. |
| Wrappers.AllOkAt | slicer.py:91-96 | A successful run holds one result per layer, in order, each the value of that layer's step. |
| CuttingSlicer.ConnectAllFails | slicer.py:91-96 | Connecting all layers, as written or corrected, fails exactly when some layer lacks a purge-tower centre for one of its ranges. |
| CuttingSlicer.ConnectAllAt | slicer.py:91-96 | After a successful run, layer k is layer k routed. Its old connected list is a prefix, and nothing else about it changes. |
| CuttingSlicer.ConnectAllSpec | slicer.py:91-96 | As written, connecting fails exactly when some layer lacks a centre, which is also exactly when the corrected routing fails. Otherwise layer k is `connect_paths` of layer k. It equals the corrected layer k except where some travels start. |
| CuttingSlicer.ConnectAllResumedSpec | slicer.py:91-96 | Corrected routing only (not the program): every fresh layer becomes one threaded tour from (-8, 10). |
| CuttingSlicer.CenterPathsSpec | slicer.py:98-103 | Every z moves by -bottom + 0.2, so the bottom layer lands at 0.2. Points move by the centre minus half the object extent. |
| CuttingSlicer.RoutedLayers | slicer.py:84-96 | Cutting and routing, as written or corrected, keep the number of layers and each layer's z. |
| CuttingSlicer.RoutedLayersResumed | slicer.py:84-96 | Corrected routing only (not the program): cutting and routing fresh layers leaves each as one threaded tour from (-8, 10). |
| CuttingSlicer.CenteredThreaded | slicer.py:98-103 | Centering moves each tour together with its start point. |
| CuttingSlicer.SliceSpec | slicer.py:27-37 | `slice` as written fails when there are too few candidates, and otherwise exactly when the corrected build fails. On success its layers climb strictly from 0.2. Layer k equals the corrected build's layer k except where some travels start. |
| CuttingSlicer.SliceResumedSpec | slicer.py:27-37 | Corrected routing only (not the program): each layer of a successful build is one tour threaded from the shifted (-8, 10). |
| CuttingSlicer.PipelineFails | slicer.py:27-37 | The build, as written or corrected, fails exactly when there are fewer candidates than ranges, or when the material split at some layer's height reports a range that was not asked for (its tower has no centre). |
| CuttingSlicer.PipelineHeights | slicer.py:27-37 | The build, as written or corrected, fails with too few candidates. On success the layers climb strictly, with the first at 0.2. |
| CuttingSlicer.FreshCutLacksCenter | layer.py:95-117 | A freshly cut layer lacks a tower centre exactly when the material split reports a range that was not asked for. |
| CuttingSlicer.CentersFind | slicer.py:54-58 | With one centre per asked range, `generate_purge_tower` finds no centre exactly for a range that was not asked for. |
| CuttingSlicer.CenteredAgree | slicer.py:98-103 | Centering keeps two builds that differ only in travel starts differing only in travel starts. |
| CuttingSlicer.ShiftSameUpToTravelStarts | layer.py:208-210 | Translating two path lists keeps them equal up to travel starts. |
| OutlineSlicer.CenterPoint | outline_slicer.py:14-17 | The centre is half the bed extent in each axis. |
| OutlineSlicer.GenerateOutlinesSpec | outline_slicer.py:31-52 | Layer numbers are 1..n over non-empty heights only. The z values are strictly increasing in [min_z, max_z]. The bottom is the first non-empty z. |
| OutlineSlicer.GeneratePaths | outline_slicer.py:54-58 | Every layer gets its walls. |
| OutlineSlicer.LayerAlternates | outline_slicer.py:54-58 | A fresh layer numbered n gets its walls in the kernel's range order when n is odd and in the reverse order when n is even. Nothing else changes. |
| OutlineSlicer.GeneratePathsAlternates | outline_slicer.py:54-58 | The range order is reversed exactly on even-numbered layers, and only the walls change. |
| OutlineSlicer.ConnectPaths | outline_slicer.py:60-65 | Every layer is routed. |
| OutlineSlicer.PlanarShift | outline_slicer.py:67-72 | The XY shift is the centre, plus the user translation when one is given. |
| OutlineSlicer.CenterPaths | outline_slicer.py:74-76 | Every layer is translated. |
| OutlineSlicer.RoutedLayers | outline_slicer.py:54-65 | Walls and routing keep z, and each layer becomes a threaded tour from (-8, 10). |
| OutlineSlicer.SliceSpec | outline_slicer.py:21-29 | The layers climb strictly with the first at layer_height, and each is a tour threaded from the shifted start. |
| OutlineSlicer.MergeLayersPoints | outline_slicer.py:81-87 | Merging per-layer bounds from a box equals the bounds of all the points. |
| OutlineSlicer.GetBoundsSpec | outline_slicer.py:78-88 | The global bounds are the componentwise min and max over every connected point of every layer, each attained, or infinite without points. |
| Settings.DeepUpdate | demo_batch.py:15-20 | Updating a dict yields a dict. |
| Settings.DeepUpdateKeys | demo_batch.py:15-20 | The result has the keys of both. Keys absent from the override keep their value. A non-dict override value replaces the original; a dict override over a dict merges and keeps the override's keys. |
| Settings.DeepUpdateLeaf | demo_batch.py:15-20 | Every non-dict value the override sets at some key path is found there afterwards, however deep. |
| Settings.DeepUpdateSelf | demo_batch.py:15-20 | Updating a dict with itself changes nothing. |
| Settings.DeepUpdateIdempotent | demo_batch.py:15-20 | Applying the same override twice is the same as applying it once. |
| Settings.MarkStep | demo_batch.py:45-47 | Consecutive marks are one step apart; mark 0 is min and mark n is max. |
| Settings.MarkBetween | demo_batch.py:45-47 | With min ≤ max, every mark lies in [min, max]. |
| Settings.LinearRangesSpec | demo_batch.py:43-48 | A count of zero fails, and a negative count gives no range. Otherwise there are exactly n ranges. The first starts at min and the last ends at max. Consecutive ranges share endpoints, and each has width (max-min)/n. |

## Left out

- The geometry kernel internals are not part of this model: `Polygon2.Offset`, `Clip`, `slice_geometry`, `slice_material` and `CrossSectionSlicer` come from libvcad. They are uninterpreted parameters.
- The outer loop of `cut_into_ranges` is modelled. Its labelled-polygon lists at layer.py:119-126 are dead code and are left out.
- Text output is left out. This covers the header and footer template reads, `self.file.write` formatting, and number formatting in G-code lines; commands are an abstract datatype.
- Floating-point rounding is not modelled; all arithmetic is over reals.
- `math.sqrt` and `math.pi` are configuration parameters, not computed.
- GCode.ExtrusionAmountNonNegative: requires the segment length to be non-negative, because `sqrt` is a parameter.
- GCode.Config: `Valid` states only that the filament area is not zero. That is exactly the case in which the source does not raise `ZeroDivisionError`.
- In-place mutation is modelled as producing new values:
  - `Polyline2.reverse()` on shared polylines;
  - `translate` on shared polylines;
  - `deep_update` on nested dicts.

  Aliasing between layers or dicts is not modelled.
- Router.ConnectInRangeSpec, CuttingLayer.ConnectPaths, OutlineLayer.ConnectPathsSpec and CuttingSlicer.CenterPathsSpec: aliasing within one layer is not modelled. `connect_paths_in_range` gathers every entry whose range lies inside the desired one (layer.py:134-144, outline_layer.py:86-91). With nested or equal ranges, the same polyline object is gathered once per containing range. `generate_linear_ranges` with min = max yields n equal ranges (demo_batch.py:43-48). In that case:
  - the source reverses an already-emitted object in place;
  - `translate_paths` shifts that object once per occurrence (layer.py:208-210, outline_layer.py:172-175).

  The model emits independent copies and shifts each once. Its routing and centering contracts describe the source only when no polyline is gathered twice: the desired ranges must not nest or repeat.
- Router.RemoveAt: `available_paths.remove(path)` removes the first element equal to the path. The model removes the chosen index. The two agree whenever the available tuples are distinct.
- Dict iteration order does not matter to `deep_update`, because each key is visited once. Dicts are maps.
- Steps.Progression: a non-positive step is accepted only when the first value already fails the guard, and then no value is visited, as in the source. When the first value passes, a positive step is required, because with a zero or negative step the source's loop never ends. Infill.ScanLines and Infill.RectilinearInfill accept any spacing when the outlines have no point, and Layering.SliceObject accepts any layer height when min_z lies above max_z, for the same reason.
- CuttingSlicer.PurgeGrid: `Valid` asks for positive spacings on both axes. The source also returns when a spacing is not positive but its loop is never entered (the first row at or above max y, or the first column at or above max x). Those grids yield no candidate, and the model excludes them.
- CuttingSlicer.Settings, OutlineSlicer.Settings: `Valid` asks for a positive layer height, and for a positive bead width when infill or fill is used. The source also finishes in two other cases, and the model excludes both, along with CuttingLayer.GenerateInfill and OutlineLayer.FillPaths, which require a positive bead width. With a non-positive layer height, the source finishes when the object's min z lies above its max z, and then it makes no layer. With a non-positive bead width, it finishes when the offset boundary the kernel returns has no point, and then it makes no infill.
- CuttingSlicer.GeneratePaths, OutlineSlicer.GenerateOutlines: they return the layers of one build. `self.layers` accumulates across repeated `slice` calls on the same object, and that is not modelled.
- Polyline: kernel results are assumed to be non-empty polylines, through the `Polyline` type. On an empty polyline the source raises `IndexError` at `points()[0]` or `points()[-1]`. The reads are at layer.py:88, 153, 164 and 169-170, and at outline_layer.py:101, 112 and 117-118. That error path is not modelled.
- Infill.OutlinePoints: `for point in outline` over a `Polygon2` (infill.py:10) is read as a walk over the polygon's outer boundary. Holes lie inside that boundary, so the bounding box is the same either way.
- Several call sites disagree with the callee's signature. Each function is modelled by its own signature:
  - outline_slicer.py:47 omits the `fill_with_infill` argument of outline_layer.py:8, so `OutlineSlicer.Settings.fill` supplies it;
  - outline_layer.py:36 passes two arguments to the one-argument `write_layer` of gcode_writer.py:98;
  - the writer constructor and header calls at outline_slicer.py:93 and slicer.py:107 do not match gcode_writer.py:5 and gcode_writer.py:20.
- `write_gcode` of both slicers is left out: it drives the writer over the layers and file I/O. The per-layer writer is modelled in GCode.WriteLayer.
- Visualization, colour profiles, delta-E analysis, the demo and workshop scripts, and object construction are left out. They are plotting, imaging and pyvcad setup.

## Findings

| source | as written | input that shows it | evidently intended | confidence | as-written member | corrected member |
|---|---|---|---|---|---|---|
| layer.py:200-206 | Each range's paths are routed from `previous_end`, the point reached before that range's purge tower was generated at layer.py:202. Their first travel therefore starts at a point the nozzle has left. | A layer with one walls range. Its purge tower has at least one non-empty wall and ends away from (-8, 10), and the range has at least one path. The entry after the tower is a travel from (-8, 10), not from the tower's last point. | The range's first travel leaves from the last point of its purge tower, which gives one continuous tour. | not executed | CuttingLayer.AsWrittenTravelSkipsTower | CuttingLayer.ConnectPathsResumedThreaded |
