/** The z loop both slicers run (`generate_paths` in slicer.py, `generate_outlines` in
    outline_slicer.py): heights from the bottom of the object in layer-height steps, a layer only
    where the cross-section is not empty, layers numbered from 1 over those heights only. */
module Layering {
  import opened Geometry
  import opened Steps

  /** A non-empty cross-section and the number of the layer made from it. */
  datatype Slice = Slice(z: real, outline: seq<Polygon>, num: int)

  /** The slices and the model bottom the loop leaves behind. */
  datatype SliceRun = SliceRun(slices: seq<Slice>, bottom: real)

  /** The loop from height `zs[0]` on, with the next layer number and the bottom so far:
      `model_bottom_z` follows every height while the layer number is still 1. */
  function SliceHeights(crossSection: real -> seq<Polygon>, zs: seq<real>, num: int, bottom: real): SliceRun
    decreases |zs|
  {
    if |zs| == 0 then SliceRun([], bottom)
    else
      var z := zs[0];
      var outline := crossSection(z);
      var bottom1 := if num == 1 then z else bottom;
      if |outline| > 0 then
        var rest := SliceHeights(crossSection, zs[1..], num + 1, bottom1);
        SliceRun([Slice(z, outline, num)] + rest.slices, rest.bottom)
      else
        SliceHeights(crossSection, zs[1..], num, bottom1)
  }

  /** The heights the loop visits: `z = min_z; while z <= max_z: ...; z += layer_height`. */
  function Heights(minZ: real, maxZ: real, layerHeight: real): seq<real>
    requires layerHeight > 0.0 || minZ > maxZ
  {
    Progression(minZ, layerHeight, maxZ, false)
  }

  /** The whole loop: layer numbers start at 1 and the bottom at `min_z`. */
  function SliceObject(crossSection: real -> seq<Polygon>, minZ: real, maxZ: real, layerHeight: real): SliceRun
    requires layerHeight > 0.0 || minZ > maxZ
  {
    SliceHeights(crossSection, Heights(minZ, maxZ, layerHeight), 1, minZ)
  }

  /** The heights whose cross-section is not empty, in order. */
  function NonEmptyHeights(crossSection: real -> seq<Polygon>, zs: seq<real>): seq<real>
    decreases |zs|
  {
    if |zs| == 0 then []
    else if |crossSection(zs[0])| > 0 then [zs[0]] + NonEmptyHeights(crossSection, zs[1..])
    else NonEmptyHeights(crossSection, zs[1..])
  }

  /** The loop makes one slice per non-empty height, in order, numbered consecutively from
      `num`, each holding that height's cross-section. */
  lemma {:induction false} SliceHeightsSpec(crossSection: real -> seq<Polygon>, zs: seq<real>, num: int, bottom: real)
    ensures var s := SliceHeights(crossSection, zs, num, bottom).slices; var hs := NonEmptyHeights(crossSection, zs);
      && |s| == |hs|
      && forall k :: 0 <= k < |s| ==>
           s[k].z == hs[k] && s[k].num == num + k && s[k].outline == crossSection(hs[k])
    decreases |zs|
  {
    if |zs| > 0 {
      var z := zs[0];
      var bottom1 := if num == 1 then z else bottom;
      if |crossSection(z)| > 0 {
        SliceHeightsSpec(crossSection, zs[1..], num + 1, bottom1);
      } else {
        SliceHeightsSpec(crossSection, zs[1..], num, bottom1);
      }
    }
  }

  /** While no layer has been made yet (number 1), the bottom ends at the first non-empty
      height; when there is none it is the last height visited, or unchanged without heights. */
  lemma {:induction false} SliceHeightsBottom(crossSection: real -> seq<Polygon>, zs: seq<real>, bottom: real)
    ensures var r := SliceHeights(crossSection, zs, 1, bottom); var hs := NonEmptyHeights(crossSection, zs);
      && (|hs| > 0 ==> r.bottom == hs[0])
      && (|hs| == 0 && |zs| > 0 ==> r.bottom == zs[|zs| - 1])
      && (|zs| == 0 ==> r.bottom == bottom)
    decreases |zs|
  {
    if |zs| > 0 {
      if |crossSection(zs[0])| > 0 {
        BottomSettled(crossSection, zs[1..], 2, zs[0]);
      } else {
        SliceHeightsBottom(crossSection, zs[1..], zs[0]);
      }
    }
  }

  /** Once a layer has been made, the bottom no longer moves. */
  lemma {:induction false} BottomSettled(crossSection: real -> seq<Polygon>, zs: seq<real>, num: int, bottom: real)
    requires num > 1
    ensures SliceHeights(crossSection, zs, num, bottom).bottom == bottom
    decreases |zs|
  {
    if |zs| > 0 {
      if |crossSection(zs[0])| > 0 {
        BottomSettled(crossSection, zs[1..], num + 1, bottom);
      } else {
        BottomSettled(crossSection, zs[1..], num, bottom);
      }
    }
  }

  /** Every non-empty height is one of the visited heights, at a position no earlier than its
      rank, and the ranks keep their order. */
  lemma {:induction false} NonEmptyHeightsSub(crossSection: real -> seq<Polygon>, zs: seq<real>)
    ensures var hs := NonEmptyHeights(crossSection, zs);
      && |hs| <= |zs|
      && forall k :: 0 <= k < |hs| ==> hs[k] in zs
    decreases |zs|
  {
    if |zs| > 0 {
      NonEmptyHeightsSub(crossSection, zs[1..]);
    }
  }

  /** A filtered strictly increasing list is strictly increasing. */
  lemma {:induction false} NonEmptyHeightsIncreasing(crossSection: real -> seq<Polygon>, zs: seq<real>)
    requires forall i, j :: 0 <= i < j < |zs| ==> zs[i] < zs[j]
    ensures var hs := NonEmptyHeights(crossSection, zs);
      forall i, j :: 0 <= i < j < |hs| ==> hs[i] < hs[j]
    decreases |zs|
  {
    if |zs| > 0 {
      var tail := zs[1..];
      assert forall i, j :: 0 <= i < j < |tail| ==> tail[i] < tail[j] by {
        forall i, j | 0 <= i < j < |tail| ensures tail[i] < tail[j] {
          assert tail[i] == zs[i + 1] && tail[j] == zs[j + 1];
        }
      }
      NonEmptyHeightsIncreasing(crossSection, tail);
      NonEmptyHeightsSub(crossSection, tail);
      var hs := NonEmptyHeights(crossSection, zs);
      if |crossSection(zs[0])| > 0 {
        var ht := NonEmptyHeights(crossSection, tail);
        forall k | 0 <= k < |ht| ensures zs[0] < ht[k] {
          var m :| 0 <= m < |tail| && tail[m] == ht[k];
          assert tail[m] == zs[m + 1];
        }
      }
    }
  }

  /** Over the object: one layer per non-empty height, numbered 1, 2, ... in order; heights are
      strictly increasing and lie in [min_z, max_z]; the bottom is the first layer's height. */
  lemma SliceObjectSpec(crossSection: real -> seq<Polygon>, minZ: real, maxZ: real, layerHeight: real)
    requires layerHeight > 0.0 || minZ > maxZ
    ensures var r := SliceObject(crossSection, minZ, maxZ, layerHeight); var s := r.slices;
      && (forall k :: 0 <= k < |s| ==> s[k].num == k + 1 && |s[k].outline| > 0 && s[k].outline == crossSection(s[k].z))
      && (forall k :: 0 <= k < |s| ==> minZ <= s[k].z <= maxZ)
      && (forall i, j :: 0 <= i < j < |s| ==> s[i].z < s[j].z)
      && (|s| > 0 ==> r.bottom == s[0].z)
  {
    var zs := Heights(minZ, maxZ, layerHeight);
    var hs := NonEmptyHeights(crossSection, zs);
    SliceHeightsSpec(crossSection, zs, 1, minZ);
    SliceHeightsBottom(crossSection, zs, minZ);
    NonEmptyHeightsSub(crossSection, zs);
    forall i, j | 0 <= i < j < |zs| ensures zs[i] < zs[j] {
      ProgressionIncreasing(minZ, layerHeight, maxZ, false, i, j);
    }
    NonEmptyHeightsIncreasing(crossSection, zs);
    NonEmptyHeightsNonEmpty(crossSection, zs);
    var s := SliceObject(crossSection, minZ, maxZ, layerHeight).slices;
    forall k | 0 <= k < |s| ensures minZ <= s[k].z <= maxZ {
      var m :| 0 <= m < |zs| && zs[m] == hs[k];
      assert zs[m] == minZ + (m as real) * layerHeight;
    }
  }

  /** Every height kept has a non-empty cross-section. */
  lemma {:induction false} NonEmptyHeightsNonEmpty(crossSection: real -> seq<Polygon>, zs: seq<real>)
    ensures forall h :: h in NonEmptyHeights(crossSection, zs) ==> |crossSection(h)| > 0
    decreases |zs|
  {
    if |zs| > 0 {
      NonEmptyHeightsNonEmpty(crossSection, zs[1..]);
    }
  }
}
