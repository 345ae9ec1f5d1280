/** The batch driver's helpers (demo_batch.py): merging a settings override into loaded
    settings, and splitting [min, max] into equal material ranges. */
module Settings {
  import opened Geometry
  import opened Wrappers

  /** A settings document: a dict of named values, or any other value. */
  datatype Json = Obj(fields: map<string, Json>) | Leaf(text: string)

  /** `deep_update(original, override)` on two dicts: every override key is written into the
      original, except that a dict meeting a dict is merged recursively; keys the override lacks
      are kept. */
  function DeepUpdate(orig: Json, ovr: Json): (r: Json)
    requires orig.Obj? && ovr.Obj?
    ensures r.Obj?
    decreases ovr
  {
    var o, v := orig.fields, ovr.fields;
    Obj(map k | k in o.Keys + v.Keys ::
      if k !in v then o[k]
      else if k in o && o[k].Obj? && v[k].Obj? then DeepUpdate(o[k], v[k])
      else v[k])
  }

  /** The value at a non-empty key path, descending through dicts. */
  function Get(j: Json, path: seq<string>): Option<Json>
    requires |path| > 0
    decreases |path|
  {
    if !j.Obj? || path[0] !in j.fields then None
    else if |path| == 1 then Some(j.fields[path[0]])
    else Get(j.fields[path[0]], path[1..])
  }

  /** The result has exactly the keys of both; a key the override lacks keeps its original
      value; a key the override sets to something other than a dict takes that value, and so
      does a key set to a dict where the original has no dict; a dict set over a dict keeps all
      the override's keys. */
  lemma {:induction false} DeepUpdateKeys(orig: Json, ovr: Json)
    requires orig.Obj? && ovr.Obj?
    ensures var r := DeepUpdate(orig, ovr).fields; var o := orig.fields; var v := ovr.fields;
      && r.Keys == o.Keys + v.Keys
      && (forall k :: k in o && k !in v ==> r[k] == o[k])
      && (forall k :: k in v && !(k in o && o[k].Obj? && v[k].Obj?) ==> r[k] == v[k])
      && (forall k :: k in v && v[k].Obj? ==> r[k].Obj? && v[k].fields.Keys <= r[k].fields.Keys)
    decreases ovr
  {
    var r := DeepUpdate(orig, ovr).fields;
    var o, v := orig.fields, ovr.fields;
    forall k | k in v && v[k].Obj?
      ensures r[k].Obj? && v[k].fields.Keys <= r[k].fields.Keys
    {
      if k in o && o[k].Obj? {
        DeepUpdateKeys(o[k], v[k]);
      }
    }
  }

  /** Every value the override sets at the end of a key path that is not a dict is found at
      that path afterwards, however deep. */
  lemma {:induction false} DeepUpdateLeaf(orig: Json, ovr: Json, path: seq<string>)
    requires orig.Obj? && ovr.Obj?
    requires |path| > 0 && Get(ovr, path).Some? && Get(ovr, path).value.Leaf?
    ensures Get(DeepUpdate(orig, ovr), path) == Get(ovr, path)
    decreases |path|
  {
    var k := path[0];
    var o, v := orig.fields, ovr.fields;
    if |path| > 1 && k in o && o[k].Obj? && v[k].Obj? {
      DeepUpdateLeaf(o[k], v[k], path[1..]);
    }
  }

  /** Merging a dict into itself leaves it unchanged. */
  lemma {:induction false} DeepUpdateSelf(m: Json)
    requires m.Obj?
    ensures DeepUpdate(m, m) == m
    decreases m
  {
    var r := DeepUpdate(m, m).fields;
    forall k | k in m.fields ensures r[k] == m.fields[k] {
      if m.fields[k].Obj? {
        DeepUpdateSelf(m.fields[k]);
      }
    }
  }

  /** Applying the same override twice is the same as applying it once. */
  lemma {:induction false} DeepUpdateIdempotent(orig: Json, ovr: Json)
    requires orig.Obj? && ovr.Obj?
    ensures DeepUpdate(DeepUpdate(orig, ovr), ovr) == DeepUpdate(orig, ovr)
    decreases ovr
  {
    var once := DeepUpdate(orig, ovr);
    var twice := DeepUpdate(once, ovr);
    var o, v := orig.fields, ovr.fields;
    forall k | k in once.fields ensures twice.fields[k] == once.fields[k] {
      if k in v && v[k].Obj? {
        if k in o && o[k].Obj? {
          DeepUpdateIdempotent(o[k], v[k]);
        } else {
          DeepUpdateSelf(v[k]);
        }
      }
    }
  }

  /** An empty override changes nothing, and an override of an empty dict is the override. */
  lemma DeepUpdateEmpty(m: Json)
    requires m.Obj?
    ensures DeepUpdate(m, Obj(map[])) == m
    ensures DeepUpdate(Obj(map[]), m) == m
  {
  }

  // ---------------------------------------------------------------- material ranges

  /** `generate_linear_ranges(num_ranges, min, max)`: `num_ranges` equal consecutive ranges.
      A count of zero divides by zero; a negative count produces no range. */
  function LinearRanges(n: int, lo: real, hi: real): Result<seq<Range>> {
    if n == 0 then Err(NoRanges)
    else if n < 0 then Ok([])
    else
      Ok(seq(n, i requires 0 <= i < n => Range(Mark(n, lo, hi, i), Mark(n, lo, hi, i + 1))))
  }

  /** The step (max − min) / n times k, from min. */
  function Mark(n: int, lo: real, hi: real, k: int): real
    requires n != 0
  {
    lo + (k as real) * ((hi - lo) / (n as real))
  }

  /** Consecutive marks are one step apart; mark 0 is min and mark n is max. */
  lemma MarkStep(n: int, lo: real, hi: real, k: int)
    requires n > 0
    ensures Mark(n, lo, hi, k + 1) - Mark(n, lo, hi, k) == (hi - lo) / (n as real)
    ensures Mark(n, lo, hi, 0) == lo && Mark(n, lo, hi, n) == hi
  {
    var step := (hi - lo) / (n as real);
    assert ((k + 1) as real) * step == (k as real) * step + step;
    assert (n as real) * step == hi - lo;
  }

  lemma MarkBetween(n: int, lo: real, hi: real, k: int)
    requires n > 0 && 0 <= k <= n && lo <= hi
    ensures lo <= Mark(n, lo, hi, k) <= hi
  {
    var step := (hi - lo) / (n as real);
    assert step >= 0.0;
    assert (k as real) * step >= 0.0;
    assert (n as real) * step == hi - lo;
    assert ((n - k) as real) * step >= 0.0;
    assert (n as real) * step - (k as real) * step == ((n - k) as real) * step;
  }

  /** Exactly n ranges: the first starts at min, each ends where the next starts, each spans
      (max − min) / n, and the last ends at max; with min ≤ max they stay within [min, max]. */
  lemma LinearRangesSpec(n: int, lo: real, hi: real)
    ensures LinearRanges(n, lo, hi).Err? <==> n == 0
    ensures n < 0 ==> LinearRanges(n, lo, hi) == Ok([])
    ensures n > 0 ==> var r := LinearRanges(n, lo, hi).value;
      && |r| == n
      && r[0].lower == lo
      && r[n - 1].higher == hi
      && (forall i :: 0 <= i < n - 1 ==> r[i].higher == r[i + 1].lower)
      && (forall i :: 0 <= i < n ==> r[i].higher - r[i].lower == (hi - lo) / (n as real))
      && (lo <= hi ==> forall i :: 0 <= i < n ==> lo <= r[i].lower <= r[i].higher <= hi)
  {
    if n > 0 {
      var r := LinearRanges(n, lo, hi).value;
      MarkStep(n, lo, hi, 0);
      forall i | 0 <= i < n ensures r[i].higher - r[i].lower == (hi - lo) / (n as real) {
        MarkStep(n, lo, hi, i);
      }
      if lo <= hi {
        forall i | 0 <= i < n ensures lo <= r[i].lower <= r[i].higher <= hi {
          MarkBetween(n, lo, hi, i);
          MarkBetween(n, lo, hi, i + 1);
        }
      }
    }
  }
}
