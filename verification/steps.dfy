/** The arithmetic progressions behind the slicer's `while v <= limit: ...; v += step` loops:
    the z loop of both slicers, the infill scan lines and the purge-tower grid. */
module Steps {

  /** Whether a value still passes the loop guard: `v <= limit`, or `v < limit` when strict. */
  predicate Within(v: real, limit: real, strict: bool) {
    if strict then v < limit else v <= limit
  }

  /** Number of loop iterations still to run, as a termination measure. */
  function Remaining(v: real, step: real, limit: real, strict: bool): nat
    requires step > 0.0
  {
    if Within(v, limit, strict) then ((limit - v) / step).Floor + 1 else 0
  }

  lemma FloorDecrement(a: real)
    ensures (a - 1.0).Floor == a.Floor - 1
  {
  }

  lemma DivideStep(a: real, h: real)
    requires h > 0.0
    ensures (a - h) / h == a / h - 1.0
  {
    calc {
      (a - h) / h;
      a / h - h / h;
    }
  }

  /** Scaling by an index: (k + 1)·h = k·h + h. */
  lemma ScaleSucc(k: nat, h: real)
    ensures ((k + 1) as real) * h == (k as real) * h + h
  {
  }

  /** How many times the loop body runs: once per value passing the guard. */
  function Count(start: real, step: real, limit: real, strict: bool): nat
    requires step > 0.0
    decreases Remaining(start, step, limit, strict)
  {
    if Within(start, limit, strict) then
      assert Remaining(start + step, step, limit, strict) < Remaining(start, step, limit, strict) by {
        DivideStep(limit - start, step);
        FloorDecrement((limit - start) / step);
      }
      1 + Count(start + step, step, limit, strict)
    else
      0
  }

  /** Every value the loop visits passes the guard. */
  lemma {:induction false} CountWithin(start: real, step: real, limit: real, strict: bool, k: nat)
    requires step > 0.0 && k < Count(start, step, limit, strict)
    ensures Within(start + (k as real) * step, limit, strict)
    decreases k
  {
    if k > 0 {
      CountWithin(start + step, step, limit, strict, k - 1);
      ScaleSucc(k - 1, step);
    }
  }

  /** The first value past the last visited one fails the guard: the loop stops there. */
  lemma {:induction false} CountStops(start: real, step: real, limit: real, strict: bool)
    requires step > 0.0
    ensures !Within(start + (Count(start, step, limit, strict) as real) * step, limit, strict)
    decreases Count(start, step, limit, strict)
  {
    if Within(start, limit, strict) {
      var n := Count(start + step, step, limit, strict);
      assert Count(start, step, limit, strict) == n + 1;
      CountStops(start + step, step, limit, strict);
      ScaleSucc(n, step);
    } else {
      assert Count(start, step, limit, strict) == 0;
    }
  }

  lemma ValuesWithin(start: real, step: real, limit: real, strict: bool, r: seq<real>)
    requires step > 0.0 && |r| == Count(start, step, limit, strict)
    requires forall k :: 0 <= k < |r| ==> r[k] == start + (k as real) * step
    ensures forall k :: 0 <= k < |r| ==> Within(r[k], limit, strict)
  {
    forall k | 0 <= k < |r| ensures Within(r[k], limit, strict) {
      CountWithin(start, step, limit, strict, k);
    }
  }

  /** The first n values start, start + step, start + 2·step, ... */
  function Values(start: real, step: real, n: nat): (r: seq<real>)
    ensures |r| == n && forall k :: 0 <= k < n ==> r[k] == start + (k as real) * step
  {
    seq(n, k => start + (k as real) * step)
  }

  /** The values start, start + step, start + 2·step, ... visited while the guard holds. When
      `start` already fails the guard the loop body never runs, whatever the step; otherwise the
      loop only ends for a positive step. */
  function Progression(start: real, step: real, limit: real, strict: bool): (r: seq<real>)
    requires step > 0.0 || !Within(start, limit, strict)
    ensures forall k :: 0 <= k < |r| ==> r[k] == start + (k as real) * step
    ensures forall k :: 0 <= k < |r| ==> Within(r[k], limit, strict)
    ensures !Within(start + (|r| as real) * step, limit, strict)
  {
    if !Within(start, limit, strict) then
      []
    else
      var n := Count(start, step, limit, strict);
      CountStops(start, step, limit, strict);
      var vs := Values(start, step, n);
      assert !Within(start + (Count(start, step, limit, strict) as real) * step, limit, strict);
      ValuesWithin(start, step, limit, strict, vs);
      vs
  }

  /** Every progression is strictly increasing. */
  lemma ProgressionIncreasing(start: real, step: real, limit: real, strict: bool, i: nat, j: nat)
    requires step > 0.0
    requires i < j < |Progression(start, step, limit, strict)|
    ensures Progression(start, step, limit, strict)[i] < Progression(start, step, limit, strict)[j]
  {
    ValuesIncreasing(start, step, Progression(start, step, limit, strict), i, j);
  }

  lemma ValuesIncreasing(start: real, step: real, r: seq<real>, i: nat, j: nat)
    requires step > 0.0 && i < j < |r|
    requires forall k :: 0 <= k < |r| ==> r[k] == start + (k as real) * step
    ensures r[i] < r[j]
  {
    ScaleIncreasing(i, j, step);
  }

  /** Scaling by a positive step keeps index order. */
  lemma ScaleIncreasing(i: nat, j: nat, h: real)
    requires i < j && h > 0.0
    ensures (i as real) * h < (j as real) * h
  {
    var d := (j - i) as real;
    assert (j as real) * h == (i as real) * h + d * h;
    assert d * h > 0.0;
  }

  /** A progression starting past its limit is empty; one starting within it starts at `start`. */
  lemma ProgressionHead(start: real, step: real, limit: real, strict: bool)
    requires step > 0.0 || !Within(start, limit, strict)
    ensures |Progression(start, step, limit, strict)| > 0 <==> Within(start, limit, strict)
  {
  }
}
