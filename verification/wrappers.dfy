/** Failure-compatible result type for the fatal errors of the slicer pipeline. */
module Wrappers {

  /** The fatal conditions the pipeline raises instead of producing output. */
  datatype Error =
    | NotEnoughPurgeCenters   // slicer.py raises ValueError
    | NoPurgeCenterForRange   // layer.py dereferences a missing center
    | FullMixingRange         // gcode_writer.py asserts against the range (0, 1)
    | NoRanges                // demo_batch.py divides by a zero range count

  datatype Option<+T> = None | Some(value: T)

  datatype Result<+T> = Ok(value: T) | Err(error: Error) {

    predicate IsFailure() {
      Err?
    }

    function PropagateFailure<U>(): Result<U>
      requires Err?
    {
      Err(error)
    }

    function Extract(): T
      requires Ok?
    {
      value
    }
  }

  /** Runs a sequence of fallible steps in order: the values of all of them, or the error of the
      first one that fails. */
  function AllOk<T>(rs: seq<Result<T>>): Result<seq<T>>
    decreases |rs|
  {
    if |rs| == 0 then Ok([])
    else
      var v :- rs[0];
      var rest :- AllOk(rs[1..]);
      Ok([v] + rest)
  }

  /** The run fails exactly when some step fails. */
  lemma {:induction false} AllOkFails<T>(rs: seq<Result<T>>)
    ensures AllOk(rs).Err? <==> exists k :: 0 <= k < |rs| && rs[k].Err?
    decreases |rs|
  {
    if |rs| > 0 {
      AllOkFails(rs[1..]);
      if rs[0].Ok? && AllOk(rs[1..]).Err? {
        var k :| 0 <= k < |rs[1..]| && rs[1..][k].Err?;
        assert rs[k + 1] == rs[1..][k];
      }
      if exists k :: 0 <= k < |rs| && rs[k].Err? {
        var k :| 0 <= k < |rs| && rs[k].Err?;
        if k > 0 {
          assert rs[1..][k - 1] == rs[k];
        }
      }
    }
  }

  /** A successful run holds one value per step, in order. */
  lemma {:induction false} AllOkAt<T>(rs: seq<Result<T>>, k: nat)
    requires AllOk(rs).Ok? && k < |rs|
    ensures |AllOk(rs).value| == |rs| && rs[k].Ok? && AllOk(rs).value[k] == rs[k].value
    decreases |rs|
  {
    assert AllOk(rs).value == [rs[0].value] + AllOk(rs[1..]).value;
    if |rs| > 1 {
      AllOkAt(rs[1..], if k > 0 then k - 1 else 0);
      if k > 0 {
        assert rs[1..][k - 1] == rs[k];
      }
    }
  }
}
