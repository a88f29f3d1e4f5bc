/** Failure-carrying values used wherever the scripts raise an exception or
    return a "nothing" value. */
module Wrappers {

  datatype Option<+T> = None | Some(value: T)

  datatype Result<+R, +E> = Ok(value: R) | Err(error: E)

  /** The values of a list of conversions done left to right, as a list
      comprehension or a dictionary literal does them: all of them, or the
      position of the first one that failed (and raised). */
  function Collect<T>(parsed: seq<Option<T>>): (r: Result<seq<T>, nat>)
    ensures r.Ok? ==> |r.value| == |parsed| && forall k :: 0 <= k < |parsed| ==> parsed[k] == Some(r.value[k])
    ensures r.Err? ==> r.error < |parsed| && parsed[r.error].None?
    ensures r.Err? ==> forall k :: 0 <= k < r.error ==> parsed[k].Some?
  {
    if parsed == [] then Ok([])
    else if parsed[0].None? then Err(0)
    else
      var rest := Collect(parsed[1..]);
      if rest.Err? then Err(rest.error + 1) else Ok([parsed[0].value] + rest.value)
  }

  /** The values are collected exactly when every conversion succeeded. */
  lemma CollectOk<T>(parsed: seq<Option<T>>)
    ensures Collect(parsed).Ok? <==> forall k :: 0 <= k < |parsed| ==> parsed[k].Some?
  {
  }

  /** The first failed conversion is the one reported. */
  lemma CollectFirstFailure<T>(parsed: seq<Option<T>>, k: nat)
    requires k < |parsed| && parsed[k].None?
    requires forall m :: 0 <= m < k ==> parsed[m].Some?
    ensures Collect(parsed) == Err(k)
  {
  }
}
