/** The trace matrix: its second dimension and its measurement columns. */
module Traces {
  import opened Results

  /** Every trace has as many samples as the first one. */
  predicate Rectangular(traces: seq<seq<real>>)
  {
    forall t :: 0 <= t < |traces| ==> |traces[t]| == |traces[0]|
  }

  /** `numpy.shape(traces)[1]`: the number of samples per trace. An empty
      trace list has shape `(0,)` and a ragged one has no second axis, so
      both raise `IndexError`. */
  function NumSamples(traces: seq<seq<real>>): (r: Result<nat>)
    ensures r.Success? <==> |traces| > 0 && Rectangular(traces)
    ensures r.Failure? ==> r.error == NotTwoDimensional
    ensures r.Success? ==> forall t :: 0 <= t < |traces| ==> |traces[t]| == r.value
  {
    if |traces| > 0 && Rectangular(traces) then Success(|traces[0]|)
    else Failure(NotTwoDimensional)
  }

  /** `[trace[idx] for trace in traces]`: sample `idx` of every trace, in
      trace order. */
  function Column(traces: seq<seq<real>>, idx: nat): (r: seq<real>)
    requires forall t :: 0 <= t < |traces| ==> idx < |traces[t]|
    ensures |r| == |traces|
    ensures forall t :: 0 <= t < |traces| ==> r[t] == traces[t][idx]
  {
    if |traces| == 0 then []
    else Column(traces[..|traces| - 1], idx) + [traces[|traces| - 1][idx]]
  }
}
