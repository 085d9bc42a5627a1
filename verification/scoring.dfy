/** The score of one key guess: the largest absolute correlation between its
    hypothesis vector and any measurement column. The Pearson coefficient is
    an opaque parameter `corr`. */
module Scoring {
  import opened Results
  import opened Traces

  function Abs(x: real): (r: real)
    ensures r >= 0.0
    ensures r == x || r == -x
  {
    if x < 0.0 then -x else x
  }

  /** Python's `max` of a non-empty list of reals. */
  function Max(xs: seq<real>): (m: real)
    requires |xs| > 0
    ensures forall k :: 0 <= k < |xs| ==> xs[k] <= m
    ensures exists k :: 0 <= k < |xs| && xs[k] == m
  {
    if |xs| == 1 then xs[0]
    else
      var m := Max(xs[..|xs| - 1]);
      assert forall k :: 0 <= k < |xs| - 1 ==> xs[..|xs| - 1][k] == xs[k];
      if xs[|xs| - 1] > m then xs[|xs| - 1] else m
  }

  /** `max(xs)`, which raises `ValueError` on an empty list. */
  function MaxOf(xs: seq<real>): (r: Result<real>)
    ensures r.Failure? <==> |xs| == 0
    ensures r.Failure? ==> r.error == EmptyMax
    ensures r.Success? ==>
      (forall k :: 0 <= k < |xs| ==> xs[k] <= r.value) &&
      (exists k :: 0 <= k < |xs| && xs[k] == r.value)
  {
    if |xs| == 0 then Failure(EmptyMax) else Success(Max(xs))
  }

  /** The list `correlations` for one guess: `|corr(hyp, column idx)|` for
      every sample index below `n`, in index order. */
  function Correlations(corr: (seq<int>, seq<real>) -> real, hyp: seq<int>,
                        traces: seq<seq<real>>, n: nat): (r: seq<real>)
    requires forall t :: 0 <= t < |traces| ==> n <= |traces[t]|
    ensures |r| == n
    ensures forall idx :: 0 <= idx < n ==> r[idx] == Abs(corr(hyp, Column(traces, idx)))
  {
    if n == 0 then []
    else Correlations(corr, hyp, traces, n - 1) + [Abs(corr(hyp, Column(traces, n - 1)))]
  }

  /** The guess has a score: the traces form a matrix with at least one sample. */
  predicate Scorable(traces: seq<seq<real>>)
  {
    |traces| > 0 && Rectangular(traces) && |traces[0]| > 0
  }

  /** `max(correlations)` for one hypothesis vector: no smaller than the
      absolute correlation with any column, and equal to one of them. */
  function GuessScore(corr: (seq<int>, seq<real>) -> real, hyp: seq<int>,
                      traces: seq<seq<real>>): (r: Result<real>)
    ensures r.Success? <==> Scorable(traces)
    ensures r.Failure? ==>
      r.error == (if |traces| > 0 && Rectangular(traces) then EmptyMax else NotTwoDimensional)
    ensures r.Success? ==> r.value >= 0.0
    ensures r.Success? ==>
      forall idx :: 0 <= idx < |traces[0]| ==> Abs(corr(hyp, Column(traces, idx))) <= r.value
    ensures r.Success? ==>
      exists idx :: 0 <= idx < |traces[0]| && Abs(corr(hyp, Column(traces, idx))) == r.value
  {
    var n :- NumSamples(traces);
    var cs := Correlations(corr, hyp, traces, n);
    MaxOf(cs)
  }
}
