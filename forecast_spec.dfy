/** Value-level definitions of the AR forecasting pipeline of ARIMAForecast.arimaForecast.
    Series are sequences of reals (the source's doubles, without rounding); every function
    here is the specification that a method in module ARIMAForecast is proved against. */
module ForecastSpec {

  datatype Option<+T> = None | Some(value: T)

  datatype Result<+R, +E> = Success(value: R) | Failure(error: E)

  /** The unchecked Java exceptions the pipeline can raise, plus any exception raised
      inside the least-squares library, which the model does not look into. */
  datatype Error =
    | NegativeArraySize   // `new double[k]` with k < 0
    | IndexOutOfBounds    // an array read or System.arraycopy outside the array
    | SolverFailure       // newSampleData / estimateRegressionParameters threw

  /** The least-squares fit: targets y and design rows x to coefficients, or a failure. */
  type Solver = (seq<real>, seq<seq<real>>) -> Option<seq<real>>

  /** Single-lag difference of span d: entry i is data[i + d] - data[i]. */
  function Differenced(data: seq<real>, d: nat): (r: seq<real>)
    requires d <= |data|
    ensures |r| == |data| - d
  {
    seq(|data| - d, i requires 0 <= i < |data| - d => data[i + d] - data[i])
  }

  /** Regression targets: every differenced value that has p predecessors. */
  function Targets(s: seq<real>, p: nat): (y: seq<real>)
    requires p <= |s|
    ensures |y| == |s| - p
  {
    s[p..]
  }

  /** Lag matrix: row i holds the p values before target i, the most recent one in column 0. */
  function Design(s: seq<real>, p: nat): (x: seq<seq<real>>)
    requires p <= |s|
    ensures |x| == |s| - p
    ensures forall i :: 0 <= i < |x| ==> |x[i]| == p
  {
    seq(|s| - p, i requires 0 <= i < |s| - p =>
      seq(p, j requires 0 <= j < p => s[i + p - j - 1]))
  }

  /** Sum over j < k of c[j] * row[j]: the fitted linear form applied to a design row. */
  function RowDot(c: seq<real>, row: seq<real>, k: nat): (dot: real)
    requires k <= |c| && k <= |row|
  {
    if k == 0 then 0.0 else RowDot(c, row, k - 1) + c[k - 1] * row[k - 1]
  }

  /** Sum over j < k of c[j] * w[|w| - 1 - j], accumulated in increasing j: coefficient j
      meets the value j + 1 steps back in a window w kept in time order. */
  function LagDot(c: seq<real>, w: seq<real>, k: nat): (dot: real)
    requires k <= |c| && k <= |w|
  {
    if k == 0 then 0.0 else LagDot(c, w, k - 1) + c[k - 1] * w[|w| - k]
  }

  /** One-step prediction from a window in time order. */
  function Predict(c: seq<real>, w: seq<real>): (next: real)
    requires |w| <= |c|
  {
    LagDot(c, w, |w|)
  }

  /** The last p entries of s, in time order. */
  function Tail(s: seq<real>, p: nat): (t: seq<real>)
    requires p <= |s|
    ensures |t| == p
  {
    s[|s| - p..]
  }

  /** The first k recursive forecasts in differenced space: each one is predicted from the
      last p values of the history followed by the forecasts made before it. */
  function ForecastSeq(h: seq<real>, c: seq<real>, p: nat, k: nat): (f: seq<real>)
    requires p <= |h|
    requires k > 0 ==> 1 <= p <= |c|
    ensures |f| == k
  {
    if k == 0 then []
    else
      var prev := ForecastSeq(h, c, p, k - 1);
      prev + [Predict(c, Tail(h + prev, p))]
  }

  /** Reverse differencing as the source does it: entry i of diff is anchored at the fixed
      offset |original| - |diff| + i of the original series. */
  function Reanchored(original: seq<real>, diff: seq<real>): (r: seq<real>)
    requires |diff| <= |original|
    ensures |r| == |diff|
  {
    seq(|diff|, i requires 0 <= i < |diff| => diff[i] + original[|original| - |diff| + i])
  }

  /** An independent inverse of Differenced: rebuilds a series from its first |seed| values,
      each later value being the one |seed| steps earlier plus its difference. */
  function Undifferenced(seed: seq<real>, diff: seq<real>): (s: seq<real>)
    requires 1 <= |seed|
    ensures |s| == |seed| + |diff|
    ensures s[..|seed|] == seed
  {
    if diff == [] then seed
    else
      var s := Undifferenced(seed, diff[..|diff| - 1]);
      s + [s[|s| - |seed|] + diff[|diff| - 1]]
  }

  /** The whole of arimaForecast(data, p, d, q, steps), with the stages and the exceptions
      in the order the source meets them; q has no effect and is not a parameter. */
  function Pipeline(data: seq<real>, p: int, d: int, steps: int, ols: Solver)
    : (outcome: Result<seq<real>, Error>)
  {
    if d > |data| then Failure(NegativeArraySize)
    else if d < 0 then Failure(IndexOutOfBounds)
    else
      var diff := Differenced(data, d);
      if p > |diff| || p < 0 then Failure(NegativeArraySize)
      else
        match ols(Targets(diff, p), Design(diff, p))
        case None => Failure(SolverFailure)
        case Some(beta) =>
          if steps < 0 then Failure(NegativeArraySize)
          else if steps > 0 && (p == 0 || |beta| < p) then Failure(IndexOutOfBounds)
          else if steps > |data| then Failure(IndexOutOfBounds)
          else Success(Reanchored(data, ForecastSeq(diff, beta, p, steps)))
  }
}
