/** Properties of the forecasting pipeline, stated over the specification functions. */
module ForecastProperties {
  import opened ForecastSpec

  // ---------------------------------------------------------------- differencing

  /** With span 0 every difference is 0. */
  lemma ZeroSpanDifferences(data: seq<real>)
    ensures |Differenced(data, 0)| == |data|
    ensures forall i :: 0 <= i < |data| ==> Differenced(data, 0)[i] == 0.0
  {
  }

  /** Differencing of span d >= 1 loses nothing but the first d values: they and the
      differences rebuild the series. */
  lemma {:induction false} DifferenceInvertible(data: seq<real>, d: nat)
    requires 1 <= d <= |data|
    ensures Undifferenced(data[..d], Differenced(data, d)) == data
  {
    var diff := Differenced(data, d);
    if |data| > d {
      var shorter := data[..|data| - 1];
      assert diff[..|diff| - 1] == Differenced(shorter, d);
      assert shorter[..d] == data[..d];
      DifferenceInvertible(shorter, d);
      var s := Undifferenced(data[..d], diff[..|diff| - 1]);
      assert s == shorter;
      assert s + [s[|s| - d] + diff[|diff| - 1]] == data;
    } else {
      assert diff == [];
    }
  }

  /** Reverse differencing undoes differencing exactly when the horizon equals the span:
      if future continues data for d = |future| steps, re-anchoring the last d differences of
      the extended series returns future. */
  lemma ReanchorRecoversContinuation(data: seq<real>, future: seq<real>)
    requires |future| <= |data|
    ensures var e := data + future;
            Reanchored(data, Differenced(e, |future|)[|data| - |future|..]) == future
  {
  }

  // ---------------------------------------------------------------- design matrix

  /** Consecutive design rows are shifts of each other, and column 0 of the next row is the
      current target: column 0 is the most recent lag. */
  lemma DesignLagShift(s: seq<real>, p: nat, i: nat)
    requires p <= |s| && i + 1 < |s| - p
    ensures forall j :: 0 <= j < p - 1 ==> Design(s, p)[i + 1][j + 1] == Design(s, p)[i][j]
    ensures p >= 1 ==> Design(s, p)[i + 1][0] == Targets(s, p)[i]
  {
  }

  /** Applying coefficients to a row that holds a window in reverse order is the lag dot
      product of the window. */
  lemma {:induction false} RowDotReversed(c: seq<real>, row: seq<real>, w: seq<real>, k: nat)
    requires |row| == |w| && k <= |w| && k <= |c|
    requires forall j :: 0 <= j < |w| ==> row[j] == w[|w| - 1 - j]
    ensures RowDot(c, row, k) == LagDot(c, w, k)
  {
    if k > 0 {
      RowDotReversed(c, row, w, k - 1);
    }
  }

  /** Design row i is the window s[i..i + p] most recent first, so the fitted linear form on
      row i is the one-step prediction from that window: coefficient j multiplies the same lag
      in the fit and in the forecast. */
  lemma DesignRowPrediction(s: seq<real>, c: seq<real>, p: nat, i: nat)
    requires p <= |s| && p <= |c| && i < |s| - p
    ensures RowDot(c, Design(s, p)[i], p) == Predict(c, s[i..i + p])
  {
    RowDotReversed(c, Design(s, p)[i], s[i..i + p], p);
  }

  // ---------------------------------------------------------------- recursive forecast

  /** Moving the window over one more value: drop the oldest, append the newest. */
  lemma TailShift(s: seq<real>, p: nat, v: real)
    requires 1 <= p <= |s|
    ensures Tail(s + [v], p) == Tail(s, p)[1..] + [v]
  {
  }

  /** One turn of the forecast loop: the prediction from the current buffer is the next
      forecast, and the buffer moved over it is the tail of the extended history. */
  lemma ForecastStep(h: seq<real>, c: seq<real>, p: nat, i: nat, v: real)
    requires 1 <= p <= |h| && p <= |c|
    requires v == Predict(c, Tail(h + ForecastSeq(h, c, p, i), p))
    ensures ForecastSeq(h, c, p, i + 1) == ForecastSeq(h, c, p, i) + [v]
    ensures Tail(h + ForecastSeq(h, c, p, i + 1), p) == Tail(h + ForecastSeq(h, c, p, i), p)[1..] + [v]
  {
  }

  /** Forecasting further never changes the forecasts already made. */
  lemma {:induction false} ForecastPrefix(h: seq<real>, c: seq<real>, p: nat, k: nat, m: nat)
    requires p <= |h| && m <= k
    requires k > 0 ==> 1 <= p <= |c|
    ensures ForecastSeq(h, c, p, k)[..m] == ForecastSeq(h, c, p, m)
  {
    if m < k {
      ForecastPrefix(h, c, p, k - 1, m);
      assert ForecastSeq(h, c, p, k)[..k - 1] == ForecastSeq(h, c, p, k - 1);
    }
  }

  /** Each forecast is the prediction from the last p values before it in the history
      extended by the forecasts. */
  lemma ForecastAt(h: seq<real>, c: seq<real>, p: nat, k: nat, m: nat)
    requires 1 <= p <= |h| && p <= |c| && m < k
    ensures var f := ForecastSeq(h, c, p, k);
            f[m] == Predict(c, (h + f)[|h| + m - p..|h| + m])
  {
    var f := ForecastSeq(h, c, p, k);
    ForecastPrefix(h, c, p, k, m + 1);
    ForecastPrefix(h, c, p, k, m);
    assert f[m] == ForecastSeq(h, c, p, m + 1)[m];
    assert (h + f)[..|h| + m] == h + ForecastSeq(h, c, p, m);
  }

  /** The forecasts are exactly the targets that the fitted coefficients reproduce with no
      residual on the design rows of the extended series history ++ forecasts. */
  lemma ForecastFitsDesign(h: seq<real>, c: seq<real>, p: nat, k: nat)
    requires 1 <= p <= |h| && p <= |c|
    ensures var e := h + ForecastSeq(h, c, p, k);
            forall i :: |h| - p <= i < |e| - p ==>
              Targets(e, p)[i] == RowDot(c, Design(e, p)[i], p)
  {
    var f := ForecastSeq(h, c, p, k);
    var e := h + f;
    forall i | |h| - p <= i < |e| - p
      ensures Targets(e, p)[i] == RowDot(c, Design(e, p)[i], p)
    {
      var m := i + p - |h|;
      ForecastAt(h, c, p, k, m);
      DesignRowPrediction(e, c, p, i);
    }
  }

  /** A window of zeros predicts zero, whatever the coefficients. */
  lemma {:induction false} ZeroWindowPredictsZero(c: seq<real>, w: seq<real>, k: nat)
    requires k <= |c| && k <= |w|
    requires forall j :: 0 <= j < |w| ==> w[j] == 0.0
    ensures LagDot(c, w, k) == 0.0
  {
    if k > 0 {
      ZeroWindowPredictsZero(c, w, k - 1);
    }
  }

  /** From an all-zero history every forecast is zero. */
  lemma {:induction false} ZeroHistoryForecast(h: seq<real>, c: seq<real>, p: nat, k: nat)
    requires p <= |h|
    requires k > 0 ==> 1 <= p <= |c|
    requires forall j :: 0 <= j < |h| ==> h[j] == 0.0
    ensures forall m :: 0 <= m < k ==> ForecastSeq(h, c, p, k)[m] == 0.0
  {
    if k > 0 {
      var prev := ForecastSeq(h, c, p, k - 1);
      ZeroHistoryForecast(h, c, p, k - 1);
      var w := Tail(h + prev, p);
      assert forall j :: 0 <= j < |w| ==> w[j] == (h + prev)[|h + prev| - p + j];
      ZeroWindowPredictsZero(c, w, p);
    }
  }

  /** With coefficient 1 on the single lag, every forecast repeats the last history value. */
  lemma {:induction false} UnitLagRepeatsLast(h: seq<real>, c: seq<real>, k: nat)
    requires 1 <= |h| && 1 <= |c| && c[0] == 1.0
    ensures forall m :: 0 <= m < k ==> ForecastSeq(h, c, 1, k)[m] == h[|h| - 1]
  {
    if k > 0 {
      var prev := ForecastSeq(h, c, 1, k - 1);
      UnitLagRepeatsLast(h, c, k - 1);
      var w := Tail(h + prev, 1);
      assert w == [(h + prev)[|h + prev| - 1]];
      if k > 1 {
        assert (h + prev)[|h + prev| - 1] == prev[k - 2];
      }
      assert w[0] == h[|h| - 1];
      assert LagDot(c, w, 1) == LagDot(c, w, 0) + c[0] * w[0];
    }
  }

  // ---------------------------------------------------------------- whole pipeline

  /** A successful forecast has exactly steps entries; steps == 0 gives the empty forecast
      whenever the stages before it succeed. */
  lemma PipelineShape(data: seq<real>, p: int, d: int, steps: int, ols: Solver)
    ensures Pipeline(data, p, d, steps, ols).Success? ==> |Pipeline(data, p, d, steps, ols).value| == steps
    ensures steps == 0 && 0 <= d <= |data| && 0 <= p <= |data| - d &&
            ols(Targets(Differenced(data, d), p), Design(Differenced(data, d), p)).Some? ==>
              Pipeline(data, p, d, steps, ols) == Success([])
  {
  }

  /** When the pipeline succeeds, forecast i is the differenced-space forecast i plus the
      original value at |data| - steps + i: a fixed anchor into the data, never the
      previously reconstructed point. */
  lemma PipelineAnchoring(data: seq<real>, p: int, d: int, steps: int, ols: Solver)
    requires Pipeline(data, p, d, steps, ols).Success?
    ensures 0 <= d <= |data| && 0 <= p <= |data| - d && 0 <= steps <= |data|
    ensures var diff := Differenced(data, d);
            var beta := ols(Targets(diff, p), Design(diff, p)).value;
            var out := Pipeline(data, p, d, steps, ols).value;
            forall i :: 0 <= i < steps ==>
              out[i] == ForecastSeq(diff, beta, p, steps)[i] + data[|data| - steps + i]
  {
  }

  /** The pipeline succeeds exactly when no stage throws. */
  lemma PipelineSucceedsIff(data: seq<real>, p: int, d: int, steps: int, ols: Solver)
    ensures Pipeline(data, p, d, steps, ols).Success? <==>
      0 <= d <= |data| && 0 <= p <= |data| - d && 0 <= steps <= |data| &&
      var fit := ols(Targets(Differenced(data, d), p), Design(Differenced(data, d), p));
      fit.Some? && (steps > 0 ==> 1 <= p <= |fit.value|)
  {
  }

  /** With d == 0 the differences are all zero, so are the forecasts, and the result just
      replays the last steps values of the series. The design matrix is then all zeros, which
      a real least-squares fit rejects as singular; the lemma covers any ols that returns
      coefficients for it. */
  lemma ZeroSpanReplaysTail(data: seq<real>, p: int, steps: int, ols: Solver)
    requires Pipeline(data, p, 0, steps, ols).Success?
    ensures Pipeline(data, p, 0, steps, ols).value == data[|data| - steps..]
  {
    var diff := Differenced(data, 0);
    var beta := ols(Targets(diff, p), Design(diff, p)).value;
    var f := ForecastSeq(diff, beta, p, steps);
    ZeroHistoryForecast(diff, beta, p, steps);
    var out := Pipeline(data, p, 0, steps, ols).value;
    assert out == Reanchored(data, f);
    assert forall i :: 0 <= i < steps ==> out[i] == 0.0 + data[|data| - steps + i];
  }

  /** For a series rising by b per step, AR(1) on span-1 differences with fitted coefficient 1
      forecasts b in differenced space; re-anchoring then returns the series' own last
      steps - 1 values shifted by one, followed by a single trend continuation. */
  lemma ConstantStepForecast(data: seq<real>, b: real, steps: int, ols: Solver)
    requires 2 <= |data| && 1 <= steps <= |data|
    requires forall i :: 0 <= i < |data| - 1 ==> data[i + 1] - data[i] == b
    requires ols(Targets(Differenced(data, 1), 1), Design(Differenced(data, 1), 1)) == Some([1.0])
    ensures Pipeline(data, 1, 1, steps, ols) ==
            Success(data[|data| - steps + 1..] + [data[|data| - 1] + b])
  {
    var n := |data|;
    var diff := Differenced(data, 1);
    var f := ForecastSeq(diff, [1.0], 1, steps);
    UnitLagRepeatsLast(diff, [1.0], steps);
    assert diff[|diff| - 1] == b;
    var out := Reanchored(data, f);
    var expected := data[n - steps + 1..] + [data[n - 1] + b];
    forall i | 0 <= i < steps
      ensures out[i] == expected[i]
    {
      assert out[i] == b + data[n - steps + i];
      if i < steps - 1 {
        assert data[n - steps + i + 1] - data[n - steps + i] == b;
      }
    }
    assert out == expected;
  }

  /** The series of the source's main method. */
  const SAMPLE: seq<real> :=
    [100.0, 150.0, 200.0, 250.0, 300.0, 350.0, 400.0, 450.0, 500.0, 550.0, 600.0, 650.0]

  /** The sample series rises by 50 per step. */
  lemma SampleRisesBy50()
    ensures forall i :: 0 <= i < |SAMPLE| - 1 ==> SAMPLE[i + 1] - SAMPLE[i] == 50.0
  {
  }

  /** main's call arimaForecast(data, 1, 1, 1, 12) with a fit of exactly 1: the result is
      150 .. 700, the sample moved up by 50, not a continuation past 650. */
  lemma SampleMainForecast(ols: Solver)
    requires ols(Targets(Differenced(SAMPLE, 1), 1), Design(Differenced(SAMPLE, 1), 1)) == Some([1.0])
    ensures Pipeline(SAMPLE, 1, 1, 12, ols) ==
            Success([150.0, 200.0, 250.0, 300.0, 350.0, 400.0, 450.0, 500.0, 550.0, 600.0, 650.0, 700.0])
  {
    SampleRisesBy50();
    ConstantStepForecast(SAMPLE, 50.0, 12, ols);
    assert SAMPLE[1..] + [SAMPLE[11] + 50.0] ==
           [150.0, 200.0, 250.0, 300.0, 350.0, 400.0, 450.0, 500.0, 550.0, 600.0, 650.0, 700.0];
  }

  /** Three steps from the sample with a fit of exactly 1 give 600, 650, 700. */
  lemma SampleThreeSteps(ols: Solver)
    requires ols(Targets(Differenced(SAMPLE, 1), 1), Design(Differenced(SAMPLE, 1), 1)) == Some([1.0])
    ensures Pipeline(SAMPLE, 1, 1, 3, ols) == Success([600.0, 650.0, 700.0])
  {
    SampleRisesBy50();
    ConstantStepForecast(SAMPLE, 50.0, 3, ols);
    assert SAMPLE[10..] + [SAMPLE[11] + 50.0] == [600.0, 650.0, 700.0];
  }
}
