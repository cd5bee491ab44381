/** The static methods of ARIMAForecast that make up the forecasting pipeline, on arrays,
    each proved against its specification in ForecastSpec. */
module ARIMAForecast {
  import opened ForecastSpec
  import ForecastProperties

  /** difference(data, d): a fresh array of length data.Length - d holding data[i + d] - data[i].
      The source throws unless 0 <= d <= data.Length. */
  method Difference(data: array<real>, d: int) returns (differenced: array<real>)
    requires 0 <= d <= data.Length
    ensures fresh(differenced)
    ensures differenced[..] == Differenced(data[..], d)
  {
    differenced := new real[data.Length - d];
    for i := d to data.Length
      invariant forall k :: 0 <= k < i - d ==> differenced[k] == data[k + d] - data[k]
    {
      differenced[i - d] := data[i] - data[i - d];
    }
  }

  /** The design-matrix loop of arimaForecast: targets y and the n - p by p lag matrix x. */
  method BuildDesign(differenced: array<real>, p: int) returns (y: array<real>, x: array2<real>)
    requires 0 <= p <= differenced.Length
    ensures fresh(y) && fresh(x)
    ensures y[..] == Targets(differenced[..], p)
    ensures x.Length0 == differenced.Length - p && x.Length1 == p
    ensures forall i, j :: 0 <= i < x.Length0 && 0 <= j < x.Length1 ==>
              x[i, j] == Design(differenced[..], p)[i][j]
  {
    var n := differenced.Length;
    y := new real[n - p];
    x := new real[n - p, p];
    for i := 0 to n - p
      invariant forall k :: 0 <= k < i ==> y[k] == differenced[k + p]
      invariant forall k, j :: 0 <= k < i && 0 <= j < p ==> x[k, j] == differenced[k + p - j - 1]
    {
      y[i] := differenced[i + p];
      for j := 0 to p
        invariant forall k :: 0 <= k <= i ==> y[k] == differenced[k + p]
        invariant forall k, m :: 0 <= k < i && 0 <= m < p ==> x[k, m] == differenced[k + p - m - 1]
        invariant forall m :: 0 <= m < j ==> x[i, m] == differenced[i + p - m - 1]
      {
        x[i, j] := differenced[i + p - j - 1];
      }
    }
  }

  /** The rows of a matrix, as the sequence the least-squares solver is handed. */
  function Rows(x: array2<real>): seq<seq<real>>
    reads x
  {
    seq(x.Length0, i requires 0 <= i < x.Length0 reads x =>
      seq(x.Length1, j requires 0 <= j < x.Length1 reads x => x[i, j]))
  }

  /** System.arraycopy: the length elements of src from srcPos replace those of dst from dstPos,
      read as if first copied to a temporary array, so src and dst may be the same array. */
  method ArrayCopy(src: array<real>, srcPos: int, dst: array<real>, dstPos: int, length: int)
    requires 0 <= srcPos && 0 <= dstPos && 0 <= length
    requires srcPos + length <= src.Length && dstPos + length <= dst.Length
    modifies dst
    ensures dst[..] == old(dst[..dstPos] + src[srcPos..srcPos + length] + dst[dstPos + length..])
  {
    ghost var s0, d0 := src[..], dst[..];
    if src == dst && srcPos < dstPos {
      CopyDown(dst, srcPos, dstPos, length);
    } else {
      CopyUp(src, srcPos, dst, dstPos, length);
    }
    assert dst[..] == d0[..dstPos] + s0[srcPos..srcPos + length] + d0[dstPos + length..];
  }

  /** The copy within one array when the destination lies above the source: from the top down,
      so that no element is overwritten before it is read. */
  method CopyDown(a: array<real>, srcPos: nat, dstPos: nat, length: nat)
    requires srcPos < dstPos && dstPos + length <= a.Length
    modifies a
    ensures forall m :: 0 <= m < a.Length ==>
              a[m] == if dstPos <= m < dstPos + length then old(a[m - dstPos + srcPos]) else old(a[m])
  {
    ghost var a0 := a[..];
    var k := length;
    while k > 0
      invariant 0 <= k <= length
      invariant forall m :: 0 <= m < dstPos + k || dstPos + length <= m < a.Length ==> a[m] == a0[m]
      invariant forall m :: dstPos + k <= m < dstPos + length ==> a[m] == a0[m - dstPos + srcPos]
    {
      k := k - 1;
      a[dstPos + k] := a[srcPos + k];
    }
  }

  /** The copy from the bottom up, right when src and dst differ or the destination does not
      lie above the source. */
  method CopyUp(src: array<real>, srcPos: nat, dst: array<real>, dstPos: nat, length: nat)
    requires srcPos + length <= src.Length && dstPos + length <= dst.Length
    requires src == dst ==> dstPos <= srcPos
    modifies dst
    ensures forall m :: 0 <= m < dst.Length ==>
              dst[m] == if dstPos <= m < dstPos + length then old(src[m - dstPos + srcPos]) else old(dst[m])
  {
    ghost var s0, d0 := src[..], dst[..];
    var k := 0;
    while k < length
      invariant 0 <= k <= length
      invariant forall m :: 0 <= m < dstPos || dstPos + k <= m < dst.Length ==> dst[m] == d0[m]
      invariant forall m :: dstPos <= m < dstPos + k ==> dst[m] == s0[m - dstPos + srcPos]
      invariant src != dst ==> src[..] == s0
    {
      assert src[srcPos + k] == s0[srcPos + k];
      dst[dstPos + k] := src[srcPos + k];
      k := k + 1;
    }
  }

  /** The inner loop of the forecast step: the sum of params[j] * lastValues[p - j - 1]
      over j < p = lastValues.Length, accumulated from j = 0 up. */
  method NextValue(params: array<real>, lastValues: array<real>) returns (nextValue: real)
    requires lastValues.Length <= params.Length
    ensures nextValue == Predict(params[..], lastValues[..])
  {
    var p := lastValues.Length;
    nextValue := 0.0;
    for j := 0 to p
      invariant nextValue == LagDot(params[..], lastValues[..], j)
    {
      nextValue := nextValue + params[j] * lastValues[p - j - 1];
    }
  }

  /** The buffer update of the forecast step: shift lastValues left by one with
      System.arraycopy, then write v into the last slot. */
  method ShiftIn(lastValues: array<real>, v: real)
    requires 1 <= lastValues.Length
    modifies lastValues
    ensures lastValues[..] == old(lastValues[1..]) + [v]
  {
    var p := lastValues.Length;
    ArrayCopy(lastValues, 1, lastValues, 0, p - 1);
    lastValues[p - 1] := v;
  }

  /** The recursive forecasting loop of arimaForecast, given the fitted params. The source
      throws on the first step when p == 0 (arraycopy of length -1) or params is short. */
  method ForecastLoop(differenced: array<real>, params: array<real>, p: int, steps: int)
    returns (forecast: array<real>)
    requires 0 <= p <= differenced.Length && 0 <= steps
    requires steps > 0 ==> 1 <= p <= params.Length
    ensures fresh(forecast)
    ensures forecast[..] == ForecastSeq(differenced[..], params[..], p, steps)
  {
    ghost var history, coefficients := differenced[..], params[..];
    forecast := new real[steps];
    var lastValues := new real[p];
    ArrayCopy(differenced, differenced.Length - p, lastValues, 0, p);
    for i := 0 to steps
      invariant lastValues[..] == Tail(history + forecast[..i], p)
      invariant forecast[..i] == ForecastSeq(history, coefficients, p, i)
      invariant params[..] == coefficients
    {
      ghost var done := forecast[..i];
      var nextValue := NextValue(params, lastValues);
      forecast[i] := nextValue;
      assert forecast[..i + 1] == done + [nextValue];
      ShiftIn(lastValues, nextValue);
      ForecastProperties.ForecastStep(history, coefficients, p, i, nextValue);
    }
    assert forecast[..] == forecast[..steps];
  }

  /** reverseDifference(original, differenced, d): entry i of differenced plus the original
      value at offset original.Length - differenced.Length + i; d is never read. */
  method ReverseDifference(original: array<real>, differenced: array<real>, d: int)
    returns (reversed: array<real>)
    requires differenced.Length <= original.Length
    ensures fresh(reversed)
    ensures reversed[..] == Reanchored(original[..], differenced[..])
  {
    reversed := new real[differenced.Length];
    for i := 0 to differenced.Length
      invariant forall k :: 0 <= k < i ==>
                  reversed[k] == differenced[k] + original[original.Length - differenced.Length + k]
    {
      reversed[i] := differenced[i] + original[original.Length - differenced.Length + i];
    }
  }

  /** arimaForecast(data, p, d, q, steps) with the least-squares fit supplied as ols; each
      Java exception becomes a Failure of its kind, met in the same order as in the source. */
  method ArimaForecast(data: array<real>, p: int, d: int, q: int, steps: int, ols: Solver)
    returns (r: Result<array<real>, Error>)
    ensures r.Failure? ==> Pipeline(data[..], p, d, steps, ols) == Failure(r.error)
    ensures r.Success? ==> Pipeline(data[..], p, d, steps, ols) == Success(r.value[..])
    ensures r.Success? ==> fresh(r.value)
  {
    if d > data.Length { return Failure(NegativeArraySize); }
    if d < 0 { return Failure(IndexOutOfBounds); }
    var differenced := Difference(data, d);

    var n := differenced.Length;
    if p > n || p < 0 { return Failure(NegativeArraySize); }
    var y, x := BuildDesign(differenced, p);

    forall i | 0 <= i < x.Length0
      ensures Rows(x)[i] == Design(differenced[..], p)[i]
    {
    }
    assert Rows(x) == Design(differenced[..], p);
    var fit := ols(y[..], Rows(x));
    if fit.None? { return Failure(SolverFailure); }
    var beta := fit.value;

    if steps < 0 { return Failure(NegativeArraySize); }
    if steps > 0 && (p == 0 || |beta| < p) { return Failure(IndexOutOfBounds); }
    var params := new real[|beta|](i requires 0 <= i < |beta| => beta[i]);
    assert params[..] == beta;
    var forecast := ForecastLoop(differenced, params, p, steps);

    if steps > data.Length { return Failure(IndexOutOfBounds); }
    forecast := ReverseDifference(data, forecast, d);
    return Success(forecast);
  }
}
