# ARIMA forecast pipeline, modelled in Dafny

This project models the forecasting core of `ARIMAForecast`: the static methods `difference`,
`reverseDifference` and `arimaForecast`. The model covers the whole pipeline:

- span-`d` differencing of the series;
- the sliding-window design matrix (targets `y`, lag matrix `x`) for an AR(`p`) fit;
- the recursive forecast loop with its rolling buffer `lastValues`;
- reverse differencing at a fixed anchor offset into the original series.

Values are Dafny `real`s, not doubles. The least-squares fit (`OLSMultipleLinearRegression`) is an
external library, so it becomes a parameter `ols` of type `Solver`. It maps `(y, rows of x)` to
`Some(params)` or to `None`, and `None` stands for any exception the library raises.

Files:

- `forecast_spec.dfy` (module `ForecastSpec`): the value-level specification.
  - `Differenced`, `Targets`, `Design`, `LagDot`/`Predict`, `Tail`, `ForecastSeq` and `Reanchored`,
    one per stage.
  - `Pipeline`, the whole of `arimaForecast`, including its exceptions as `Failure` values.
  - `Undifferenced`, an independent reference inverse of differencing. It is not in the source.
- `arima_forecast.dfy` (module `ARIMAForecast`): the source's methods on arrays, each proved against
  the specification.
  - `Difference`, `BuildDesign` (with `x` an `array2`), `ForecastLoop` and `ReverseDifference`.
  - `ArrayCopy`, the semantics of `System.arraycopy`, overlapping copies included. It dispatches
    to `CopyDown` or `CopyUp`.
  - `NextValue` (the dot-product loop) and `ShiftIn` (the buffer shift), the two halves of a
    forecast step.
  - `ArimaForecast`, composing the stages in the source's order.
- `forecast_properties.dfy` (module `ForecastProperties`): lemmas about the specification.

Java's unchecked exceptions are modelled as error values, met in the order the source meets them:

- `d > data.length`, `p > n` (where `n = data.length - d`), `p < 0` and `steps < 0` raise
  `NegativeArraySizeException`, so they give `NegativeArraySize`.
- `d < 0`: the first read `data[d]` is out of bounds, so `IndexOutOfBounds`.
- `steps > 0` with `p == 0`: `System.arraycopy` gets length `-1`, so `IndexOutOfBounds`.
- `steps > 0` with fewer than `p` coefficients: `params[j]` is out of bounds, so `IndexOutOfBounds`.
- `steps > data.length`: `reverseDifference` reads a negative index, so `IndexOutOfBounds`.
- A failure inside the library gives `SolverFailure`.

The sub-methods state these conditions as `requires`. `ArimaForecast` checks each one before the
stage that would throw. The parameter `q` is accepted and never read. Because `reverseDifference`
never reads its `d` either, `ReverseDifference`'s contract does not mention `d`. The pipeline is a
function of its inputs, so running it twice on the same inputs gives the same result.

Two properties of the code are worth stating because they are easy to assume otherwise:

- `reverseDifference` anchors entry `i` at `original[original.length - differenced.length + i]`, a
  fixed offset `steps` back from the forecast point. It inverts span-`d` differencing only when the
  forecast horizon equals the span `d`, because only then is that anchor the value `d` steps back
  (`ReanchorRecoversContinuation`). It does not chain each point off the previous reconstructed one.
- On the sample series `100, 150, …, 650` with `p = 1, d = 1, steps = 3` and a fitted coefficient
  of exactly 1, the code gives `600, 650, 700`, not the trend continuation `700, 750, 800`
  (`SampleThreeSteps`). For the 12 steps that `main` asks for, it gives `150, …, 700`
  (`SampleMainForecast`).

## Model

| member | source | states |
|---|---|---|
| `ARIMAForecast.Difference` | demo/src/main/java/com/example/ARIMAForecast.java:131-137 | For `0 <= d <= data.length`, the returned array is newly allocated and is `Differenced(data, d)`: length `data.length - d`, entry `i` is `data[i + d] - data[i]`. |
| `ARIMAForecast.BuildDesign` | demo/src/main/java/com/example/ARIMAForecast.java:93-102 | For `0 <= p <= n`, `y` and `x` are newly allocated, and `y` is `differenced[p..]`. `x` is `n - p` by `p` with `x[i, j] == differenced[i + p - j - 1]`. Every index the loops read lies in `[0, n)`. |
| `ARIMAForecast.ArrayCopy` | demo/src/main/java/com/example/ARIMAForecast.java:111-121 | `System.arraycopy`: the destination is its old prefix, then the source slice as it was before the call, then its old suffix. This holds even when source and destination are the same array. |
| `ARIMAForecast.CopyDown` | demo/src/main/java/com/example/ARIMAForecast.java:121 | The copy within one array when the destination lies above the source. It runs top down, and every destination slot gets the source value from before the call. No call in the source reaches this case (the shift at line 121 copies downwards). It is there so that `ArrayCopy` models `System.arraycopy` in general. |
| `ARIMAForecast.CopyUp` | demo/src/main/java/com/example/ARIMAForecast.java:111-121 | The copy between distinct arrays, or within one array when the destination does not lie above the source. It runs bottom up, and every destination slot gets the source value from before the call. Both `arraycopy` calls of the source take this case: line 111 copies between distinct arrays, and the shift at line 121 copies within `lastValues` from position 1 to 0. |
| `ARIMAForecast.NextValue` | demo/src/main/java/com/example/ARIMAForecast.java:114-117 | The inner loop returns `Predict(params, lastValues)`, the sum of `params[j] * lastValues[p - j - 1]` accumulated from `j = 0` up. Coefficient `j` meets the value `j + 1` steps back. It requires `params.length >= p`. |
| `ARIMAForecast.ShiftIn` | demo/src/main/java/com/example/ARIMAForecast.java:120-122 | After the `arraycopy` shift and the last-slot write, the buffer is its old entries `1..p` followed by the new value. |
| `ARIMAForecast.ForecastLoop` | demo/src/main/java/com/example/ARIMAForecast.java:107-123 | The forecast array is newly allocated and is `ForecastSeq(differenced, params, p, steps)`. The loop invariant keeps `lastValues` equal to the last `p` values of `differenced ++ forecast[0..i)`, seeded by the first `arraycopy` and kept by the shift plus the last-slot write. It requires `p >= 1` and `params.length >= p` once `steps > 0`. |
| `ARIMAForecast.ReverseDifference` | demo/src/main/java/com/example/ARIMAForecast.java:139-145 | When `differenced.length <= original.length`, the result is a newly allocated array holding `Reanchored(original, differenced)`: entry `i` is `differenced[i] + original[original.length - differenced.length + i]`. `d` plays no part. |
| `ARIMAForecast.ArimaForecast` | demo/src/main/java/com/example/ARIMAForecast.java:85-129 | The composed pipeline returns exactly what `Pipeline` specifies: the same error kind on each throwing path, and otherwise the same forecast values, in a newly allocated array. |
| `ForecastSpec.Differenced` | demo/src/main/java/com/example/ARIMAForecast.java:132 | The differenced series has `data.length - d` entries. |
| `ForecastSpec.Targets` | demo/src/main/java/com/example/ARIMAForecast.java:94 | There are `n - p` regression targets. |
| `ForecastSpec.Design` | demo/src/main/java/com/example/ARIMAForecast.java:95 | The lag matrix has `n - p` rows of `p` columns each. |
| `ForecastSpec.ForecastSeq` | demo/src/main/java/com/example/ARIMAForecast.java:108 | Forecasting `k` steps gives exactly `k` values. |
| `ForecastSpec.Reanchored` | demo/src/main/java/com/example/ARIMAForecast.java:140 | Reverse differencing keeps the forecast's length. |
| `ForecastProperties.ZeroSpanDifferences` | demo/src/main/java/com/example/ARIMAForecast.java:131-136 | With `d == 0` the differenced series has `data.length` entries, all 0. |
| `ForecastProperties.DifferenceInvertible` | demo/src/main/java/com/example/ARIMAForecast.java:131-136 | For `1 <= d <= data.length`, the first `d` values and the differences rebuild the series exactly (via the reference inverse `Undifferenced`). |
| `ForecastProperties.ReanchorRecoversContinuation` | demo/src/main/java/com/example/ARIMAForecast.java:139-144 | If `future` continues `data` for exactly `d = future.length` steps, re-anchoring the last `d` span-`d` differences of `data ++ future` returns `future`. This is the horizon at which the fixed-offset anchor is the value `d` steps back. |
| `ForecastProperties.DesignLagShift` | demo/src/main/java/com/example/ARIMAForecast.java:97-101 | Consecutive rows are shifts: `x[i + 1][j + 1] == x[i][j]`, and `x[i + 1][0] == y[i]`. Column 0 is the most recent lag. |
| `ForecastProperties.RowDotReversed` | demo/src/main/java/com/example/ARIMAForecast.java:115-116 | For a row that holds a window in reverse order, `Σ c[j] * row[j]` equals the lag dot product `Σ c[j] * w[|w| - 1 - j]`. |
| `ForecastProperties.DesignRowPrediction` | demo/src/main/java/com/example/ARIMAForecast.java:99-116 | The fitted linear form on design row `i` equals the forecast dot product on the window `s[i..i + p]`. Coefficient `j` multiplies the value `j + 1` steps back in both the fit (line 100) and the forecast (line 116). |
| `ForecastProperties.TailShift` | demo/src/main/java/com/example/ARIMAForecast.java:120-122 | Shifting the buffer left and writing the new value last gives the last `p` values of the history extended by that value. |
| `ForecastProperties.ForecastStep` | demo/src/main/java/com/example/ARIMAForecast.java:113-122 | One loop turn: the prediction from the buffer is the next forecast. The shifted buffer is the last `p` values of the history extended by it. |
| `ForecastProperties.ForecastPrefix` | demo/src/main/java/com/example/ARIMAForecast.java:113-118 | Forecasting more steps never changes the forecasts already made: the `k`-step forecast starts with the `m`-step one. |
| `ForecastProperties.ForecastAt` | demo/src/main/java/com/example/ARIMAForecast.java:113-122 | Forecast `m` is the prediction from the `p` values just before it in `differenced ++ forecast`. |
| `ForecastProperties.ForecastFitsDesign` | demo/src/main/java/com/example/ARIMAForecast.java:97-122 | On the design matrix of `differenced ++ forecast`, every row past the observed data satisfies `y[i] == Σ params[j] * x[i][j]`. The forecasts are the values the fitted model reproduces with zero residual. |
| `ForecastProperties.ZeroWindowPredictsZero` | demo/src/main/java/com/example/ARIMAForecast.java:114-117 | The dot product over a window of zeros is 0, whatever the coefficients. |
| `ForecastProperties.ZeroHistoryForecast` | demo/src/main/java/com/example/ARIMAForecast.java:113-123 | From an all-zero differenced history, every forecast is 0. |
| `ForecastProperties.UnitLagRepeatsLast` | demo/src/main/java/com/example/ARIMAForecast.java:113-123 | With `p == 1` and coefficient 1, every forecast equals the last differenced value. |
| `ForecastProperties.PipelineShape` | demo/src/main/java/com/example/ARIMAForecast.java:108-145 | A successful forecast has exactly `steps` entries. `steps == 0` gives the empty forecast whenever differencing, design and fit succeed. |
| `ForecastProperties.PipelineAnchoring` | demo/src/main/java/com/example/ARIMAForecast.java:126-142 | On success, `0 <= steps <= data.length` and output `i` is `ForecastSeq(...)[i] + data[data.length - steps + i]`. Each point is anchored in the data, never chained off the previous reconstructed point. |
| `ForecastProperties.PipelineSucceedsIff` | demo/src/main/java/com/example/ARIMAForecast.java:85-145 | The pipeline succeeds if and only if `0 <= d <= data.length`, `0 <= p <= data.length - d`, `0 <= steps <= data.length`, the fit succeeds, and (when `steps > 0`) `p >= 1` and the fit returns at least `p` coefficients. |
| `ForecastProperties.ZeroSpanReplaysTail` | demo/src/main/java/com/example/ARIMAForecast.java:85-145 | With `d == 0`, a successful forecast is the last `steps` values of the input series. The differenced series is then all zeros, so a real least-squares fit would reject its design matrix as singular; the lemma covers solvers that return coefficients anyway. |
| `ForecastProperties.ConstantStepForecast` | demo/src/main/java/com/example/ARIMAForecast.java:85-145 | Take a series rising by `b` per step, with `p = d = 1` and fitted coefficient 1. The result is `data[n - steps + 1..] ++ [data[n - 1] + b]`: observed values moved up by one step, then one trend continuation. |
| `ForecastProperties.SampleRisesBy50` | demo/src/main/java/com/example/ARIMAForecast.java:67 | The sample series of `main` rises by 50 per step. |
| `ForecastProperties.SampleMainForecast` | demo/src/main/java/com/example/ARIMAForecast.java:67-73 | `main`'s call `arimaForecast(data, 1, 1, 1, 12)` with coefficient 1 gives `150, 200, …, 700`. |
| `ForecastProperties.SampleThreeSteps` | demo/src/main/java/com/example/ARIMAForecast.java:67-73 | The sample with `p = 1, d = 1, steps = 3` and coefficient 1 gives `600, 650, 700`, not `700, 750, 800`. |

## Left out

- The Swing/JFreeChart user interface is not modelled: the constructor, `createDataset`, and the window set up in `main` (lines 18-63 and 65-83). It only displays the result.
- `OLSMultipleLinearRegression` is not modelled (lines 90-91 and 104-105). It is a foreign library, so it is the parameter `ols`. Its own checks are not modelled: no rows (`NoDataException`), fewer rows than `p + 1`, and a singular design matrix. All of its failures are the one `SolverFailure` kind. The "insufficient data" case of a series too short for one regression row therefore shows up as whatever `ols` does on empty `y` and `x`. Least-squares optimality of the coefficients is not stated.
- IEEE-754 rounding is not modelled: values are `real`. Closeness claims such as "forecast within 1e-6 of the trend" are out of scope. The summation order of the dot product is kept, but has no effect on reals.
- ARIMAForecast.ArimaForecast: does not model Java's 32-bit `int` arithmetic. For `d` or `p` near `Integer.MIN_VALUE`, `data.length - d` or `n - p` wraps to a negative size, so the source raises `NegativeArraySizeException` where the model reports the earlier-checked kind. `OutOfMemoryError` for huge sizes is also not modelled.
- ARIMAForecast.ArrayCopy: requires in-bounds, non-negative arguments instead of modelling `arraycopy`'s own exceptions. The one call that can throw, the shift with `p == 0`, is turned into `IndexOutOfBounds` by `ArimaForecast` before the loop.
- A `null` array argument (`NullPointerException` in the source) is not modelled: Dafny arrays are never null.
- `q` has no model beyond its place in `ArimaForecast`'s signature, because the source never reads it.
