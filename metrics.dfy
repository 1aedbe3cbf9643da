/** `evaluar_metricas_VAR_train_test` (code/04_metrics_summary.py): for each
    fitted lag order, forecast from a seed window, undo the standardisation
    and the differencing, and score the reconstruction against the original
    series on the train tail and on the test head.

    The fitted models, `r2_score` and the square root are library code and
    are inputs: `forecast(p, seed, steps)` is the model of lag `p`
    forecasting `steps` rows from `seed` (`None` when it raises), `r2` is the
    coefficient of determination (possibly NaN) and `sqrt` the square
    root. */
module ForecastMetrics {
  import opened Common
  import Standardize

  /** A float64 metric: a value or NaN. */
  datatype Metric = NaN | Value(v: real)

  /** The three metrics of one evaluation. */
  datatype Metrics = Metrics(mae: Metric, rmse: Metric, r2: Metric)

  /** What a lag gets when its evaluation fails. */
  const Missing: Metrics := Metrics(NaN, NaN, NaN)

  /** The reference window and the reconstructed forecast for it. */
  datatype Windows = Windows(actual: seq<real>, predicted: seq<real>)

  type Forecaster = (nat, seq<seq<real>>, nat) -> Option<seq<seq<real>>>

  // ---------------------------------------------------------------------
  // Seeds
  // ---------------------------------------------------------------------

  /** Rows `from..to` of a frame, one value per column. */
  function Rows(f: Frame, from: nat, to: nat): (rows: seq<seq<real>>)
    requires f.Valid() && from <= to <= |f.index|
    ensures |rows| == to - from
    ensures forall r :: 0 <= r < |rows| ==>
      |rows[r]| == |f.names| && forall c :: 0 <= c < |f.names| ==> rows[r][c] == f.cols[c][from + r]
  {
    seq(to - from, r requires 0 <= r < to - from => seq(|f.cols|, c requires 0 <= c < |f.cols| => f.cols[c][from + r]))
  }

  /** `train_series.values[-p:]`: the last p rows (all of them for p = 0,
      since `-0` is `0`). */
  function TrainSeed(train: Frame, p: nat): (seed: seq<seq<real>>)
    requires train.Valid() && p < |train.index|
    ensures p > 0 ==> seed == Rows(train, |train.index| - p, |train.index|) && |seed| == p
    ensures p == 0 ==> seed == Rows(train, 0, |train.index|)
  {
    if p == 0 then Rows(train, 0, |train.index|) else Rows(train, |train.index| - p, |train.index|)
  }

  /** `test_series.values[:p]`: the first p rows, or all when there are
      fewer. */
  function TestSeed(test: Frame, p: nat): (seed: seq<seq<real>>)
    requires test.Valid()
    ensures |seed| == if p <= |test.index| then p else |test.index|
    ensures seed == Rows(test, 0, |seed|)
  {
    Rows(test, 0, if p <= |test.index| then p else |test.index|)
  }

  // ---------------------------------------------------------------------
  // Undoing the transformations
  // ---------------------------------------------------------------------

  /** `pd.DataFrame(pred, columns=names)`: the forecast rows as a frame
      over the partition's columns. */
  function AsFrame(names: seq<string>, pred: seq<seq<real>>): (f: Frame)
    requires forall r :: 0 <= r < |pred| ==> |pred[r]| == |names|
    ensures f.Valid() && f.names == names && |f.index| == |pred|
    ensures forall c, r :: 0 <= c < |f.cols| && 0 <= r < |pred| ==> f.cols[c][r] == pred[r][c]
  {
    Frame(seq(|pred|, r => r), names,
          seq(|names|, c requires 0 <= c < |names| => seq(|pred|, r requires 0 <= r < |pred| => pred[r][c])))
  }

  /** The target column of the forecast after `inverse_transform`: the
      frame is built with `names` as its columns (a row of another width is
      refused), the scaler works by position (it refuses no rows or another
      number of columns), and the target must be one of `names`. */
  function DescaledTarget(s: Standardize.Scaler, pred: seq<seq<real>>, names: seq<string>, target: string): (d: Option<seq<real>>)
    requires s.Valid()
    ensures d.Some? <==> (forall r :: 0 <= r < |pred| ==> |pred[r]| == |names|)
                         && |pred| > 0 && |names| == |s.names| && target in names
    ensures d.Some? ==> |d.value| == |pred| && var c := IndexOf(names, target);
      forall r :: 0 <= r < |pred| ==> d.value[r] == pred[r][c] * s.scale[c] + s.mean[c]
  {
    if exists r :: 0 <= r < |pred| && |pred[r]| != |names| then None
    else if |pred| == 0 || |names| != |s.names| then None
    else if target !in names then None
    else
      var f := AsFrame(names, pred);
      var restored := Standardize.InverseTransform(s, f).value;
      Some(restored.cols[IndexOf(names, target)])
  }

  /** `np.cumsum(d) + anchor`. */
  function Reconstruct(anchor: real, d: seq<real>): (y: seq<real>)
    ensures |y| == |d|
  {
    seq(|d|, k requires 0 <= k < |d| => anchor + Sum(d[..k + 1]))
  }

  /** `iloc[a:b]`: the slice, cut short at the end of the series. */
  function Window(o: seq<real>, a: nat, b: nat): (w: seq<real>)
    requires a <= b
    ensures w == o[(if a <= |o| then a else |o|)..(if b <= |o| then b else |o|)]
  {
    var lo := if a <= |o| then a else |o|;
    var hi := if b <= |o| then b else |o|;
    o[lo..hi]
  }

  /** Adding the true differences of `o` after position `s` to `o[s]`
      gives back the values of `o` that follow it. */
  lemma {:induction false} Telescoping(o: seq<real>, s: nat, d: seq<real>, k: nat)
    requires s + |d| < |o| && k < |d|
    requires forall t :: 0 <= t < |d| ==> d[t] == o[s + 1 + t] - o[s + t]
    ensures o[s] + Sum(d[..k + 1]) == o[s + 1 + k]
  {
    assert d[..k + 1][..k] == d[..k];
    if k > 0 {
      Telescoping(o, s, d, k - 1);
    }
  }

  /** Reconstructing the true differences from the value just before a
      window reproduces the window. */
  lemma ReconstructDifferences(o: seq<real>, s: nat, d: seq<real>)
    requires s + |d| < |o|
    requires forall t :: 0 <= t < |d| ==> d[t] == o[s + 1 + t] - o[s + t]
    ensures Reconstruct(o[s], d) == o[s + 1..s + 1 + |d|]
  {
    forall k | 0 <= k < |d|
      ensures Reconstruct(o[s], d)[k] == o[s + 1 + k]
    {
      Telescoping(o, s, d, k);
    }
  }

  // ---------------------------------------------------------------------
  // Windows
  // ---------------------------------------------------------------------

  /** The target column of the original series, when there is one. */
  function Target(original: Frame, target: string): (o: Option<seq<real>>)
    requires original.Valid()
    ensures o.Some? <==> target in original.names
    ensures o.Some? ==> o.value == original.cols[IndexOf(original.names, target)]
  {
    if target in original.names then Some(original.cols[IndexOf(original.names, target)]) else None
  }

  /** The windows scored for one forecast: the forecast descaled, summed up
      from `o[anchorAt]`, against `o[from..from + steps]`; `None` where the
      source raises (a failed forecast or descaling, a missing target, an
      anchor past the end, windows of different or zero length). */
  function Score(s: Standardize.Scaler, pred: Option<seq<seq<real>>>, names: seq<string>, target: string,
                 o: Option<seq<real>>, anchorAt: nat, from: nat, steps: nat): (w: Option<Windows>)
    requires s.Valid()
    ensures w.Some? ==> pred.Some? && o.Some? && anchorAt < |o.value|
    ensures w.Some? ==> |w.value.actual| == |w.value.predicted| > 0
    ensures w.Some? ==> (from + |w.value.actual| <= |o.value| && |w.value.actual| <= steps
                         && w.value.actual == o.value[from..from + |w.value.actual|])
    ensures w.Some? ==> (DescaledTarget(s, pred.value, names, target).Some?
                         && |DescaledTarget(s, pred.value, names, target).value| == |w.value.predicted|)
    ensures w.Some? ==> forall k :: 0 <= k < |w.value.predicted| ==>
      w.value.predicted[k] == o.value[anchorAt] + Sum(DescaledTarget(s, pred.value, names, target).value[..k + 1])
  {
    if pred.None? || o.None? then None
    else
      match DescaledTarget(s, pred.value, names, target)
      case None => None
      case Some(d) =>
        if anchorAt >= |o.value| then None
        else
          var predicted := Reconstruct(o.value[anchorAt], d);
          var actual := Window(o.value, from, from + steps);
          if |actual| != |predicted| || |actual| == 0 then None
          else Some(Windows(actual, predicted))
  }

  /** The train windows of lag p: p steps forecast from the last p train
      rows, anchored at `original[len(train) - 1 - p]`, against
      `original[len(train) - p .. len(train))`. */
  function TrainWindows(train: Frame, s: Standardize.Scaler, original: Frame, target: string,
                        forecast: Forecaster, p: nat): (w: Option<Windows>)
    requires train.Valid() && s.Valid() && original.Valid() && p < |train.index|
    ensures w.Some? ==> |w.value.actual| <= p
  {
    var o := Target(original, target);
    Score(s, forecast(p, TrainSeed(train, p), p), train.names, target, o,
          |train.index| - 1 - p, |train.index| - p, p)
  }

  /** The test windows of lag p: `steps` steps forecast from the first p
      test rows, anchored at `original[len(train) - 1]`, against
      `original[len(train) .. len(train) + steps)`. */
  function TestWindows(train: Frame, test: Frame, s: Standardize.Scaler, original: Frame, target: string,
                       forecast: Forecaster, p: nat, steps: nat): (w: Option<Windows>)
    requires train.Valid() && test.Valid() && s.Valid() && original.Valid() && |train.index| > 0
    ensures w.Some? ==> |w.value.actual| <= steps
  {
    var o := Target(original, target);
    Score(s, forecast(p, TestSeed(test, p), steps), test.names, target, o,
          |train.index| - 1, |train.index|, steps)
  }

  // ---------------------------------------------------------------------
  // Metrics
  // ---------------------------------------------------------------------

  /** `mean_absolute_error`. */
  function Mae(w: Windows): (e: real)
    requires |w.actual| == |w.predicted| > 0
    ensures e >= 0.0
    ensures e == 0.0 <==> w.actual == w.predicted
  {
    var errs := seq(|w.actual|, k requires 0 <= k < |w.actual| => Abs(w.actual[k] - w.predicted[k]));
    MeanNonNegative(errs);
    assert (forall k :: 0 <= k < |errs| ==> errs[k] == 0.0) <==> w.actual == w.predicted by {
      if forall k :: 0 <= k < |errs| ==> errs[k] == 0.0 {
        forall k | 0 <= k < |errs|
          ensures w.actual[k] == w.predicted[k]
        {
          assert errs[k] == Abs(w.actual[k] - w.predicted[k]) && errs[k] == 0.0;
        }
      }
    }
    Mean(errs)
  }

  /** `mean_squared_error`. */
  function Mse(w: Windows): (e: real)
    requires |w.actual| == |w.predicted| > 0
    ensures e >= 0.0
  {
    var errs := seq(|w.actual|, k requires 0 <= k < |w.actual| => Sq(w.actual[k] - w.predicted[k]));
    MeanNonNegative(errs);
    Mean(errs)
  }

  /** `np.allclose(y, y[0])`, taken as exact equality. */
  predicate Constant(ys: seq<real>)
    requires |ys| > 0
  {
    forall k :: 0 <= k < |ys| ==> ys[k] == ys[0]
  }

  /** The train metrics: R² only when there are two points or more and
      they are not all equal. */
  function TrainMetrics(w: Windows, sqrt: real -> real, r2: (seq<real>, seq<real>) -> Metric): (m: Metrics)
    requires |w.actual| == |w.predicted| > 0
    ensures m.mae == Value(Mae(w)) && m.rmse == Value(sqrt(Mse(w)))
    ensures (|w.actual| < 2 || Constant(w.actual)) ==> m.r2 == NaN
    ensures !(|w.actual| < 2 || Constant(w.actual)) ==> m.r2 == r2(w.actual, w.predicted)
  {
    var guarded := if |w.actual| >= 2 && !Constant(w.actual) then r2(w.actual, w.predicted) else NaN;
    Metrics(Value(Mae(w)), Value(sqrt(Mse(w))), guarded)
  }

  /** The test metrics: R² without a guard. */
  function TestMetrics(w: Windows, sqrt: real -> real, r2: (seq<real>, seq<real>) -> Metric): (m: Metrics)
    requires |w.actual| == |w.predicted| > 0
    ensures m.mae == Value(Mae(w)) && m.rmse == Value(sqrt(Mse(w))) && m.r2 == r2(w.actual, w.predicted)
  {
    Metrics(Value(Mae(w)), Value(sqrt(Mse(w))), r2(w.actual, w.predicted))
  }

  /** The body of the `try` for lag p: both metric sets, or `None` when
      any step raises. */
  function EvaluateLag(train: Frame, test: Frame, steps: nat, target: string, s: Standardize.Scaler, original: Frame,
                       forecast: Forecaster, sqrt: real -> real, r2: (seq<real>, seq<real>) -> Metric, p: nat)
    : (r: Option<(Metrics, Metrics)>)
    requires train.Valid() && test.Valid() && s.Valid() && original.Valid() && p < |train.index|
    ensures r.Some? <==> TrainWindows(train, s, original, target, forecast, p).Some?
                         && TestWindows(train, test, s, original, target, forecast, p, steps).Some?
    ensures r.Some? ==> r.value.0.mae != NaN && r.value.1.mae != NaN
  {
    match TrainWindows(train, s, original, target, forecast, p)
    case None => None
    case Some(tw) =>
      match TestWindows(train, test, s, original, target, forecast, p, steps)
      case None => None
      case Some(sw) => Some((TrainMetrics(tw, sqrt, r2), TestMetrics(sw, sqrt, r2)))
  }

  /** The `try`/`except` for lag p: the metrics it evaluates, or NaN for
      all six when any step raises. */
  function Outcome(train: Frame, test: Frame, steps: nat, target: string, s: Standardize.Scaler, original: Frame,
                   forecast: Forecaster, sqrt: real -> real, r2: (seq<real>, seq<real>) -> Metric, p: nat)
    : (r: (Metrics, Metrics))
    requires train.Valid() && test.Valid() && s.Valid() && original.Valid() && p < |train.index|
    ensures EvaluateLag(train, test, steps, target, s, original, forecast, sqrt, r2, p).None? ==> r == (Missing, Missing)
    ensures EvaluateLag(train, test, steps, target, s, original, forecast, sqrt, r2, p).Some? ==>
      r == EvaluateLag(train, test, steps, target, s, original, forecast, sqrt, r2, p).value
  {
    match EvaluateLag(train, test, steps, target, s, original, forecast, sqrt, r2, p)
    case None => (Missing, Missing)
    case Some(pair) => pair
  }

  /** `evaluar_metricas_VAR_train_test`: one entry per lag in both maps,
      all NaN for a lag whose evaluation raises. */
  method EvaluateModels(lags: seq<nat>, train: Frame, test: Frame, steps: nat, target: string,
                        s: Standardize.Scaler, original: Frame,
                        forecast: Forecaster, sqrt: real -> real, r2: (seq<real>, seq<real>) -> Metric)
    returns (trainMetrics: map<nat, Metrics>, testMetrics: map<nat, Metrics>)
    requires train.Valid() && test.Valid() && s.Valid() && original.Valid()
    requires forall k :: 0 <= k < |lags| ==> lags[k] < |train.index|
    ensures trainMetrics.Keys == testMetrics.Keys == set k | 0 <= k < |lags| :: lags[k]
    ensures forall k :: 0 <= k < |lags| ==>
      (trainMetrics[lags[k]], testMetrics[lags[k]])
        == Outcome(train, test, steps, target, s, original, forecast, sqrt, r2, lags[k])
  {
    var outcome := (p: nat) requires p < |train.index| =>
      Outcome(train, test, steps, target, s, original, forecast, sqrt, r2, p);
    trainMetrics, testMetrics := Tabulate(lags, outcome);
  }

  /** The loop `for p in lags`: both dictionaries get an entry per lag, a
      repeated lag overwriting its earlier entry with an equal one. */
  method Tabulate(lags: seq<nat>, outcome: nat --> (Metrics, Metrics))
    returns (trainMetrics: map<nat, Metrics>, testMetrics: map<nat, Metrics>)
    requires forall k :: 0 <= k < |lags| ==> outcome.requires(lags[k])
    ensures trainMetrics.Keys == testMetrics.Keys == set k | 0 <= k < |lags| :: lags[k]
    ensures forall k :: 0 <= k < |lags| ==> (trainMetrics[lags[k]], testMetrics[lags[k]]) == outcome(lags[k])
  {
    trainMetrics := map[];
    testMetrics := map[];
    for i := 0 to |lags|
      invariant trainMetrics.Keys == testMetrics.Keys == set k | 0 <= k < i :: lags[k]
      invariant forall k :: 0 <= k < i ==> (trainMetrics[lags[k]], testMetrics[lags[k]]) == outcome(lags[k])
    {
      var p := lags[i];
      var pair := outcome(p);
      trainMetrics := trainMetrics[p := pair.0];
      testMetrics := testMetrics[p := pair.1];
    }
  }

  // ---------------------------------------------------------------------
  // Properties
  // ---------------------------------------------------------------------

  /** When the descaled train forecast is exactly the first differences of
      the original target over the train tail, the reconstruction is the
      train tail itself, and its MAE is zero. */
  lemma TrainRecoversWindow(train: Frame, s: Standardize.Scaler, original: Frame, target: string,
                            forecast: Forecaster, p: nat)
    requires train.Valid() && s.Valid() && original.Valid() && p < |train.index|
    requires TrainWindows(train, s, original, target, forecast, p).Some?
    requires var o := Target(original, target).value;
      var d := DescaledTarget(s, forecast(p, TrainSeed(train, p), p).value, train.names, target).value;
      forall t :: 0 <= t < |d| ==> |train.index| - p + t < |o| && d[t] == o[|train.index| - p + t] - o[|train.index| - 1 - p + t]
    ensures var w := TrainWindows(train, s, original, target, forecast, p).value;
      w.predicted == w.actual && Mae(w) == 0.0
  {
    var o := Target(original, target).value;
    var d := DescaledTarget(s, forecast(p, TrainSeed(train, p), p).value, train.names, target).value;
    var w := TrainWindows(train, s, original, target, forecast, p).value;
    var a := |train.index| - 1 - p;
    assert |d| == |w.predicted| > 0;
    assert a + 1 + (|d| - 1) < |o|;
    ReconstructDifferences(o, a, d);
    assert w.predicted == Reconstruct(o[a], d);
  }

  /** When the descaled test forecast is exactly the first differences of
      the original target after the train period, the reconstruction is the
      test head itself, and its MAE is zero. */
  lemma TestRecoversWindow(train: Frame, test: Frame, s: Standardize.Scaler, original: Frame, target: string,
                           forecast: Forecaster, p: nat, steps: nat)
    requires train.Valid() && test.Valid() && s.Valid() && original.Valid() && |train.index| > 0
    requires TestWindows(train, test, s, original, target, forecast, p, steps).Some?
    requires var o := Target(original, target).value;
      var d := DescaledTarget(s, forecast(p, TestSeed(test, p), steps).value, test.names, target).value;
      forall t :: 0 <= t < |d| ==> |train.index| + t < |o| && d[t] == o[|train.index| + t] - o[|train.index| - 1 + t]
    ensures var w := TestWindows(train, test, s, original, target, forecast, p, steps).value;
      w.predicted == w.actual && Mae(w) == 0.0
  {
    var o := Target(original, target).value;
    var d := DescaledTarget(s, forecast(p, TestSeed(test, p), steps).value, test.names, target).value;
    var w := TestWindows(train, test, s, original, target, forecast, p, steps).value;
    var a := |train.index| - 1;
    assert |d| == |w.predicted| > 0;
    assert a + 1 + (|d| - 1) < |o|;
    ReconstructDifferences(o, a, d);
    assert w.predicted == Reconstruct(o[a], d);
  }

  /** A train tail on which the original target does not move has no R²,
      whatever the forecast. */
  lemma FlatTrainTailHasNoR2(train: Frame, test: Frame, steps: nat, target: string, s: Standardize.Scaler, original: Frame,
                             forecast: Forecaster, sqrt: real -> real, r2: (seq<real>, seq<real>) -> Metric, p: nat)
    requires train.Valid() && test.Valid() && s.Valid() && original.Valid() && 0 < p < |train.index|
    requires target in original.names
    requires var o := Target(original, target).value;
      forall t :: |train.index| - p <= t < |train.index| && t < |o| ==> o[t] == o[|train.index| - p]
    ensures Outcome(train, test, steps, target, s, original, forecast, sqrt, r2, p).0.r2 == NaN
  {
    var tw := TrainWindows(train, s, original, target, forecast, p);
    if tw.Some? {
      var w := tw.value;
      var o := Target(original, target).value;
      var from := |train.index| - p;
      assert forall k :: 0 <= k < |w.actual| ==> w.actual[k] == o[from + k];
      assert Constant(w.actual);
    }
  }

  /** A lag whose forecast fails ends with NaN for all six metrics. */
  lemma FailedForecastGivesNaN(train: Frame, test: Frame, steps: nat, target: string, s: Standardize.Scaler, original: Frame,
                               forecast: Forecaster, sqrt: real -> real, r2: (seq<real>, seq<real>) -> Metric, p: nat)
    requires train.Valid() && test.Valid() && s.Valid() && original.Valid() && p < |train.index|
    requires forecast(p, TrainSeed(train, p), p).None? || forecast(p, TestSeed(test, p), steps).None?
    ensures Outcome(train, test, steps, target, s, original, forecast, sqrt, r2, p) == (Missing, Missing)
  {
  }
}
