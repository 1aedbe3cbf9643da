/** `estandarizar_train_test` (code/utils.py): scikit-learn's StandardScaler
    fitted on the training frame and applied to both frames.

    The fitted parameters are the per-column mean and the population
    standard deviation, with a zero deviation replaced by 1. The square
    root is library numerics and is an input. */
module Standardize {
  import opened Common

  /** A fitted scaler: the training column names, `mean_` and `scale_`. */
  datatype Scaler = Scaler(names: seq<string>, mean: seq<real>, scale: seq<real>)
  {
    /** One mean and one non-zero scale per column. */
    predicate Valid()
    {
      |mean| == |names| && |scale| == |names| && forall c :: 0 <= c < |scale| ==> scale[c] != 0.0
    }
  }

  /** The ways scikit-learn refuses its input. */
  datatype ScaleError =
    | NoSamples        // a frame with no rows
    | NoFeatures       // a frame with no columns
    | FeatureMismatch  // a frame whose columns are not the fitted ones

  /** Population variance (`ddof=0`). */
  function Variance(xs: seq<real>): (v: real)
    requires |xs| > 0
    ensures v >= 0.0
  {
    var m := Mean(xs);
    var dev := seq(|xs|, r requires 0 <= r < |xs| => Sq(xs[r] - m));
    MeanNonNegative(dev);
    Mean(dev)
  }

  /** `scale_`: the standard deviation, 1 where it is zero. */
  function Scale(sqrt: real -> real, xs: seq<real>): (s: real)
    requires |xs| > 0
    ensures s != 0.0
  {
    var sd := sqrt(Variance(xs));
    if sd == 0.0 then 1.0 else sd
  }

  /** `fit`: parameters from the training frame only. */
  function Fit(train: Frame, sqrt: real -> real): (r: Result<Scaler, ScaleError>)
    requires train.Valid()
    ensures r.Ok? <==> |train.index| > 0 && |train.names| > 0
    ensures r.Ok? ==> r.value.Valid() && r.value.names == train.names
    ensures r.Ok? ==> forall c :: 0 <= c < |train.names| ==>
      r.value.mean[c] == Mean(train.cols[c]) && r.value.scale[c] == Scale(sqrt, train.cols[c])
  {
    if |train.index| == 0 then Err(NoSamples)
    else if |train.names| == 0 then Err(NoFeatures)
    else
      Ok(Scaler(train.names,
                seq(|train.cols|, c requires 0 <= c < |train.cols| => Mean(train.cols[c])),
                seq(|train.cols|, c requires 0 <= c < |train.cols| => Scale(sqrt, train.cols[c]))))
  }

  /** (x - mean) / scale on one column. */
  function Standardized(xs: seq<real>, mean: real, scale: real): (ys: seq<real>)
    requires scale != 0.0
    ensures |ys| == |xs|
  {
    seq(|xs|, r requires 0 <= r < |xs| => (xs[r] - mean) / scale)
  }

  /** x * scale + mean on one column. */
  function Restored(ys: seq<real>, mean: real, scale: real): (xs: seq<real>)
    ensures |xs| == |ys|
  {
    seq(|ys|, r requires 0 <= r < |ys| => ys[r] * scale + mean)
  }

  /** The frame's columns must be the fitted ones, in the same order. */
  function CheckFrame(s: Scaler, f: Frame): Option<ScaleError>
  {
    if |f.index| == 0 then Some(NoSamples)
    else if f.names != s.names then Some(FeatureMismatch)
    else None
  }

  /** `transform`: same index and columns, every value standardised with
      the fitted parameters of its column. */
  function Transform(s: Scaler, f: Frame): (r: Result<Frame, ScaleError>)
    requires s.Valid() && f.Valid()
    ensures r.Ok? <==> |f.index| > 0 && f.names == s.names
    ensures r.Ok? ==> r.value.Valid() && r.value.index == f.index && r.value.names == f.names
    ensures r.Ok? ==> forall c, t :: 0 <= c < |f.cols| && 0 <= t < |f.index| ==>
      r.value.cols[c][t] == (f.cols[c][t] - s.mean[c]) / s.scale[c]
  {
    match CheckFrame(s, f)
    case Some(e) => Err(e)
    case None =>
      Ok(Frame(f.index, f.names,
               seq(|f.cols|, c requires 0 <= c < |f.cols| => Standardized(f.cols[c], s.mean[c], s.scale[c]))))
  }

  /** `inverse_transform` checks only the shape of its input: it needs
      rows and one column per fitted column, and reads columns by position,
      whatever their names. */
  function CheckShape(s: Scaler, f: Frame): Option<ScaleError>
  {
    if |f.index| == 0 then Some(NoSamples)
    else if |f.names| != |s.names| then Some(FeatureMismatch)
    else None
  }

  /** `inverse_transform`: same index and columns, the value in column
      position c restored with the fitted parameters of position c. */
  function InverseTransform(s: Scaler, f: Frame): (r: Result<Frame, ScaleError>)
    requires s.Valid() && f.Valid()
    ensures r.Ok? <==> |f.index| > 0 && |f.names| == |s.names|
    ensures r.Ok? ==> r.value.Valid() && r.value.index == f.index && r.value.names == f.names
    ensures r.Ok? ==> forall c, t :: 0 <= c < |f.cols| && 0 <= t < |f.index| ==>
      r.value.cols[c][t] == f.cols[c][t] * s.scale[c] + s.mean[c]
  {
    match CheckShape(s, f)
    case Some(e) => Err(e)
    case None =>
      Ok(Frame(f.index, f.names,
               seq(|f.cols|, c requires 0 <= c < |f.cols| => Restored(f.cols[c], s.mean[c], s.scale[c]))))
  }

  /** `estandarizar_train_test`: fit on train, transform train, then
      transform test with the same parameters. */
  function StandardizeTrainTest(train: Frame, test: Frame, sqrt: real -> real): (r: Result<(Frame, Frame, Scaler), ScaleError>)
    requires train.Valid() && test.Valid()
    ensures r.Ok? <==> |train.index| > 0 && |train.names| > 0 && |test.index| > 0 && test.names == train.names
    ensures r.Ok? ==> r.value.2 == Fit(train, sqrt).value
    ensures r.Ok? ==> Transform(r.value.2, train) == Ok(r.value.0) && Transform(r.value.2, test) == Ok(r.value.1)
  {
    match Fit(train, sqrt)
    case Err(e) => Err(e)
    case Ok(s) =>
      match Transform(s, train)
      case Err(e) => Err(e)
      case Ok(trainScaled) =>
        match Transform(s, test)
        case Err(e) => Err(e)
        case Ok(testScaled) => Ok((trainScaled, testScaled, s))
  }

  // ---------------------------------------------------------------------
  // Properties
  // ---------------------------------------------------------------------

  /** The inverse map undoes the standardisation. */
  lemma RestoreStandardized(xs: seq<real>, mean: real, scale: real)
    requires scale != 0.0
    ensures Restored(Standardized(xs, mean, scale), mean, scale) == xs
  {
    forall r | 0 <= r < |xs|
      ensures Restored(Standardized(xs, mean, scale), mean, scale)[r] == xs[r]
    {
      DivMulCancel(xs[r] - mean, scale);
    }
  }

  /** The standardisation undoes the inverse map. */
  lemma StandardizeRestored(ys: seq<real>, mean: real, scale: real)
    requires scale != 0.0
    ensures Standardized(Restored(ys, mean, scale), mean, scale) == ys
  {
    forall r | 0 <= r < |ys|
      ensures Standardized(Restored(ys, mean, scale), mean, scale)[r] == ys[r]
    {
      MulDivCancel(ys[r], scale);
    }
  }

  /** `inverse_transform(transform(f)) == f` for a frame with the fitted columns. */
  lemma InverseAfterTransform(s: Scaler, f: Frame)
    requires s.Valid() && f.Valid() && CheckFrame(s, f).None?
    ensures Transform(s, f).Ok?
    ensures InverseTransform(s, Transform(s, f).value) == Ok(f)
  {
    var g := Transform(s, f).value;
    var h := InverseTransform(s, g).value;
    forall c | 0 <= c < |f.cols|
      ensures h.cols[c] == f.cols[c]
    {
      RestoreStandardized(f.cols[c], s.mean[c], s.scale[c]);
    }
    assert h.cols == f.cols;
  }

  /** `transform(inverse_transform(f)) == f` for a frame with the fitted columns. */
  lemma TransformAfterInverse(s: Scaler, f: Frame)
    requires s.Valid() && f.Valid() && CheckFrame(s, f).None?
    ensures InverseTransform(s, f).Ok?
    ensures Transform(s, InverseTransform(s, f).value) == Ok(f)
  {
    var g := InverseTransform(s, f).value;
    var h := Transform(s, g).value;
    forall c | 0 <= c < |f.cols|
      ensures h.cols[c] == f.cols[c]
    {
      StandardizeRestored(f.cols[c], s.mean[c], s.scale[c]);
    }
    assert h.cols == f.cols;
  }

  /** `inverse_transform` reads columns by position: renaming the columns
      of a frame changes neither whether it succeeds nor the values. */
  lemma InverseIgnoresNames(s: Scaler, f: Frame, names: seq<string>)
    requires s.Valid() && f.Valid() && |names| == |f.names|
    ensures var g := Frame(f.index, names, f.cols);
      InverseTransform(s, g).Ok? == InverseTransform(s, f).Ok?
      && (InverseTransform(s, g).Ok? ==> InverseTransform(s, g).value.cols == InverseTransform(s, f).value.cols)
  {
  }

  lemma {:induction false} SumStandardized(xs: seq<real>, mean: real, scale: real)
    requires scale != 0.0
    ensures Sum(Standardized(xs, mean, scale)) == (Sum(xs) - (|xs| as real) * mean) / scale
  {
    if xs != [] {
      var init := xs[..|xs| - 1];
      var last := xs[|xs| - 1];
      SumStandardized(init, mean, scale);
      assert Standardized(xs, mean, scale)[..|xs| - 1] == Standardized(init, mean, scale);
      DivAdd(Sum(init) - (|init| as real) * mean, last - mean, scale);
    }
  }

  /** Every standardised training column has mean zero. */
  lemma TrainColumnsCentred(train: Frame, sqrt: real -> real, c: nat)
    requires train.Valid() && Fit(train, sqrt).Ok? && c < |train.names|
    ensures var s := Fit(train, sqrt).value;
      Mean(Transform(s, train).value.cols[c]) == 0.0
  {
    var s := Fit(train, sqrt).value;
    var xs := train.cols[c];
    var ys := Transform(s, train).value.cols[c];
    assert ys == Standardized(xs, s.mean[c], s.scale[c]);
    SumStandardized(xs, s.mean[c], s.scale[c]);
    var n := |xs| as real;
    assert s.mean[c] == Sum(xs) / n;
    assert (Sum(xs) / n) * n == Sum(xs) by {
      DivMulCancel(Sum(xs), n);
    }
    assert Sum(ys) == 0.0 / s.scale[c];
    assert Sum(ys) == 0.0;
  }
}
