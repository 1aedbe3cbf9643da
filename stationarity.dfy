/** The stationarity pass of `preprocesar_series_para_VAR` (code/utils.py):
    every column whose unit-root p-value is not below alpha is replaced by
    its first difference, rows with a missing value are dropped from all
    columns at once, and the multicollinearity screen runs on the result.

    `adfuller(...)[1]` and `DataFrame.corr().abs()` are library numerics and
    are inputs: `adf` maps the present values of a column to its p-value and
    `corr` maps a frame to its absolute-correlation matrix. */
module Stationarity {
  import opened Common
  import Collinearity

  // ---------------------------------------------------------------------
  // Column operations
  // ---------------------------------------------------------------------

  /** `Series.diff()`: the change from the previous row, missing at the
      first row and wherever either operand is missing. */
  function Diff(col: seq<Option<real>>): (d: seq<Option<real>>)
    ensures |d| == |col|
  {
    seq(|col|, t requires 0 <= t < |col| =>
      if t > 0 && col[t].Some? && col[t - 1].Some? then Some(col[t].value - col[t - 1].value) else None)
  }

  /** Sum of the differences at rows 1..t. */
  function DiffSum(d: seq<Option<real>>, t: nat): real
    requires t < |d|
  {
    if t == 0 then 0.0 else DiffSum(d, t - 1) + (if d[t].Some? then d[t].value else 0.0)
  }

  /** Differencing loses only the first value: adding the differences up
      to row t to the first value gives back row t. */
  lemma {:induction false} DiffInverse(col: seq<Option<real>>, t: nat)
    requires t < |col| && forall u :: 0 <= u < |col| ==> col[u].Some?
    ensures Diff(col)[0] == None
    ensures col[0].value + DiffSum(Diff(col), t) == col[t].value
  {
    if t > 0 {
      DiffInverse(col, t - 1);
    }
  }

  /** A missing value in a column leaves the difference missing at that row
      and at the next one. */
  lemma DiffMissing(col: seq<Option<real>>, t: nat)
    requires t < |col| && col[t] == None
    ensures Diff(col)[t] == None
    ensures t + 1 < |col| ==> Diff(col)[t + 1] == None
  {
  }

  // ---------------------------------------------------------------------
  // Joint row dropping
  // ---------------------------------------------------------------------

  /** Row r has a value in every column. */
  predicate Complete(cols: seq<seq<Option<real>>>, r: nat)
  {
    forall c :: 0 <= c < |cols| ==> r < |cols[c]| && cols[c][r].Some?
  }

  /** The complete rows among 0..m-1, in order. */
  function KeptRows(cols: seq<seq<Option<real>>>, m: nat): (rows: seq<nat>)
    ensures forall q :: 0 <= q < |rows| ==> rows[q] < m && Complete(cols, rows[q])
  {
    if m == 0 then []
    else
      var last: nat := m - 1;
      KeptRows(cols, last) + (if Complete(cols, last) then [last] else [])
  }

  /** Exactly the complete rows survive, in their original order. */
  lemma {:induction false} KeptRowsSpec(cols: seq<seq<Option<real>>>, m: nat)
    ensures forall r: nat :: r in KeptRows(cols, m) <==> r < m && Complete(cols, r)
    ensures forall a, b :: 0 <= a < b < |KeptRows(cols, m)| ==> KeptRows(cols, m)[a] < KeptRows(cols, m)[b]
  {
    if m > 0 {
      KeptRowsSpec(cols, m - 1);
    }
  }

  /** `DataFrame.dropna()`: the complete rows of every column, with their
      index labels. */
  function DropIncomplete(f: NaFrame): (r: Frame)
    requires f.Valid()
    ensures r.Valid() && r.names == f.names
    ensures |r.index| == |KeptRows(f.cols, |f.index|)|
    ensures forall q :: 0 <= q < |r.index| ==> r.index[q] == f.index[KeptRows(f.cols, |f.index|)[q]]
    ensures forall c, q :: 0 <= c < |r.cols| && 0 <= q < |r.index| ==>
      Some(r.cols[c][q]) == f.cols[c][KeptRows(f.cols, |f.index|)[q]]
  {
    var rows := KeptRows(f.cols, |f.index|);
    Frame(seq(|rows|, q requires 0 <= q < |rows| => f.index[rows[q]]),
          f.names,
          seq(|f.cols|, c requires 0 <= c < |f.cols| =>
            seq(|rows|, q requires 0 <= q < |rows| => f.cols[c][rows[q]].value)))
  }

  // ---------------------------------------------------------------------
  // The pass
  // ---------------------------------------------------------------------

  /** `p_valor < alpha`. */
  predicate Stationary(adf: seq<real> -> real, alpha: real, col: seq<Option<real>>)
  {
    adf(Present(col)) < alpha
  }

  /** Column k after the loop: unchanged if stationary, differenced if not. */
  function Transformed(adf: seq<real> -> real, alpha: real, col: seq<Option<real>>): seq<Option<real>>
  {
    if Stationary(adf, alpha, col) then col else Diff(col)
  }

  /** The names marked non-stationary, in column order. */
  function Unmarked(names: seq<string>, marks: map<string, bool>): (r: seq<string>)
    requires forall k :: 0 <= k < |names| ==> names[k] in marks
  {
    if names == [] then []
    else Unmarked(names[..|names| - 1], marks) + (if marks[names[|names| - 1]] then [] else [names[|names| - 1]])
  }

  /** `variables_diferenciadas` holds a name exactly when it was marked
      non-stationary, and keeps column order. */
  lemma {:induction false} UnmarkedSpec(names: seq<string>, marks: map<string, bool>)
    requires forall k :: 0 <= k < |names| ==> names[k] in marks
    ensures forall x :: x in Unmarked(names, marks) <==> x in names && !marks[x]
  {
    if names != [] {
      var init := names[..|names| - 1];
      UnmarkedSpec(init, marks);
      assert names == init + [names[|names| - 1]];
    }
  }

  /** `preprocesar_series_para_VAR`. The p-values come from `adf` on each
      column's present values and the correlation matrix from `corr`. */
  method PreprocessSeries(series: NaFrame, alpha: real, threshold: real,
                          adf: seq<real> -> real, corr: Frame -> seq<seq<Option<real>>>)
    returns (out: Frame, stationarity: map<string, bool>, high: seq<Collinearity.Correlation>, differenced: seq<string>)
    requires series.Valid() && Distinct(series.names)
    requires forall f: Frame :: IsGrid(corr(f), |f.names|)
    ensures stationarity.Keys == set k | 0 <= k < |series.names| :: series.names[k]
    ensures forall k :: 0 <= k < |series.names| ==>
      series.names[k] in stationarity && stationarity[series.names[k]] == Stationary(adf, alpha, series.cols[k])
    ensures out == DropIncomplete(NaFrame(series.index, series.names,
      seq(|series.cols|, k requires 0 <= k < |series.cols| => Transformed(adf, alpha, series.cols[k]))))
    ensures differenced == Unmarked(series.names, stationarity)
    ensures forall k :: 0 <= k < |series.names| ==>
      (series.names[k] in differenced <==> !Stationary(adf, alpha, series.cols[k]))
    ensures Collinearity.SortedDesc(high)
    ensures forall c :: c in high <==> Collinearity.Reported(out.names, corr(out), threshold, c)
  {
    var names := series.names;
    var cols := series.cols;
    stationarity := map[];
    for c := 0 to |names|
      invariant |cols| == |names|
      invariant forall k :: 0 <= k < c ==> cols[k] == Transformed(adf, alpha, series.cols[k])
      invariant forall k :: c <= k < |names| ==> cols[k] == series.cols[k]
      invariant stationarity.Keys == set k | 0 <= k < c :: names[k]
      invariant forall k :: 0 <= k < c ==>
        names[k] in stationarity && stationarity[names[k]] == Stationary(adf, alpha, series.cols[k])
    {
      var pValue := adf(Present(cols[c]));
      var isStationary := pValue < alpha;
      stationarity := stationarity[names[c] := isStationary];
      if !isStationary {
        cols := cols[c := Diff(cols[c])];
      }
    }
    var transformed := NaFrame(series.index, names, cols);
    assert cols == seq(|series.cols|, k requires 0 <= k < |series.cols| => Transformed(adf, alpha, series.cols[k]));
    out := DropIncomplete(transformed);
    differenced := Unmarked(names, stationarity);
    UnmarkedSpec(names, stationarity);
    high := Collinearity.HighCorrelations(out.names, corr(out), threshold);
  }

  /** Once any column is differenced, the first row is dropped from every
      column. */
  lemma FirstRowDropped(series: NaFrame, alpha: real, adf: seq<real> -> real, k: nat)
    requires series.Valid() && k < |series.cols| && |series.index| > 0
    requires !Stationary(adf, alpha, series.cols[k])
    ensures var cols := seq(|series.cols|, c requires 0 <= c < |series.cols| => Transformed(adf, alpha, series.cols[c]));
      0 !in KeptRows(cols, |series.index|)
  {
    var cols := seq(|series.cols|, c requires 0 <= c < |series.cols| => Transformed(adf, alpha, series.cols[c]));
    KeptRowsSpec(cols, |series.index|);
    assert cols[k][0] == None;
  }

  /** A stationary column keeps its values on the surviving rows. */
  lemma StationaryColumnKept(series: NaFrame, alpha: real, adf: seq<real> -> real, k: nat, q: nat)
    requires series.Valid() && k < |series.cols| && Stationary(adf, alpha, series.cols[k])
    ensures var cols := seq(|series.cols|, c requires 0 <= c < |series.cols| => Transformed(adf, alpha, series.cols[c]));
      var out := DropIncomplete(NaFrame(series.index, series.names, cols));
      q < |out.index| ==> Some(out.cols[k][q]) == series.cols[k][KeptRows(cols, |series.index|)[q]]
  {
  }

  /** A differenced column holds, on every surviving row, the change from
      the row just before it in the input. */
  lemma DifferencedColumnKept(series: NaFrame, alpha: real, adf: seq<real> -> real, k: nat, q: nat)
    requires series.Valid() && k < |series.cols| && !Stationary(adf, alpha, series.cols[k])
    ensures var cols := seq(|series.cols|, c requires 0 <= c < |series.cols| => Transformed(adf, alpha, series.cols[c]));
      var out := DropIncomplete(NaFrame(series.index, series.names, cols));
      var rows := KeptRows(cols, |series.index|);
      q < |out.index| ==>
        (0 < rows[q] && series.cols[k][rows[q]].Some? && series.cols[k][rows[q] - 1].Some?
         && out.cols[k][q] == series.cols[k][rows[q]].value - series.cols[k][rows[q] - 1].value)
  {
    var cols := seq(|series.cols|, c requires 0 <= c < |series.cols| => Transformed(adf, alpha, series.cols[c]));
    var out := DropIncomplete(NaFrame(series.index, series.names, cols));
    var rows := KeptRows(cols, |series.index|);
    if q < |out.index| {
      assert cols[k] == Diff(series.cols[k]);
      assert cols[k][rows[q]].Some?;
    }
  }
}
