/** The control flow of `interpolar_escalonado` (code/01_preprocessing.py):
    interpolating a yearly series to a finer frequency, directly or through
    the ladder annual, quarterly, monthly, daily.

    Dates are integer labels. The calendar and the numerics are library
    code and are inputs: `grid(start, end, freq)` is the date range between
    two dates at a frequency, `kernel(method, order, series)` is the
    interpolation of the missing values (`None` when the library raises),
    and `ln`/`exp` are the logarithm and the exponential. */
module Interpolation {
  import opened Common
  import LogCandidates

  /** The frequency ladder, coarsest first. */
  const Ladder: seq<string> := ["A", "Q", "M", "D"]

  /** The interpolation methods the source names; any other name is passed
      through to the kernel. */
  datatype Method = Linear | Spline | Polynomial | Ffill | Other(name: string)

  /** A series: one value or a gap per date label. */
  datatype Series = Series(index: seq<int>, values: seq<Option<real>>)
  {
    predicate Valid()
    {
      |values| == |index|
    }
  }

  /** The ways the function fails. */
  datatype InterpError =
    | InvalidFrequency    // the target is not on the ladder
    | TooFewDates         // fewer than three dates: the frequency cannot be inferred
    | DuplicateDates      // reindexing a series whose dates repeat
    | EmptyRange          // the range of an empty index
    | NonPositiveForLog   // a zero or negative value under the log transform
    | InsufficientPoints  // spline or polynomial with fewer than four known points
    | KernelFailed        // the interpolation kernel raised

  type Grid = (int, int, string) -> seq<int>
  type Kernel = (Method, nat, Series) -> Option<seq<Option<real>>>

  /** A dated value of a series. */
  type Point = (int, Option<real>)

  /** The (date, value) pairs of a series, in its order. */
  function Points(s: Series): (ps: seq<Point>)
    requires s.Valid()
    ensures |ps| == |s.index| && forall k :: 0 <= k < |ps| ==> ps[k] == (s.index[k], s.values[k])
  {
    seq(|s.index|, k requires 0 <= k < |s.index| => (s.index[k], s.values[k]))
  }

  /** The series whose (date, value) pairs are `ps`, in that order. */
  function FromPoints(ps: seq<Point>): (s: Series)
    ensures s.Valid() && |s.index| == |ps| && Points(s) == ps
  {
    var s := Series(seq(|ps|, k requires 0 <= k < |ps| => ps[k].0), seq(|ps|, k requires 0 <= k < |ps| => ps[k].1));
    assert Points(s) == ps;
    s
  }

  /** The dates of `ps` never decrease. */
  predicate AscendingPoints(ps: seq<Point>)
  {
    forall a, b :: 0 <= a < b < |ps| ==> ps[a].0 <= ps[b].0
  }

  /** Inserts `p` before the first pair whose date is not earlier. */
  function InsertPoint(p: Point, ps: seq<Point>): (r: seq<Point>)
    ensures |r| == |ps| + 1 && multiset(r) == multiset(ps) + multiset{p}
  {
    if ps == [] then [p]
    else if p.0 <= ps[0].0 then [p] + ps
    else
      assert ps == [ps[0]] + ps[1..];
      [ps[0]] + InsertPoint(p, ps[1..])
  }

  /** A date no later than `p`'s and every date of `ps` is no later than
      any date after the insertion. */
  lemma {:induction false} InsertBounded(p: Point, ps: seq<Point>, d: int)
    requires d <= p.0 && forall a :: 0 <= a < |ps| ==> d <= ps[a].0
    ensures forall a :: 0 <= a < |InsertPoint(p, ps)| ==> d <= InsertPoint(p, ps)[a].0
  {
    if ps != [] && p.0 > ps[0].0 {
      InsertBounded(p, ps[1..], d);
    }
  }

  /** Inserting into pairs in date order keeps them in date order. */
  lemma {:induction false} InsertAscending(p: Point, ps: seq<Point>)
    requires AscendingPoints(ps)
    ensures AscendingPoints(InsertPoint(p, ps))
  {
    if ps != [] && p.0 > ps[0].0 {
      InsertAscending(p, ps[1..]);
      InsertBounded(p, ps[1..], ps[0].0);
    }
  }

  /** Insertion sort of the pairs by date. */
  function SortPoints(ps: seq<Point>): (r: seq<Point>)
    ensures |r| == |ps| && AscendingPoints(r) && multiset(r) == multiset(ps)
  {
    if ps == [] then []
    else
      assert ps == [ps[0]] + ps[1..];
      InsertAscending(ps[0], SortPoints(ps[1..]));
      InsertPoint(ps[0], SortPoints(ps[1..]))
  }

  /** `sort_index()`: the same (date, value) pairs, dates ascending. */
  function SortByIndex(s: Series): (r: Series)
    requires s.Valid()
    ensures r.Valid() && |r.index| == |s.index|
    ensures forall a, b :: 0 <= a < b < |r.index| ==> r.index[a] <= r.index[b]
    ensures multiset(Points(r)) == multiset(Points(s))
  {
    var r := FromPoints(SortPoints(Points(s)));
    assert forall k :: 0 <= k < |r.index| ==> r.index[k] == Points(r)[k].0;
    r
  }

  /** Sorting pairs that are already in date order changes nothing. */
  lemma {:induction false} SortAscendingKeeps(ps: seq<Point>)
    requires AscendingPoints(ps)
    ensures SortPoints(ps) == ps
  {
    if ps != [] {
      SortAscendingKeeps(ps[1..]);
    }
  }

  /** A series already in date order comes out of `sort_index` unchanged. */
  lemma SortedSeriesKept(s: Series)
    requires s.Valid() && forall a, b :: 0 <= a < b < |s.index| ==> s.index[a] <= s.index[b]
    ensures SortByIndex(s) == s
  {
    SortAscendingKeeps(Points(s));
    assert FromPoints(Points(s)).index == s.index;
    assert FromPoints(Points(s)).values == s.values;
  }

  /** `pd.date_range(start, end, freq)`. */
  function DateRange(grid: Grid, start: int, end: int, freq: string): seq<int>
  {
    grid(start, end, freq)
  }

  /** The dates are a date range at frequency `freq`. */
  ghost predicate OnGrid(idx: seq<int>, grid: Grid, freq: string)
  {
    exists a, b :: idx == DateRange(grid, a, b, freq)
  }

  /** The kernel returns one value per date of its input. */
  ghost predicate KernelKeepsLength(kernel: Kernel)
  {
    forall m, o, s :: kernel(m, o, s).Some? ==> |kernel(m, o, s).value| == |s.index|
  }

  /** `pasos.index(frecuencia_final)`. */
  function LadderPosition(target: string): (k: nat)
    requires target in Ladder
    ensures k < |Ladder| && Ladder[k] == target
  {
    if target == "A" then 0 else if target == "Q" then 1 else if target == "M" then 2 else 3
  }

  /** The order argument: 2 for a polynomial, 3 for a spline, none (0)
      otherwise. */
  function Order(m: Method): nat
  {
    match m
    case Polynomial => 2
    case Spline => 3
    case _ => 0
  }

  /** The frequencies visited: the ladder after annual up to the target in
      stepwise mode, the target alone otherwise. */
  function Steps(targetIdx: nat, stepwise: bool): (steps: seq<string>)
    requires targetIdx < |Ladder|
    ensures forall k :: 0 <= k < |steps| ==> steps[k] in Ladder
    ensures stepwise ==> |steps| == targetIdx && forall k :: 0 <= k < |steps| ==> steps[k] == Ladder[k + 1]
    ensures !stepwise ==> steps == [Ladder[targetIdx]]
    ensures |steps| > 0 ==> steps[|steps| - 1] == Ladder[targetIdx]
  {
    if stepwise then Ladder[1..targetIdx + 1] else [Ladder[targetIdx]]
  }

  /** `index.min()`. */
  function Earliest(idx: seq<int>): (d: int)
    requires |idx| > 0
    ensures d in idx && forall k :: 0 <= k < |idx| ==> d <= idx[k]
  {
    if |idx| == 1 then idx[0]
    else
      var rest := Earliest(idx[1..]);
      assert forall k :: 1 <= k < |idx| ==> idx[k] == idx[1..][k - 1];
      if idx[0] <= rest then idx[0] else rest
  }

  /** `index.max()`. */
  function Latest(idx: seq<int>): (d: int)
    requires |idx| > 0
    ensures d in idx && forall k :: 0 <= k < |idx| ==> idx[k] <= d
  {
    if |idx| == 1 then idx[0]
    else
      var rest := Latest(idx[1..]);
      assert forall k :: 1 <= k < |idx| ==> idx[k] == idx[1..][k - 1];
      if idx[0] >= rest then idx[0] else rest
  }

  /** `reindex`: the value at each new date is the value the series has at
      that date, or a gap when the series does not have the date. */
  function Reindex(s: Series, labels: seq<int>): (r: Series)
    requires s.Valid() && Distinct(s.index)
    ensures r.Valid() && r.index == labels
    ensures forall t, k :: 0 <= t < |labels| && 0 <= k < |s.index| && s.index[k] == labels[t] ==>
      r.values[t] == s.values[k]
    ensures forall t :: 0 <= t < |labels| && labels[t] !in s.index ==> r.values[t] == None
  {
    Series(labels, seq(|labels|, t requires 0 <= t < |labels| =>
      if labels[t] in s.index then s.values[IndexOf(s.index, labels[t])] else None))
  }

  /** `ffill`: every gap takes the last known value before it. */
  function ForwardFill(xs: seq<Option<real>>): (ys: seq<Option<real>>)
    ensures |ys| == |xs|
  {
    if xs == [] then []
    else
      var init := ForwardFill(xs[..|xs| - 1]);
      var last := xs[|xs| - 1];
      init + [if last.Some? || init == [] then last else init[|init| - 1]]
  }

  /** A known value is kept; a gap takes the nearest earlier known value;
      a gap with no known value before it stays a gap. */
  lemma {:induction false} ForwardFillSpec(xs: seq<Option<real>>, t: nat)
    requires t < |xs|
    ensures xs[t].Some? ==> ForwardFill(xs)[t] == xs[t]
    ensures ForwardFill(xs)[t].None? <==> forall u :: 0 <= u <= t ==> xs[u].None?
    ensures ForwardFill(xs)[t].Some? ==>
      exists u :: 0 <= u <= t && xs[u] == ForwardFill(xs)[t] && forall w :: u < w <= t ==> xs[w].None?
  {
    var init := xs[..|xs| - 1];
    assert ForwardFill(xs)[..|xs| - 1] == ForwardFill(init);
    if t < |xs| - 1 {
      ForwardFillSpec(init, t);
      assert ForwardFill(xs)[t] == ForwardFill(init)[t];
      if ForwardFill(xs)[t].Some? {
        var u :| 0 <= u <= t && init[u] == ForwardFill(init)[t] && forall w :: u < w <= t ==> init[w].None?;
        assert xs[u] == ForwardFill(xs)[t] && forall w :: u < w <= t ==> xs[w].None?;
      }
    } else if xs[t].None? && t > 0 {
      ForwardFillSpec(init, t - 1);
      assert ForwardFill(xs)[t] == ForwardFill(init)[t - 1];
      if ForwardFill(xs)[t].Some? {
        var u :| 0 <= u <= t - 1 && init[u] == ForwardFill(init)[t - 1] && forall w :: u < w <= t - 1 ==> init[w].None?;
        assert xs[u] == ForwardFill(xs)[t] && forall w :: u < w <= t ==> xs[w].None?;
      }
    }
  }

  /** `np.log` / `np.exp` on the known values. */
  function MapKnown(f: real -> real, s: Series): (r: Series)
    requires s.Valid()
    ensures r.Valid() && r.index == s.index
    ensures forall t :: 0 <= t < |s.values| ==> (r.values[t].Some? <==> s.values[t].Some?)
  {
    Series(s.index, seq(|s.values|, t requires 0 <= t < |s.values| =>
      if s.values[t].Some? then Some(f(s.values[t].value)) else None))
  }

  /** The early return for `ffill`: the target grid over the series' span,
      filled forward. */
  function FfillPath(s: Series, target: string, grid: Grid): (r: Result<Series, InterpError>)
    requires s.Valid() && |s.index| > 0
    ensures r.Ok? <==> Distinct(s.index)
    ensures r.Ok? ==> r.value.Valid() && r.value.index == DateRange(grid, Earliest(s.index), Latest(s.index), target)
  {
    if !Distinct(s.index) then Err(DuplicateDates)
    else
      var labels := DateRange(grid, Earliest(s.index), Latest(s.index), target);
      Ok(Series(labels, ForwardFill(Reindex(s, labels).values)))
  }

  /** One pass of the loop: the grid at `freq` over the series' span, the
      four-point guard, then the kernel. */
  function Step(s: Series, freq: string, m: Method, grid: Grid, kernel: Kernel): (r: Result<Series, InterpError>)
    requires s.Valid() && KernelKeepsLength(kernel)
    ensures |s.index| == 0 ==> r == Err(EmptyRange)
    ensures |s.index| > 0 && !Distinct(s.index) ==> r == Err(DuplicateDates)
    ensures |s.index| > 0 && Distinct(s.index) && (m == Spline || m == Polynomial) ==>
      var labels := DateRange(grid, Earliest(s.index), Latest(s.index), freq);
      (|Present(Reindex(s, labels).values)| < 4 ==> r == Err(InsufficientPoints))
    ensures r.Ok? ==> r.value.Valid() && r.value.index == DateRange(grid, Earliest(s.index), Latest(s.index), freq)
    ensures r.Ok? ==>
      var labels := DateRange(grid, Earliest(s.index), Latest(s.index), freq);
      Distinct(s.index) && kernel(m, Order(m), Reindex(s, labels)) == Some(r.value.values)
    ensures r == Err(KernelFailed) ==>
      var labels := DateRange(grid, Earliest(s.index), Latest(s.index), freq);
      Distinct(s.index) && kernel(m, Order(m), Reindex(s, labels)).None?
  {
    if |s.index| == 0 then Err(EmptyRange)
    else
      var labels := DateRange(grid, Earliest(s.index), Latest(s.index), freq);
      if !Distinct(s.index) then Err(DuplicateDates)
      else
        var aligned := Reindex(s, labels);
        if (m == Spline || m == Polynomial) && |Present(aligned.values)| < 4 then Err(InsufficientPoints)
        else
          match kernel(m, Order(m), aligned)
          case None => Err(KernelFailed)
          case Some(vs) => Ok(Series(labels, vs))
  }

  /** The loop over the visited frequencies, stopping at the first error. */
  function Walk(s: Series, steps: seq<string>, m: Method, grid: Grid, kernel: Kernel): (r: Result<Series, InterpError>)
    requires s.Valid() && KernelKeepsLength(kernel)
    ensures r.Ok? ==> r.value.Valid()
    decreases |steps|
  {
    if steps == [] then Ok(s)
    else
      match Step(s, steps[0], m, grid, kernel)
      case Err(e) => Err(e)
      case Ok(next) => Walk(next, steps[1..], m, grid, kernel)
  }

  lemma LastOfTail<T>(xs: seq<T>)
    requires |xs| > 1
    ensures xs[1..][|xs| - 2] == xs[|xs| - 1]
  {
  }

  /** A walk that succeeds ends on a grid at the last frequency it visits. */
  lemma {:induction false} WalkEndsOnLastGrid(s: Series, steps: seq<string>, m: Method, grid: Grid, kernel: Kernel)
    requires s.Valid() && KernelKeepsLength(kernel)
    requires |steps| > 0 && Walk(s, steps, m, grid, kernel).Ok?
    ensures OnGrid(Walk(s, steps, m, grid, kernel).value.index, grid, steps[|steps| - 1])
    decreases |steps|
  {
    var next := Step(s, steps[0], m, grid, kernel).value;
    assert Walk(s, steps, m, grid, kernel) == Walk(next, steps[1..], m, grid, kernel);
    if |steps| == 1 {
      DateRangeOnGrid(grid, Earliest(s.index), Latest(s.index), steps[0]);
    } else {
      LastOfTail(steps);
      WalkEndsOnLastGrid(next, steps[1..], m, grid, kernel);
    }
  }

  lemma DateRangeOnGrid(grid: Grid, a: int, b: int, freq: string)
    ensures OnGrid(DateRange(grid, a, b, freq), grid, freq)
  {
  }

  /** The loop over the visited frequencies, one `Step` per frequency. */
  method WalkSteps(s: Series, steps: seq<string>, m: Method, grid: Grid, kernel: Kernel) returns (r: Result<Series, InterpError>)
    requires s.Valid() && KernelKeepsLength(kernel)
    ensures r == Walk(s, steps, m, grid, kernel)
  {
    var series := s;
    for i := 0 to |steps|
      invariant series.Valid()
      invariant Walk(s, steps, m, grid, kernel) == Walk(series, steps[i..], m, grid, kernel)
    {
      assert steps[i..][0] == steps[i] && steps[i..][1..] == steps[i + 1..];
      var next := Step(series, steps[i], m, grid, kernel);
      if next.Err? {
        return Err(next.error);
      }
      series := next.value;
    }
    assert steps[|steps|..] == [];
    r := Ok(series);
  }

  /** The value of the function once the frequency is valid and there are
      at least three dates, for a method other than `ffill`. */
  function Interpolated(s: Series, target: string, m: Method, stepwise: bool, logTransform: bool, revertLog: bool,
                        grid: Grid, kernel: Kernel, ln: real -> real, exp: real -> real): (r: Result<Series, InterpError>)
    requires s.Valid() && KernelKeepsLength(kernel) && target in Ladder
    ensures logTransform && LogCandidates.HasNonPositive(Present(s.values)) ==> r == Err(NonPositiveForLog)
    ensures r.Ok? ==> r.value.Valid()
  {
    if logTransform && LogCandidates.HasNonPositive(Present(s.values)) then Err(NonPositiveForLog)
    else
      var start := if logTransform then MapKnown(ln, s) else s;
      match Walk(start, Steps(LadderPosition(target), stepwise), m, grid, kernel)
      case Err(e) => Err(e)
      case Ok(w) => Ok(if logTransform && revertLog then MapKnown(exp, w) else w)
  }

  /** `interpolar_escalonado`: the series is sorted by date on entry, and
      every check and step after that works on the sorted series. */
  method Interpolate(s: Series, target: string, m: Method, stepwise: bool, logTransform: bool, revertLog: bool,
                     grid: Grid, kernel: Kernel, ln: real -> real, exp: real -> real)
    returns (r: Result<Series, InterpError>)
    requires s.Valid() && KernelKeepsLength(kernel)
    ensures target !in Ladder ==> r == Err(InvalidFrequency)
    ensures target in Ladder && |s.index| < 3 ==> r == Err(TooFewDates)
    ensures target in Ladder && |s.index| >= 3 && m == Ffill ==> r == FfillPath(SortByIndex(s), target, grid)
    ensures target in Ladder && |s.index| >= 3 && m != Ffill ==>
      r == Interpolated(SortByIndex(s), target, m, stepwise, logTransform, revertLog, grid, kernel, ln, exp)
  {
    var sorted := SortByIndex(s);
    if target !in Ladder {
      return Err(InvalidFrequency);
    }
    if |sorted.index| < 3 {
      return Err(TooFewDates);
    }
    if m == Ffill {
      r := FfillPath(sorted, target, grid);
      return;
    }
    r := LogWalk(sorted, target, m, stepwise, logTransform, revertLog, grid, kernel, ln, exp);
  }

  /** The part of `interpolar_escalonado` after the `ffill` early return:
      the optional log, the walk down the ladder, the optional exponent. */
  method LogWalk(s: Series, target: string, m: Method, stepwise: bool, logTransform: bool, revertLog: bool,
                 grid: Grid, kernel: Kernel, ln: real -> real, exp: real -> real)
    returns (r: Result<Series, InterpError>)
    requires s.Valid() && KernelKeepsLength(kernel) && target in Ladder
    ensures r == Interpolated(s, target, m, stepwise, logTransform, revertLog, grid, kernel, ln, exp)
  {
    var series := s;
    if logTransform {
      var known := Present(s.values);
      if exists k :: 0 <= k < |known| && known[k] <= 0.0 {
        return Err(NonPositiveForLog);
      }
      series := MapKnown(ln, series);
    }
    var walked := WalkSteps(series, Steps(LadderPosition(target), stepwise), m, grid, kernel);
    if walked.Err? {
      return Err(walked.error);
    }
    series := walked.value;
    if logTransform && revertLog {
      series := MapKnown(exp, series);
    }
    r := Ok(series);
  }

  /** `ffill` ignores the log and stepwise flags and lands on the target
      grid over the input's span, with every gap filled forward. */
  lemma FfillIgnoresFlags(s: Series, target: string, grid: Grid, t: nat)
    requires s.Valid() && |s.index| > 0 && Distinct(s.index) && target in Ladder
    ensures FfillPath(s, target, grid).Ok?
    ensures var labels := DateRange(grid, Earliest(s.index), Latest(s.index), target);
      t < |labels| ==>
        (FfillPath(s, target, grid).value.values[t].None? <==>
           forall u :: 0 <= u <= t ==> Reindex(s, labels).values[u].None?)
  {
    var labels := DateRange(grid, Earliest(s.index), Latest(s.index), target);
    if t < |labels| {
      ForwardFillSpec(Reindex(s, labels).values, t);
    }
  }

  /** A successful interpolation that visits at least one frequency lands
      on a grid at the target frequency. */
  lemma InterpolatedOnTargetGrid(s: Series, target: string, m: Method, stepwise: bool, logTransform: bool, revertLog: bool,
                                 grid: Grid, kernel: Kernel, ln: real -> real, exp: real -> real)
    requires s.Valid() && KernelKeepsLength(kernel) && target in Ladder
    requires target != "A" || !stepwise
    requires Interpolated(s, target, m, stepwise, logTransform, revertLog, grid, kernel, ln, exp).Ok?
    ensures OnGrid(Interpolated(s, target, m, stepwise, logTransform, revertLog, grid, kernel, ln, exp).value.index, grid, target)
  {
    var start := if logTransform then MapKnown(ln, s) else s;
    var steps := Steps(LadderPosition(target), stepwise);
    assert |steps| > 0;
    WalkEndsOnLastGrid(start, steps, m, grid, kernel);
  }

  /** Stepwise interpolation to annual visits no frequency: the series
      comes back sorted by date (the pairs of the input, dates ascending),
      with the exponent applied only when both flags ask for it. */
  lemma AnnualStepwiseSorts(s: Series, m: Method, logTransform: bool, revertLog: bool,
                            grid: Grid, kernel: Kernel, ln: real -> real, exp: real -> real)
    requires s.Valid() && KernelKeepsLength(kernel)
    requires !(logTransform && LogCandidates.HasNonPositive(Present(SortByIndex(s).values)))
    ensures var sorted := SortByIndex(s);
      var r := Interpolated(sorted, "A", m, true, logTransform, revertLog, grid, kernel, ln, exp);
      r.Ok? && r.value.index == sorted.index
      && (forall a, b :: 0 <= a < b < |r.value.index| ==> r.value.index[a] <= r.value.index[b])
      && (!logTransform ==> r.value == sorted)
      && (logTransform && revertLog ==> r.value == MapKnown(exp, MapKnown(ln, sorted)))
      && (logTransform && !revertLog ==> r.value == MapKnown(ln, sorted))
  {
    assert Steps(LadderPosition("A"), true) == [];
  }
}
