/** `candidatos_para_log` (code/01_preprocessing.py): the columns that are
    worth a log transform. A column qualifies when its numeric values are
    all positive, there are at least three of them, the ratio of the largest
    to the smallest exceeds a ratio threshold and their mean exceeds a level
    threshold. Non-numeric cells are coerced to missing and dropped, so a
    column is a `seq<Option<real>>` and its numeric values are `Present`. */
module LogCandidates {
  import opened Common

  /** `Series.max()`. */
  function Max(xs: seq<real>): (m: real)
    requires |xs| > 0
    ensures m in xs && forall k :: 0 <= k < |xs| ==> xs[k] <= m
  {
    if |xs| == 1 then xs[0]
    else
      var rest := Max(xs[1..]);
      assert forall k :: 1 <= k < |xs| ==> xs[k] == xs[1..][k - 1];
      if xs[0] >= rest then xs[0] else rest
  }

  /** `Series.min()`. */
  function Min(xs: seq<real>): (m: real)
    requires |xs| > 0
    ensures m in xs && forall k :: 0 <= k < |xs| ==> m <= xs[k]
  {
    if |xs| == 1 then xs[0]
    else
      var rest := Min(xs[1..]);
      assert forall k :: 1 <= k < |xs| ==> xs[k] == xs[1..][k - 1];
      if xs[0] <= rest then xs[0] else rest
  }

  /** `(serie <= 0).any()`. */
  predicate HasNonPositive(vs: seq<real>)
  {
    exists k :: 0 <= k < |vs| && vs[k] <= 0.0
  }

  /** The numeric values of a column qualify for a log transform. */
  predicate IsCandidate(col: seq<Option<real>>, ratio: real, level: real)
  {
    var vs := Present(col);
    !HasNonPositive(vs) && |vs| >= 3 && Max(vs) / Min(vs) > ratio && Mean(vs) > level
  }

  /** Whether each column qualifies. */
  function Qualifying(cols: seq<seq<Option<real>>>, ratio: real, level: real): (flags: seq<bool>)
    ensures |flags| == |cols|
    ensures forall k :: 0 <= k < |cols| ==> (flags[k] <==> IsCandidate(cols[k], ratio, level))
  {
    seq(|cols|, k requires 0 <= k < |cols| => IsCandidate(cols[k], ratio, level))
  }

  /** The positions among the first m whose flag is set, in order. */
  function IndicesWhere(flags: seq<bool>, m: nat): (idx: seq<nat>)
    requires m <= |flags|
    ensures forall q :: 0 <= q < |idx| ==> idx[q] < m
  {
    if m == 0 then []
    else
      var last: nat := m - 1;
      IndicesWhere(flags, last) + (if flags[last] then [last] else [])
  }

  /** Exactly the flagged positions are listed. */
  lemma {:induction false} IndicesWhereMembers(flags: seq<bool>, m: nat)
    requires m <= |flags|
    ensures forall k: nat :: k in IndicesWhere(flags, m) <==> k < m && flags[k]
  {
    if m > 0 {
      IndicesWhereMembers(flags, m - 1);
    }
  }

  /** The flagged positions are listed once each, in increasing order. */
  lemma {:induction false} IndicesWhereIncreasing(flags: seq<bool>, m: nat)
    requires m <= |flags|
    ensures forall a, b :: 0 <= a < b < |IndicesWhere(flags, m)| ==> IndicesWhere(flags, m)[a] < IndicesWhere(flags, m)[b]
  {
    if m > 0 {
      var last: nat := m - 1;
      var prev := IndicesWhere(flags, last);
      IndicesWhereIncreasing(flags, last);
      if flags[last] {
        assert IndicesWhere(flags, m) == prev + [last];
      }
    }
  }

  /** The indices, among the first m columns, of the qualifying ones. */
  function CandidateIndices(cols: seq<seq<Option<real>>>, ratio: real, level: real, m: nat): (idx: seq<nat>)
    requires m <= |cols|
  {
    IndicesWhere(Qualifying(cols, ratio, level), m)
  }

  /** Exactly the qualifying columns are selected, each once, in column
      order. */
  lemma CandidateIndicesSpec(cols: seq<seq<Option<real>>>, ratio: real, level: real)
    ensures forall k: nat :: k in CandidateIndices(cols, ratio, level, |cols|) <==> k < |cols| && IsCandidate(cols[k], ratio, level)
    ensures forall a, b :: 0 <= a < b < |CandidateIndices(cols, ratio, level, |cols|)| ==>
      CandidateIndices(cols, ratio, level, |cols|)[a] < CandidateIndices(cols, ratio, level, |cols|)[b]
  {
    IndicesWhereMembers(Qualifying(cols, ratio, level), |cols|);
    IndicesWhereIncreasing(Qualifying(cols, ratio, level), |cols|);
  }

  /** `candidatos_para_log`: the names of the qualifying columns, in column
      order. The thresholds `umbral_ratio` and `umbral_media` (5 and 1000
      by default in the source) are parameters. */
  method Candidates(df: NaFrame, ratio: real, level: real) returns (candidates: seq<string>)
    requires df.Valid()
    ensures var idx := CandidateIndices(df.cols, ratio, level, |df.cols|);
      |candidates| == |idx| && forall q :: 0 <= q < |idx| ==> candidates[q] == df.names[idx[q]]
  {
    candidates := [];
    ghost var flags := Qualifying(df.cols, ratio, level);
    for c := 0 to |df.names|
      invariant |candidates| == |IndicesWhere(flags, c)|
      invariant forall q :: 0 <= q < |candidates| ==> candidates[q] == df.names[IndicesWhere(flags, c)[q]]
    {
      var qualifies := Qualifies(df.cols[c], ratio, level);
      if qualifies {
        candidates := candidates + [df.names[c]];
      }
      assert IndicesWhere(flags, c + 1) == IndicesWhere(flags, c) + (if flags[c] then [c] else []);
    }
  }

  /** The body of the loop for one column: the two `continue` guards, then
      the ratio and level test. */
  method Qualifies(col: seq<Option<real>>, ratio: real, level: real) returns (qualifies: bool)
    ensures qualifies <==> IsCandidate(col, ratio, level)
  {
    var series := Present(col);
    if exists k :: 0 <= k < |series| && series[k] <= 0.0 {
      return false;
    }
    if |series| < 3 {
      return false;
    }
    var spread := Max(series) / Min(series);
    qualifies := spread > ratio && Mean(series) > level;
  }

  /** A column with a zero or negative value is never selected. */
  lemma NonPositiveNeverCandidate(col: seq<Option<real>>, ratio: real, level: real, k: nat)
    requires k < |Present(col)| && Present(col)[k] <= 0.0
    ensures !IsCandidate(col, ratio, level)
  {
  }

  /** A column with fewer than three numeric values is never selected. */
  lemma FewValuesNeverCandidate(col: seq<Option<real>>, ratio: real, level: real)
    requires |Present(col)| < 3
    ensures !IsCandidate(col, ratio, level)
  {
  }

  /** A selected column's smallest value is positive, so the ratio is
      defined and at least 1; with a ratio threshold of at least 1 a
      constant column is never selected. */
  lemma ConstantNeverCandidate(col: seq<Option<real>>, ratio: real, level: real)
    requires ratio >= 1.0 && |Present(col)| > 0
    requires forall k :: 0 <= k < |Present(col)| ==> Present(col)[k] == Present(col)[0]
    ensures !IsCandidate(col, ratio, level)
  {
    var vs := Present(col);
    assert Max(vs) == vs[0] && Min(vs) == vs[0];
    if vs[0] > 0.0 {
      assert Max(vs) / Min(vs) == 1.0;
    }
  }
}
