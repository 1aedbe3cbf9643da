/** The multicollinearity screen (`analizar_multicolinealidad_para_VAR`,
    code/utils.py). The absolute-correlation matrix `series.corr().abs()`
    is an input; an entry pandas leaves as NaN (a constant column) is
    `None` and never exceeds the threshold. */
module Collinearity {
  import opened Common

  /** One reported tuple `(var1, var2, coef)`. */
  datatype Correlation = Correlation(first: string, second: string, coef: real)

  /** `coef > umbral_corr` on a possibly-NaN entry. */
  predicate Above(entry: Option<real>, threshold: real)
  {
    entry.Some? && entry.value > threshold
  }

  // ---------------------------------------------------------------------
  // The scan over the strict lower triangle
  // ---------------------------------------------------------------------

  /** The pairs (i, j), j < m, of row i whose entry is above the threshold. */
  function RowPairs(corr: seq<seq<Option<real>>>, threshold: real, i: nat, m: nat): seq<(nat, nat)>
    requires IsGrid(corr, |corr|) && i < |corr| && m <= i
  {
    if m == 0 then []
    else RowPairs(corr, threshold, i, m - 1) + (if Above(corr[i][m - 1], threshold) then [(i, m - 1)] else [])
  }

  /** The pairs found in rows 0..k-1, in scan order. */
  function Pairs(corr: seq<seq<Option<real>>>, threshold: real, k: nat): seq<(nat, nat)>
    requires IsGrid(corr, |corr|) && k <= |corr|
  {
    if k == 0 then [] else Pairs(corr, threshold, k - 1) + RowPairs(corr, threshold, k - 1, k - 1)
  }

  /** The tuples the scan appends for the given pairs. */
  function Report(names: seq<string>, corr: seq<seq<Option<real>>>, pairs: seq<(nat, nat)>): (r: seq<Correlation>)
    requires IsGrid(corr, |names|) && PairsInRange(names, corr, pairs)
    ensures |r| == |pairs|
  {
    if pairs == [] then []
    else Report(names, corr, pairs[..|pairs| - 1]) + [Correlation(names[pairs[|pairs| - 1].0], names[pairs[|pairs| - 1].1],
                                                                  corr[pairs[|pairs| - 1].0][pairs[|pairs| - 1].1].value)]
  }

  /** The p-th tuple of the report names the p-th pair and carries its coefficient. */
  lemma {:induction false} ReportEntries(names: seq<string>, corr: seq<seq<Option<real>>>, pairs: seq<(nat, nat)>)
    requires IsGrid(corr, |names|) && PairsInRange(names, corr, pairs)
    ensures forall p :: 0 <= p < |pairs| ==>
      Report(names, corr, pairs)[p] == Correlation(names[pairs[p].0], names[pairs[p].1], corr[pairs[p].0][pairs[p].1].value)
  {
    if pairs != [] {
      var init := pairs[..|pairs| - 1];
      assert PairsInRange(names, corr, init) by {
        forall p | 0 <= p < |init| ensures init[p] == pairs[p] { }
      }
      ReportEntries(names, corr, init);
    }
  }

  /** (a, b) comes strictly before (c, d) in row-major order. */
  predicate Before(x: (nat, nat), y: (nat, nat))
  {
    x.0 < y.0 || (x.0 == y.0 && x.1 < y.1)
  }

  predicate StrictlyIncreasing(pairs: seq<(nat, nat)>)
  {
    forall a, b :: 0 <= a < b < |pairs| ==> Before(pairs[a], pairs[b])
  }

  /** A pair of the lower triangle whose entry is above the threshold. */
  predicate Hit(corr: seq<seq<Option<real>>>, threshold: real, k: nat, x: (nat, nat))
    requires IsGrid(corr, |corr|)
  {
    x.1 < x.0 < k <= |corr| && Above(corr[x.0][x.1], threshold)
  }

  /** Row i yields exactly its pairs before column m above the threshold. */
  lemma {:induction false} RowPairsMembers(corr: seq<seq<Option<real>>>, threshold: real, i: nat, m: nat)
    requires IsGrid(corr, |corr|) && i < |corr| && m <= i
    ensures forall x :: x in RowPairs(corr, threshold, i, m) <==> x.0 == i && x.1 < m && Above(corr[i][x.1], threshold)
  {
    if m > 0 {
      RowPairsMembers(corr, threshold, i, m - 1);
    }
  }

  /** Row i yields its pairs in column order. */
  lemma {:induction false} RowPairsIncreasing(corr: seq<seq<Option<real>>>, threshold: real, i: nat, m: nat)
    requires IsGrid(corr, |corr|) && i < |corr| && m <= i
    ensures StrictlyIncreasing(RowPairs(corr, threshold, i, m))
  {
    if m > 0 {
      var prev := RowPairs(corr, threshold, i, m - 1);
      RowPairsIncreasing(corr, threshold, i, m - 1);
      RowPairsMembers(corr, threshold, i, m - 1);
      if Above(corr[i][m - 1], threshold) {
        var next := prev + [(i, m - 1)];
        forall a, b | 0 <= a < b < |next|
          ensures Before(next[a], next[b])
        {
          if b == |prev| {
            assert next[a] in prev;
          }
        }
      }
    }
  }

  /** Exactly the lower-triangle pairs above the threshold are found, in
      row-major order: none on the diagonal, none twice, and an entry of
      exactly the threshold is not reported. */
  lemma {:induction false} PairsSpec(corr: seq<seq<Option<real>>>, threshold: real, k: nat)
    requires IsGrid(corr, |corr|) && k <= |corr|
    ensures forall x :: x in Pairs(corr, threshold, k) <==> Hit(corr, threshold, k, x)
    ensures StrictlyIncreasing(Pairs(corr, threshold, k))
  {
    if k > 0 {
      PairsSpec(corr, threshold, k - 1);
      RowPairsMembers(corr, threshold, k - 1, k - 1);
      RowPairsIncreasing(corr, threshold, k - 1, k - 1);
      var before := Pairs(corr, threshold, k - 1);
      var row := RowPairs(corr, threshold, k - 1, k - 1);
      forall a, b | 0 <= a < b < |before + row|
        ensures Before((before + row)[a], (before + row)[b])
      {
        if b >= |before| && a < |before| {
          assert before[a] in before;
          assert row[b - |before|] in row;
        }
      }
    }
  }

  // ---------------------------------------------------------------------
  // The stable descending sort `list.sort(key=coef, reverse=True)`
  // ---------------------------------------------------------------------

  predicate SortedDesc(s: seq<Correlation>)
  {
    forall a, b :: 0 <= a < b < |s| ==> s[a].coef >= s[b].coef
  }

  /** Places `c` after every element whose coefficient is at least its own. */
  function Insert(c: Correlation, s: seq<Correlation>): seq<Correlation>
  {
    if s == [] then [c]
    else if s[0].coef >= c.coef then [s[0]] + Insert(c, s[1..])
    else [c] + s
  }

  /** Python's stable sort by coefficient, largest first. */
  function SortDesc(xs: seq<Correlation>): seq<Correlation>
  {
    if xs == [] then [] else Insert(xs[|xs| - 1], SortDesc(xs[..|xs| - 1]))
  }

  /** The elements with coefficient v, in their order in `s`. */
  function WithCoef(s: seq<Correlation>, v: real): seq<Correlation>
  {
    if s == [] then []
    else (if s[0].coef == v then [s[0]] else []) + WithCoef(s[1..], v)
  }

  lemma {:induction false} WithCoefAppend(s: seq<Correlation>, t: seq<Correlation>, v: real)
    ensures WithCoef(s + t, v) == WithCoef(s, v) + WithCoef(t, v)
  {
    if s != [] {
      assert (s + t)[1..] == s[1..] + t;
      WithCoefAppend(s[1..], t, v);
    } else {
      assert s + t == t;
    }
  }

  lemma {:induction false} WithCoefBelow(s: seq<Correlation>, v: real)
    requires forall k :: 0 <= k < |s| ==> s[k].coef < v
    ensures WithCoef(s, v) == []
  {
    if s != [] {
      WithCoefBelow(s[1..], v);
    }
  }

  lemma {:induction false} InsertBounded(c: Correlation, s: seq<Correlation>, bound: real)
    requires c.coef <= bound && forall k :: 0 <= k < |s| ==> s[k].coef <= bound
    ensures forall k :: 0 <= k < |Insert(c, s)| ==> Insert(c, s)[k].coef <= bound
  {
    if s != [] && s[0].coef >= c.coef {
      InsertBounded(c, s[1..], bound);
    }
  }

  lemma {:induction false} InsertSorted(c: Correlation, s: seq<Correlation>)
    requires SortedDesc(s)
    ensures SortedDesc(Insert(c, s))
  {
    if s != [] && s[0].coef >= c.coef {
      InsertSorted(c, s[1..]);
      InsertBounded(c, s[1..], s[0].coef);
    }
  }

  lemma {:induction false} InsertPermutes(c: Correlation, s: seq<Correlation>)
    ensures multiset(Insert(c, s)) == multiset(s) + multiset{c}
  {
    if s != [] && s[0].coef >= c.coef {
      InsertPermutes(c, s[1..]);
      assert s == [s[0]] + s[1..];
    }
  }

  lemma WithCoefCons(x: Correlation, t: seq<Correlation>, v: real)
    ensures WithCoef([x] + t, v) == (if x.coef == v then [x] else []) + WithCoef(t, v)
  {
    assert ([x] + t)[1..] == t;
  }

  lemma {:induction false} InsertStable(c: Correlation, s: seq<Correlation>, v: real)
    requires SortedDesc(s)
    ensures WithCoef(Insert(c, s), v) == WithCoef(s, v) + (if c.coef == v then [c] else [])
  {
    if s == [] {
    } else if s[0].coef >= c.coef {
      var rest := s[1..];
      assert SortedDesc(rest) by {
        forall a, b | 0 <= a < b < |rest| ensures rest[a].coef >= rest[b].coef {
          assert rest[a] == s[a + 1] && rest[b] == s[b + 1];
        }
      }
      InsertStable(c, rest, v);
      WithCoefCons(s[0], Insert(c, rest), v);
      WithCoefCons(s[0], rest, v);
      assert s == [s[0]] + rest;
    } else {
      WithCoefCons(c, s, v);
      if c.coef == v {
        WithCoefBelow(s, v);
      }
    }
  }

  /** The sort leaves coefficients in non-increasing order. */
  lemma {:induction false} SortDescSorted(xs: seq<Correlation>)
    ensures SortedDesc(SortDesc(xs))
  {
    if xs != [] {
      SortDescSorted(xs[..|xs| - 1]);
      InsertSorted(xs[|xs| - 1], SortDesc(xs[..|xs| - 1]));
    }
  }

  /** The sort returns its input reordered. */
  lemma {:induction false} SortDescPermutes(xs: seq<Correlation>)
    ensures multiset(SortDesc(xs)) == multiset(xs)
  {
    if xs != [] {
      var init := xs[..|xs| - 1];
      SortDescPermutes(init);
      InsertPermutes(xs[|xs| - 1], SortDesc(init));
      assert xs == init + [xs[|xs| - 1]];
    }
  }

  /** Elements with equal coefficients keep their order through the sort. */
  lemma {:induction false} SortDescStable(xs: seq<Correlation>, v: real)
    ensures WithCoef(SortDesc(xs), v) == WithCoef(xs, v)
  {
    if xs != [] {
      var init := xs[..|xs| - 1];
      var last := xs[|xs| - 1];
      SortDescStable(init, v);
      SortDescSorted(init);
      InsertStable(last, SortDesc(init), v);
      WithCoefAppend(init, [last], v);
      assert xs == init + [last];
    }
  }

  // ---------------------------------------------------------------------
  // The screen
  // ---------------------------------------------------------------------

  /** `c` is the tuple of a lower-triangle pair above the threshold. */
  predicate Reported(names: seq<string>, corr: seq<seq<Option<real>>>, threshold: real, c: Correlation)
    requires IsGrid(corr, |names|)
  {
    exists i, j :: 0 <= j < i < |names| && Above(corr[i][j], threshold)
      && c == Correlation(names[i], names[j], corr[i][j].value)
  }

  lemma PairsInRangeOf(names: seq<string>, corr: seq<seq<Option<real>>>, threshold: real)
    requires IsGrid(corr, |names|)
    ensures PairsInRange(names, corr, Pairs(corr, threshold, |names|))
  {
    var pairs := Pairs(corr, threshold, |names|);
    PairsSpec(corr, threshold, |names|);
    forall p | 0 <= p < |pairs|
      ensures pairs[p].1 < pairs[p].0 < |names| && corr[pairs[p].0][pairs[p].1].Some?
    {
      assert pairs[p] in pairs;
    }
  }

  /** The scan reports exactly the tuples of the lower-triangle pairs
      above the threshold. */
  lemma ScanReportsExactly(names: seq<string>, corr: seq<seq<Option<real>>>, threshold: real)
    requires IsGrid(corr, |names|)
    ensures PairsInRange(names, corr, Pairs(corr, threshold, |names|))
    ensures forall c :: c in Report(names, corr, Pairs(corr, threshold, |names|)) <==> Reported(names, corr, threshold, c)
  {
    PairsInRangeOf(names, corr, threshold);
    PairsSpec(corr, threshold, |names|);
    var pairs := Pairs(corr, threshold, |names|);
    var found := Report(names, corr, pairs);
    ReportEntries(names, corr, pairs);
    forall c
      ensures c in found <==> Reported(names, corr, threshold, c)
    {
      if c in found {
        var p :| 0 <= p < |found| && found[p] == c;
        assert pairs[p] in pairs;
      }
      if Reported(names, corr, threshold, c) {
        var i, j :| 0 <= j < i < |names| && Above(corr[i][j], threshold)
          && c == Correlation(names[i], names[j], corr[i][j].value);
        assert Hit(corr, threshold, |names|, (i, j));
        var p :| 0 <= p < |pairs| && pairs[p] == (i, j);
        assert found[p] == c;
      }
    }
  }

  /** `analizar_multicolinealidad_para_VAR`: the lower-triangle pairs whose
      absolute correlation is strictly above the threshold, scanned row by
      row, then sorted by coefficient from largest to smallest, ties in
      scan order. */
  method HighCorrelations(names: seq<string>, corr: seq<seq<Option<real>>>, threshold: real)
    returns (high: seq<Correlation>)
    requires IsGrid(corr, |names|)
    ensures PairsInRange(names, corr, Pairs(corr, threshold, |names|))
    ensures high == SortDesc(Report(names, corr, Pairs(corr, threshold, |names|)))
    ensures SortedDesc(high)
    ensures forall c :: c in high <==> Reported(names, corr, threshold, c)
  {
    var found := Scan(names, corr, threshold);
    high := SortDesc(found);
    SortedReportSpec(names, corr, threshold);
  }

  /** The nested loop over the strict lower triangle. */
  method Scan(names: seq<string>, corr: seq<seq<Option<real>>>, threshold: real)
    returns (found: seq<Correlation>)
    requires IsGrid(corr, |names|)
    ensures PairsInRange(names, corr, Pairs(corr, threshold, |names|))
    ensures found == Report(names, corr, Pairs(corr, threshold, |names|))
  {
    found := [];
    ghost var pairs: seq<(nat, nat)> := [];
    for i := 0 to |names|
      invariant pairs == Pairs(corr, threshold, i)
      invariant PairsInRange(names, corr, pairs)
      invariant found == Report(names, corr, pairs)
    {
      found := ScanRow(names, corr, threshold, i, found);
      pairs := Pairs(corr, threshold, i + 1);
    }
  }

  /** The inner loop: row i, columns 0..i-1. */
  method ScanRow(names: seq<string>, corr: seq<seq<Option<real>>>, threshold: real, i: nat, found0: seq<Correlation>)
    returns (found: seq<Correlation>)
    requires IsGrid(corr, |names|) && i < |names|
    requires PairsInRange(names, corr, Pairs(corr, threshold, i))
    requires found0 == Report(names, corr, Pairs(corr, threshold, i))
    ensures PairsInRange(names, corr, Pairs(corr, threshold, i + 1))
    ensures found == Report(names, corr, Pairs(corr, threshold, i + 1))
  {
    found := found0;
    ghost var pairs0 := Pairs(corr, threshold, i);
    ghost var pairs := pairs0;
    ReportEntries(names, corr, pairs0);
    for j: nat := 0 to i
      invariant pairs == pairs0 + RowPairs(corr, threshold, i, j)
      invariant PairsInRange(names, corr, pairs)
      invariant Reports(names, corr, pairs, found)
    {
      var entry := corr[i][j];
      if entry.Some? && entry.value > threshold {
        RowStepHit(corr, threshold, pairs0, i, j);
        found := found + [Correlation(names[i], names[j], entry.value)];
        pairs := pairs + [(i, j)];
      } else {
        assert RowPairs(corr, threshold, i, j + 1) == RowPairs(corr, threshold, i, j);
      }
    }
    assert Pairs(corr, threshold, i + 1) == pairs;
    ReportsIsReport(names, corr, pairs, found);
  }

  /** `found` holds, position by position, the tuple of each pair. */
  predicate Reports(names: seq<string>, corr: seq<seq<Option<real>>>, pairs: seq<(nat, nat)>, found: seq<Correlation>)
    requires IsGrid(corr, |names|) && PairsInRange(names, corr, pairs)
  {
    |found| == |pairs| &&
    forall p :: 0 <= p < |pairs| ==>
      found[p] == Correlation(names[pairs[p].0], names[pairs[p].1], corr[pairs[p].0][pairs[p].1].value)
  }

  /** The position-by-position description determines the report. */
  lemma ReportsIsReport(names: seq<string>, corr: seq<seq<Option<real>>>, pairs: seq<(nat, nat)>, found: seq<Correlation>)
    requires IsGrid(corr, |names|) && PairsInRange(names, corr, pairs)
    requires Reports(names, corr, pairs, found)
    ensures found == Report(names, corr, pairs)
  {
    ReportEntries(names, corr, pairs);
  }

  /** One hit of the inner loop extends the row by (i, j). */
  lemma RowStepHit(corr: seq<seq<Option<real>>>, threshold: real, pairs0: seq<(nat, nat)>, i: nat, j: nat)
    requires IsGrid(corr, |corr|) && j < i < |corr|
    requires Above(corr[i][j], threshold)
    ensures pairs0 + RowPairs(corr, threshold, i, j + 1) == pairs0 + RowPairs(corr, threshold, i, j) + [(i, j)]
  {
  }

  /** The sorted report is ordered by coefficient and holds exactly the
      tuples of the lower-triangle pairs above the threshold. */
  lemma SortedReportSpec(names: seq<string>, corr: seq<seq<Option<real>>>, threshold: real)
    requires IsGrid(corr, |names|)
    ensures PairsInRange(names, corr, Pairs(corr, threshold, |names|))
    ensures SortedDesc(SortDesc(Report(names, corr, Pairs(corr, threshold, |names|))))
    ensures forall c :: c in SortDesc(Report(names, corr, Pairs(corr, threshold, |names|))) <==>
      Reported(names, corr, threshold, c)
  {
    ScanReportsExactly(names, corr, threshold);
    var found := Report(names, corr, Pairs(corr, threshold, |names|));
    var high := SortDesc(found);
    SortDescSorted(found);
    SortDescPermutes(found);
    forall c | c in high
      ensures c in found
    {
      assert c in multiset(high);
    }
    forall c | c in found
      ensures c in high
    {
      assert c in multiset(found);
    }
  }

  /** Every pair lies in the strict lower triangle on a non-NaN entry. */
  predicate PairsInRange(names: seq<string>, corr: seq<seq<Option<real>>>, pairs: seq<(nat, nat)>)
    requires IsGrid(corr, |names|)
  {
    forall p :: 0 <= p < |pairs| ==> pairs[p].1 < pairs[p].0 < |names| && corr[pairs[p].0][pairs[p].1].Some?
  }
}
