/** Cholesky-orthogonalised forecast-error variance decomposition
    (`calcular_FEVD_cholesky`, code/05_irf_fevd_analysis.py).

    The fitted model's moving-average matrices psi[0..] and the lower
    Cholesky factor P of the residual covariance are inputs: the model fit,
    `irf` and `np.linalg.cholesky` are library numerics. Everything after
    them -- the accumulation of squared orthogonalised responses, the
    per-variable normalisation with its uniform fallback, the identity
    convention at step 0 and the flattening into named columns -- is modelled
    here over exact reals. */
module Fevd {
  import opened Common
  import opened ColumnTable

  // ---------------------------------------------------------------------
  // Specification
  // ---------------------------------------------------------------------

  /** Entry j of row `a` times matrix `b`, summed over the first k terms. */
  function Dot(a: seq<real>, b: Matrix, j: nat, k: nat): real
    requires k <= |a| && k <= |b|
    requires forall m :: 0 <= m < k ==> j < |b[m]|
  {
    if k == 0 then 0.0 else Dot(a, b, j, k - 1) + a[k - 1] * b[k - 1][j]
  }

  /** numpy's `a @ b` for two n-by-n matrices. */
  function MatMul(a: Matrix, b: Matrix, n: nat): (c: Matrix)
    requires IsGrid(a, n) && IsGrid(b, n)
    ensures IsGrid(c, n)
    ensures forall i, j :: 0 <= i < n && 0 <= j < n ==> c[i][j] == Dot(a[i], b, j, n)
  {
    seq(n, i requires 0 <= i < n => seq(n, j requires 0 <= j < n => Dot(a[i], b, j, n)))
  }

  /** The inputs: every psi[s] and the Cholesky factor are n-by-n. */
  predicate WellFormed(psi: seq<Matrix>, chol: Matrix, n: nat)
  {
    IsGrid(chol, n) && forall s :: 0 <= s < |psi| ==> IsGrid(psi[s], n)
  }

  /** The orthogonalised response matrix theta_s = psi[s] @ P. */
  function Theta(psi: seq<Matrix>, chol: Matrix, n: nat, s: nat): (t: Matrix)
    requires WellFormed(psi, chol, n) && s < |psi|
    ensures IsGrid(t, n)
  {
    MatMul(psi[s], chol, n)
  }

  /** Unnormalised contribution of cause j to affected variable i over the
      first k response matrices: the sum over s < k of theta_s[i][j]^2. */
  function Contribution(psi: seq<Matrix>, chol: Matrix, n: nat, k: nat, i: nat, j: nat): (c: real)
    requires WellFormed(psi, chol, n) && k <= |psi| && i < n && j < n
    ensures c >= 0.0
  {
    if k == 0 then 0.0
    else Contribution(psi, chol, n, k - 1, i, j) + Sq(Theta(psi, chol, n, k - 1)[i][j])
  }

  /** Sum of the contributions of causes 0..m-1 to affected variable i. */
  function CauseSum(psi: seq<Matrix>, chol: Matrix, n: nat, k: nat, i: nat, m: nat): (t: real)
    requires WellFormed(psi, chol, n) && k <= |psi| && i < n && m <= n
    ensures t >= 0.0
  {
    if m == 0 then 0.0
    else CauseSum(psi, chol, n, k, i, m - 1) + Contribution(psi, chol, n, k, i, m - 1)
  }

  /** Sum of the squares of theta[i][0..m-1]. */
  function RowSq(theta: Matrix, i: nat, m: nat): real
    requires i < |theta| && m <= |theta[i]|
  {
    if m == 0 then 0.0 else RowSq(theta, i, m - 1) + Sq(theta[i][m - 1])
  }

  /** `suma_total[i]` after the first k response matrices, in the order the
      source accumulates it: response by response, cause by cause. */
  function RunningTotal(psi: seq<Matrix>, chol: Matrix, n: nat, k: nat, i: nat): real
    requires WellFormed(psi, chol, n) && k <= |psi| && i < n
  {
    if k == 0 then 0.0
    else RunningTotal(psi, chol, n, k - 1, i) + RowSq(Theta(psi, chol, n, k - 1), i, n)
  }

  /** The share of cause j in the forecast-error variance of affected
      variable i at step h. Step 0 is the identity by convention; from
      step 1 on, contributions over s = 0..h are divided by their total,
      and a zero total gives every cause 1/n. */
  function Share(psi: seq<Matrix>, chol: Matrix, n: nat, h: nat, i: nat, j: nat): real
    requires WellFormed(psi, chol, n) && h < |psi| && i < n && j < n
  {
    if h == 0 then (if i == j then 1.0 else 0.0)
    else
      var total := CauseSum(psi, chol, n, h + 1, i, n);
      if total == 0.0 then 1.0 / (n as real)
      else Contribution(psi, chol, n, h + 1, i, j) / total
  }

  /** The shares of causes 0..m-1 in affected variable i at step h, added up. */
  function ShareSum(psi: seq<Matrix>, chol: Matrix, n: nat, h: nat, i: nat, m: nat): real
    requires WellFormed(psi, chol, n) && h < |psi| && i < n && m <= n
  {
    if m == 0 then 0.0 else ShareSum(psi, chol, n, h, i, m - 1) + Share(psi, chol, n, h, i, m - 1)
  }

  // ---------------------------------------------------------------------
  // Properties of the specification
  // ---------------------------------------------------------------------

  lemma {:induction false} CauseSumStep(psi: seq<Matrix>, chol: Matrix, n: nat, k: nat, i: nat, m: nat)
    requires WellFormed(psi, chol, n) && k < |psi| && i < n && m <= n
    ensures CauseSum(psi, chol, n, k + 1, i, m)
         == CauseSum(psi, chol, n, k, i, m) + RowSq(Theta(psi, chol, n, k), i, m)
  {
    if m > 0 {
      CauseSumStep(psi, chol, n, k, i, m - 1);
    }
  }

  /** The total the source divides by, accumulated response by response,
      equals the sum of the per-cause contributions. */
  lemma {:induction false} RunningTotalIsCauseSum(psi: seq<Matrix>, chol: Matrix, n: nat, k: nat, i: nat)
    requires WellFormed(psi, chol, n) && k <= |psi| && i < n
    ensures RunningTotal(psi, chol, n, k, i) == CauseSum(psi, chol, n, k, i, n)
  {
    if k == 0 {
      ZeroCauseSum(psi, chol, n, i, n);
    } else {
      RunningTotalIsCauseSum(psi, chol, n, k - 1, i);
      CauseSumStep(psi, chol, n, k - 1, i, n);
    }
  }

  lemma {:induction false} ZeroCauseSum(psi: seq<Matrix>, chol: Matrix, n: nat, i: nat, m: nat)
    requires WellFormed(psi, chol, n) && i < n && m <= n
    ensures CauseSum(psi, chol, n, 0, i, m) == 0.0
  {
    if m > 0 {
      ZeroCauseSum(psi, chol, n, i, m - 1);
    }
  }

  lemma {:induction false} ContributionAtMostCauseSum(psi: seq<Matrix>, chol: Matrix, n: nat, k: nat, i: nat, j: nat, m: nat)
    requires WellFormed(psi, chol, n) && k <= |psi| && i < n && j < m <= n
    ensures Contribution(psi, chol, n, k, i, j) <= CauseSum(psi, chol, n, k, i, m)
  {
    if j < m - 1 {
      ContributionAtMostCauseSum(psi, chol, n, k, i, j, m - 1);
    }
  }

  /** Every share lies in [0, 1]: a square over the sum of squares it is
      part of, the uniform 1/n, or an entry of the identity. */
  lemma ShareInUnitInterval(psi: seq<Matrix>, chol: Matrix, n: nat, h: nat, i: nat, j: nat)
    requires WellFormed(psi, chol, n) && h < |psi| && i < n && j < n
    ensures 0.0 <= Share(psi, chol, n, h, i, j) <= 1.0
  {
    if h > 0 {
      var total := CauseSum(psi, chol, n, h + 1, i, n);
      var c := Contribution(psi, chol, n, h + 1, i, j);
      if total != 0.0 {
        ContributionAtMostCauseSum(psi, chol, n, h + 1, i, j, n);
        DivAtMostOne(c, total);
      } else {
        assert 1.0 <= n as real;
      }
    }
  }

  lemma {:induction false} IdentityShareSum(psi: seq<Matrix>, chol: Matrix, n: nat, i: nat, m: nat)
    requires WellFormed(psi, chol, n) && 0 < |psi| && i < n && m <= n
    ensures ShareSum(psi, chol, n, 0, i, m) == if i < m then 1.0 else 0.0
  {
    if m > 0 {
      IdentityShareSum(psi, chol, n, i, m - 1);
    }
  }

  lemma {:induction false} UniformShareSum(psi: seq<Matrix>, chol: Matrix, n: nat, h: nat, i: nat, m: nat)
    requires WellFormed(psi, chol, n) && 0 < h < |psi| && i < n && m <= n
    requires CauseSum(psi, chol, n, h + 1, i, n) == 0.0
    ensures ShareSum(psi, chol, n, h, i, m) == (m as real) * (1.0 / (n as real))
  {
    if m > 0 {
      UniformShareSum(psi, chol, n, h, i, m - 1);
    }
  }

  lemma {:induction false} ProportionalShareSum(psi: seq<Matrix>, chol: Matrix, n: nat, h: nat, i: nat, m: nat)
    requires WellFormed(psi, chol, n) && 0 < h < |psi| && i < n && m <= n
    requires CauseSum(psi, chol, n, h + 1, i, n) != 0.0
    ensures ShareSum(psi, chol, n, h, i, m)
         == CauseSum(psi, chol, n, h + 1, i, m) / CauseSum(psi, chol, n, h + 1, i, n)
  {
    if m > 0 {
      ProportionalShareSum(psi, chol, n, h, i, m - 1);
      var total := CauseSum(psi, chol, n, h + 1, i, n);
      var a := CauseSum(psi, chol, n, h + 1, i, m - 1);
      var b := Contribution(psi, chol, n, h + 1, i, m - 1);
      DivAdd(a, b, total);
    }
  }

  /** At every step the shares of an affected variable over all causes add
      up to exactly 1: the identity row at step 0, the uniform fallback when
      the total is zero, and the normalised contributions otherwise. */
  lemma SharesSumToOne(psi: seq<Matrix>, chol: Matrix, n: nat, h: nat, i: nat)
    requires WellFormed(psi, chol, n) && h < |psi| && i < n
    ensures ShareSum(psi, chol, n, h, i, n) == 1.0
  {
    if h == 0 {
      IdentityShareSum(psi, chol, n, i, n);
    } else if CauseSum(psi, chol, n, h + 1, i, n) == 0.0 {
      UniformShareSum(psi, chol, n, h, i, n);
      assert n as real >= 1.0;
      MulInverse(n as real);
    } else {
      ProportionalShareSum(psi, chol, n, h, i, n);
      MulInverse(CauseSum(psi, chol, n, h + 1, i, n));
    }
  }

  lemma {:induction false} ContributionZero(psi: seq<Matrix>, chol: Matrix, n: nat, k: nat, i: nat, j: nat)
    requires WellFormed(psi, chol, n) && k <= |psi| && i < n && j < n
    ensures Contribution(psi, chol, n, k, i, j) == 0.0
        <==> forall s :: 0 <= s < k ==> Theta(psi, chol, n, s)[i][j] == 0.0
  {
    if k > 0 {
      ContributionZero(psi, chol, n, k - 1, i, j);
      var last := Theta(psi, chol, n, k - 1)[i][j];
      if last != 0.0 {
        SqPositive(last);
      }
    }
  }

  lemma {:induction false} CauseSumZero(psi: seq<Matrix>, chol: Matrix, n: nat, k: nat, i: nat, m: nat)
    requires WellFormed(psi, chol, n) && k <= |psi| && i < n && m <= n
    ensures CauseSum(psi, chol, n, k, i, m) == 0.0
        <==> forall j :: 0 <= j < m ==> Contribution(psi, chol, n, k, i, j) == 0.0
  {
    if m > 0 {
      CauseSumZero(psi, chol, n, k, i, m - 1);
      var before := CauseSum(psi, chol, n, k, i, m - 1);
      var last := Contribution(psi, chol, n, k, i, m - 1);
      assert CauseSum(psi, chol, n, k, i, m) == before + last;
      if before + last == 0.0 {
        assert before == 0.0 && last == 0.0;
        forall j | 0 <= j < m
          ensures Contribution(psi, chol, n, k, i, j) == 0.0
        {
        }
      } else if before != 0.0 {
        var j :| 0 <= j < m - 1 && Contribution(psi, chol, n, k, i, j) != 0.0;
        assert !(forall j :: 0 <= j < m ==> Contribution(psi, chol, n, k, i, j) == 0.0);
      } else {
        assert Contribution(psi, chol, n, k, i, m - 1) != 0.0;
        assert CauseSum(psi, chol, n, k, i, m) != 0.0;
      }
    }
  }

  /** The uniform fallback applies exactly when every orthogonalised
      response of the affected variable up to step h is zero. */
  lemma ZeroTotalIffNoResponse(psi: seq<Matrix>, chol: Matrix, n: nat, h: nat, i: nat)
    requires WellFormed(psi, chol, n) && h < |psi| && i < n
    ensures CauseSum(psi, chol, n, h + 1, i, n) == 0.0
        <==> forall s, j :: 0 <= s <= h && 0 <= j < n ==> Theta(psi, chol, n, s)[i][j] == 0.0
  {
    var k := h + 1;
    CauseSumZero(psi, chol, n, k, i, n);
    forall j | 0 <= j < n
      ensures Contribution(psi, chol, n, k, i, j) == 0.0
          <==> forall s :: 0 <= s < k ==> Theta(psi, chol, n, s)[i][j] == 0.0
    {
      ContributionZero(psi, chol, n, k, i, j);
    }
    if CauseSum(psi, chol, n, k, i, n) == 0.0 {
      forall s, j | 0 <= s <= h && 0 <= j < n
        ensures Theta(psi, chol, n, s)[i][j] == 0.0
      {
        assert Contribution(psi, chol, n, k, i, j) == 0.0;
      }
    } else {
      var j :| 0 <= j < n && Contribution(psi, chol, n, k, i, j) != 0.0;
      var s :| 0 <= s < k && Theta(psi, chol, n, s)[i][j] != 0.0;
    }
  }

  lemma {:induction false} CauseSumOfOwnOnly(psi: seq<Matrix>, chol: Matrix, n: nat, k: nat, i: nat, m: nat)
    requires WellFormed(psi, chol, n) && k <= |psi| && i < n && m <= n
    requires forall j :: 0 <= j < n && j != i ==> Contribution(psi, chol, n, k, i, j) == 0.0
    ensures CauseSum(psi, chol, n, k, i, m) == if i < m then Contribution(psi, chol, n, k, i, i) else 0.0
  {
    if m > 0 {
      CauseSumOfOwnOnly(psi, chol, n, k, i, m - 1);
    }
  }

  /** When no other shock moves affected variable i up to step h (the
      off-diagonal responses in its row are zero) and its own response is
      not identically zero, its whole forecast-error variance is its own:
      share 1 for itself and 0 for every other cause. */
  lemma OwnShocksOnlyGiveUnitShare(psi: seq<Matrix>, chol: Matrix, n: nat, h: nat, i: nat, j: nat)
    requires WellFormed(psi, chol, n) && 0 < h < |psi| && i < n && j < n
    requires forall s, c :: 0 <= s <= h && 0 <= c < n && c != i ==> Theta(psi, chol, n, s)[i][c] == 0.0
    requires exists s :: 0 <= s <= h && Theta(psi, chol, n, s)[i][i] != 0.0
    ensures Share(psi, chol, n, h, i, j) == if i == j then 1.0 else 0.0
  {
    var k := h + 1;
    forall c | 0 <= c < n && c != i
      ensures Contribution(psi, chol, n, k, i, c) == 0.0
    {
      ContributionZero(psi, chol, n, k, i, c);
    }
    var own := Contribution(psi, chol, n, k, i, i);
    ContributionZero(psi, chol, n, k, i, i);
    assert own != 0.0;
    CauseSumOfOwnOnly(psi, chol, n, k, i, n);
    assert CauseSum(psi, chol, n, k, i, n) == own;
    if i == j {
      MulInverse(own);
    } else {
      assert Contribution(psi, chol, n, h + 1, i, j) == 0.0;
    }
  }

  lemma {:induction false} ContributionFromPrefix(psi1: seq<Matrix>, psi2: seq<Matrix>, chol: Matrix, n: nat, k: nat, i: nat, j: nat)
    requires WellFormed(psi1, chol, n) && WellFormed(psi2, chol, n)
    requires k <= |psi1| && k <= |psi2| && psi1[..k] == psi2[..k] && i < n && j < n
    ensures Contribution(psi1, chol, n, k, i, j) == Contribution(psi2, chol, n, k, i, j)
  {
    if k > 0 {
      assert psi1[k - 1] == psi1[..k][k - 1];
      assert psi1[..k - 1] == psi1[..k][..k - 1];
      assert psi2[..k - 1] == psi2[..k][..k - 1];
      ContributionFromPrefix(psi1, psi2, chol, n, k - 1, i, j);
    }
  }

  lemma {:induction false} CauseSumFromPrefix(psi1: seq<Matrix>, psi2: seq<Matrix>, chol: Matrix, n: nat, k: nat, i: nat, m: nat)
    requires WellFormed(psi1, chol, n) && WellFormed(psi2, chol, n)
    requires k <= |psi1| && k <= |psi2| && psi1[..k] == psi2[..k] && i < n && m <= n
    ensures CauseSum(psi1, chol, n, k, i, m) == CauseSum(psi2, chol, n, k, i, m)
  {
    if m > 0 {
      CauseSumFromPrefix(psi1, psi2, chol, n, k, i, m - 1);
      ContributionFromPrefix(psi1, psi2, chol, n, k, i, m - 1);
    }
  }

  /** Each slice is computed afresh from psi[0..h] and P alone: two inputs
      that agree on those matrices give the same shares at step h, whatever
      the later matrices and the earlier slices are. */
  lemma ShareDependsOnlyOnPrefix(psi1: seq<Matrix>, psi2: seq<Matrix>, chol: Matrix, n: nat, h: nat, i: nat, j: nat)
    requires WellFormed(psi1, chol, n) && WellFormed(psi2, chol, n)
    requires h < |psi1| && h < |psi2| && psi1[..h + 1] == psi2[..h + 1] && i < n && j < n
    ensures Share(psi1, chol, n, h, i, j) == Share(psi2, chol, n, h, i, j)
  {
    if h > 0 {
      CauseSumFromPrefix(psi1, psi2, chol, n, h + 1, i, n);
      ContributionFromPrefix(psi1, psi2, chol, n, h + 1, i, j);
    }
  }

  // ---------------------------------------------------------------------
  // The accumulator, in place on a steps x n x n array
  // ---------------------------------------------------------------------

  /** One cell of the inner loop for affected variable i: for every cause j,
      `fevd[h, j, i] += theta[i, j] ** 2` and `suma_total[i] += theta[i, j] ** 2`. */
  method AccumulateRow(fevd: array3<real>, total: array<real>, h: nat, theta: Matrix, n: nat, i: nat)
    requires IsGrid(theta, n) && i < n
    requires h < fevd.Length0 && fevd.Length1 == n && fevd.Length2 == n && total.Length == n
    modifies fevd, total
    ensures forall g, j, a :: 0 <= g < fevd.Length0 && 0 <= j < n && 0 <= a < n ==>
      fevd[g, j, a] == if g == h && a == i then old(fevd[g, j, a]) + Sq(theta[a][j]) else old(fevd[g, j, a])
    ensures forall a :: 0 <= a < n ==>
      total[a] == if a == i then old(total[a]) + RowSq(theta, a, n) else old(total[a])
  {
    for j := 0 to n
      invariant forall g, c, a :: 0 <= g < fevd.Length0 && 0 <= c < n && 0 <= a < n ==>
        fevd[g, c, a] == if g == h && a == i && c < j then old(fevd[g, c, a]) + Sq(theta[a][c]) else old(fevd[g, c, a])
      invariant forall a :: 0 <= a < n ==>
        total[a] == if a == i then old(total[a]) + RowSq(theta, a, j) else old(total[a])
    {
      fevd[h, j, i] := fevd[h, j, i] + Sq(theta[i][j]);
      total[i] := total[i] + Sq(theta[i][j]);
    }
  }

  /** One pass of the loop over s: adds the squares of theta = psi[s] @ P
      into slice h and into the running totals. */
  method AccumulateTerm(fevd: array3<real>, total: array<real>, h: nat, theta: Matrix, n: nat)
    requires IsGrid(theta, n)
    requires h < fevd.Length0 && fevd.Length1 == n && fevd.Length2 == n && total.Length == n
    modifies fevd, total
    ensures forall g, j, a :: 0 <= g < fevd.Length0 && 0 <= j < n && 0 <= a < n ==>
      fevd[g, j, a] == if g == h then old(fevd[g, j, a]) + Sq(theta[a][j]) else old(fevd[g, j, a])
    ensures forall a :: 0 <= a < n ==> total[a] == old(total[a]) + RowSq(theta, a, n)
  {
    for i := 0 to n
      invariant forall g, j, a :: 0 <= g < fevd.Length0 && 0 <= j < n && 0 <= a < n ==>
        fevd[g, j, a] == if g == h && a < i then old(fevd[g, j, a]) + Sq(theta[a][j]) else old(fevd[g, j, a])
      invariant forall a :: 0 <= a < n ==>
        total[a] == if a < i then old(total[a]) + RowSq(theta, a, n) else old(total[a])
    {
      AccumulateRow(fevd, total, h, theta, n, i);
    }
  }

  /** Normalisation of slice h: an affected variable whose total is zero
      gets 1/n for every cause, any other is divided by its total. */
  method NormaliseSlice(fevd: array3<real>, total: array<real>, h: nat, n: nat)
    requires h < fevd.Length0 && fevd.Length1 == n && fevd.Length2 == n && total.Length == n
    modifies fevd
    ensures forall g, j, a :: 0 <= g < fevd.Length0 && 0 <= j < n && 0 <= a < n ==>
      fevd[g, j, a] == if g != h then old(fevd[g, j, a])
                       else if total[a] == 0.0 then 1.0 / (n as real)
                       else old(fevd[g, j, a]) / total[a]
  {
    for i := 0 to n
      invariant forall g, j, a :: 0 <= g < fevd.Length0 && 0 <= j < n && 0 <= a < n ==>
        fevd[g, j, a] == if g != h || a >= i then old(fevd[g, j, a])
                         else if total[a] == 0.0 then 1.0 / (n as real)
                         else old(fevd[g, j, a]) / total[a]
    {
      for j := 0 to n
        invariant forall g, c, a :: 0 <= g < fevd.Length0 && 0 <= c < n && 0 <= a < n ==>
          fevd[g, c, a] == if g != h || a > i || (a == i && c >= j) then old(fevd[g, c, a])
                           else if total[a] == 0.0 then 1.0 / (n as real)
                           else old(fevd[g, c, a]) / total[a]
      {
        if total[i] == 0.0 {
          fevd[h, j, i] := 1.0 / (n as real);
        } else {
          fevd[h, j, i] := fevd[h, j, i] / total[i];
        }
      }
    }
  }

  /** Step 0: `fevd[0, j, i] = 1.0 if i == j else 0.0`. */
  method SetIdentitySlice(fevd: array3<real>, n: nat)
    requires 0 < fevd.Length0 && fevd.Length1 == n && fevd.Length2 == n
    modifies fevd
    ensures forall g, j, a :: 0 <= g < fevd.Length0 && 0 <= j < n && 0 <= a < n ==>
      fevd[g, j, a] == if g == 0 then (if a == j then 1.0 else 0.0) else old(fevd[g, j, a])
  {
    for i := 0 to n
      invariant forall g, j, a :: 0 <= g < fevd.Length0 && 0 <= j < n && 0 <= a < n ==>
        fevd[g, j, a] == if g == 0 && a < i then (if a == j then 1.0 else 0.0) else old(fevd[g, j, a])
    {
      for j := 0 to n
        invariant forall g, c, a :: 0 <= g < fevd.Length0 && 0 <= c < n && 0 <= a < n ==>
          fevd[g, c, a] == if g == 0 && (a < i || (a == i && c < j)) then (if a == c then 1.0 else 0.0)
                           else old(fevd[g, c, a])
      {
        fevd[0, j, i] := if i == j then 1.0 else 0.0;
      }
    }
  }

  /** Slice h >= 1: the squares of psi[s] @ P for s = 0..h accumulated
      into the zeroed slice and the totals, then normalised. */
  method FillSlice(psi: seq<Matrix>, chol: Matrix, n: nat, fevd: array3<real>, h: nat)
    requires WellFormed(psi, chol, n) && 0 < h < |psi|
    requires h < fevd.Length0 && fevd.Length1 == n && fevd.Length2 == n
    requires forall j, i :: 0 <= j < n && 0 <= i < n ==> fevd[h, j, i] == 0.0
    modifies fevd
    ensures forall g, j, i :: 0 <= g < fevd.Length0 && 0 <= j < n && 0 <= i < n ==>
      fevd[g, j, i] == if g == h then Share(psi, chol, n, h, i, j) else old(fevd[g, j, i])
  {
    var total := new real[n](_ => 0.0);
    for s := 0 to h + 1
      invariant forall g, j, i :: 0 <= g < fevd.Length0 && 0 <= j < n && 0 <= i < n ==>
        fevd[g, j, i] == if g == h then Contribution(psi, chol, n, s, i, j) else old(fevd[g, j, i])
      invariant forall i :: 0 <= i < n ==> total[i] == RunningTotal(psi, chol, n, s, i)
    {
      var theta := MatMul(psi[s], chol, n);
      AccumulateTerm(fevd, total, h, theta, n);
    }
    forall i | 0 <= i < n
      ensures total[i] == CauseSum(psi, chol, n, h + 1, i, n)
    {
      RunningTotalIsCauseSum(psi, chol, n, h + 1, i);
    }
    NormaliseSlice(fevd, total, h, n);
  }

  /** The zero-initialised `fevd` array of shape (steps, n, n), indexed
      [step, cause, affected], filled step by step. */
  method ShareArray(psi: seq<Matrix>, chol: Matrix, n: nat, steps: nat) returns (fevd: array3<real>)
    requires WellFormed(psi, chol, n) && steps <= |psi|
    ensures fresh(fevd)
    ensures fevd.Length0 == steps && fevd.Length1 == n && fevd.Length2 == n
    ensures forall h, j, i :: 0 <= h < steps && 0 <= j < n && 0 <= i < n ==>
      fevd[h, j, i] == Share(psi, chol, n, h, i, j)
    ensures forall j, i :: 0 < steps && 0 <= j < n && 0 <= i < n ==>
      fevd[0, j, i] == if i == j then 1.0 else 0.0
  {
    fevd := new real[steps, n, n]((_, _, _) => 0.0);
    for h := 0 to steps
      invariant forall g, j, i :: 0 <= g < h && 0 <= j < n && 0 <= i < n ==>
        fevd[g, j, i] == Share(psi, chol, n, g, i, j)
      invariant forall g, j, i :: h <= g < steps && 0 <= j < n && 0 <= i < n ==> fevd[g, j, i] == 0.0
    {
      if h == 0 {
        SetIdentitySlice(fevd, n);
      } else {
        FillSlice(psi, chol, n, fevd, h);
      }
    }
  }

  // ---------------------------------------------------------------------
  // Flattening into named columns
  // ---------------------------------------------------------------------

  /** The key of the column for (affected, cause). */
  function ColumnName(affected: string, cause: string): string
  {
    affected + "_caused_by_" + cause
  }

  /** Entry [i][j] is the key of the column for affected i and cause j. */
  function ColumnNames(names: seq<string>): (keys: seq<seq<string>>)
    ensures IsGrid(keys, |names|)
    ensures forall i, j :: 0 <= i < |names| && 0 <= j < |names| ==> keys[i][j] == ColumnName(names[i], names[j])
  {
    seq(|names|, i requires 0 <= i < |names| =>
      seq(|names|, j requires 0 <= j < |names| => ColumnName(names[i], names[j])))
  }

  /** Entry [i][j] holds the shares of cause j in affected variable i at
      steps 0..steps-1, that is `fevd[:, j, i]`. */
  function ShareColumns(psi: seq<Matrix>, chol: Matrix, n: nat, steps: nat): (cols: seq<seq<seq<real>>>)
    requires WellFormed(psi, chol, n) && steps <= |psi|
    ensures Shaped(cols, n, steps)
    ensures forall i, j, h :: 0 <= i < n && 0 <= j < n && 0 <= h < steps ==>
      cols[i][j][h] == Share(psi, chol, n, h, i, j)
  {
    seq(n, i requires 0 <= i < n =>
      seq(n, j requires 0 <= j < n =>
        seq(steps, h requires 0 <= h < steps => Share(psi, chol, n, h, i, j))))
  }

  /** Two distinct variables whose generated column names collide: the
      column of ("a", "a_caused_by_a") is overwritten by the one of
      ("a_caused_by_a", "a"). */
  lemma CollidingColumnNames()
    ensures var keys := ColumnNames(["a", "a_caused_by_a"]);
      !DistinctGrid(keys)
  {
    var keys := ColumnNames(["a", "a_caused_by_a"]);
    assert keys[0][1] == "a_caused_by_a_caused_by_a" == keys[1][0];
  }

  /** `calcular_FEVD_cholesky`: the share array, flattened into one column
      per (affected, cause) pair, affected outer and cause inner, each
      column holding the shares at steps 0..steps-1. */
  method CalculateFevd(psi: seq<Matrix>, chol: Matrix, names: seq<string>, steps: nat) returns (table: Table<string>)
    requires WellFormed(psi, chol, |names|) && steps <= |psi|
    ensures table == PutRows(ColumnNames(names), ShareColumns(psi, chol, |names|, steps), steps, |names|)
  {
    var n := |names|;
    var fevd := ShareArray(psi, chol, n, steps);
    ghost var keys := ColumnNames(names);
    ghost var cols := ShareColumns(psi, chol, n, steps);
    ArrayHoldsShareColumns(fevd, psi, chol, n, steps, cols);
    table := Flatten(fevd, names, keys, cols, steps);
  }

  /** The nested loop over affected variables and causes that turns the
      share array into the dict of named columns. */
  method Flatten(fevd: array3<real>, names: seq<string>, ghost keys: seq<seq<string>>,
                 ghost cols: seq<seq<seq<real>>>, steps: nat)
    returns (table: Table<string>)
    requires Grids(keys, cols, steps) && |keys| == |names|
    requires forall i, j :: 0 <= i < |names| && 0 <= j < |names| ==> keys[i][j] == ColumnName(names[i], names[j])
    requires fevd.Length0 == steps && fevd.Length1 == |names| && fevd.Length2 == |names|
    requires forall h, j, a :: 0 <= h < steps && 0 <= j < |names| && 0 <= a < |names| ==> fevd[h, j, a] == cols[a][j][h]
    ensures table == PutRows(keys, cols, steps, |names|)
  {
    table := Table([], map[]);
    for i := 0 to |names|
      invariant table == PutRows(keys, cols, steps, i)
      invariant forall h, j, a :: 0 <= h < steps && 0 <= j < |names| && 0 <= a < |names| ==>
        fevd[h, j, a] == cols[a][j][h]
    {
      table := PutAffected(table, fevd, names, keys, cols, steps, i);
      assert table == PutRows(keys, cols, steps, i + 1);
    }
  }

  /** The share array holds, at [h, j, a], entry h of column [a][j]. */
  lemma ArrayHoldsShareColumns(fevd: array3<real>, psi: seq<Matrix>, chol: Matrix, n: nat, steps: nat,
                                cols: seq<seq<seq<real>>>)
    requires WellFormed(psi, chol, n) && steps <= |psi|
    requires cols == ShareColumns(psi, chol, n, steps)
    requires fevd.Length0 == steps && fevd.Length1 == n && fevd.Length2 == n
    requires forall h, j, a :: 0 <= h < steps && 0 <= j < n && 0 <= a < n ==>
      fevd[h, j, a] == Share(psi, chol, n, h, a, j)
    ensures forall h, j, a :: 0 <= h < steps && 0 <= j < n && 0 <= a < n ==> fevd[h, j, a] == cols[a][j][h]
  {
    forall h, j, a | 0 <= h < steps && 0 <= j < n && 0 <= a < n
      ensures fevd[h, j, a] == cols[a][j][h]
    {
      assert fevd[h, j, a] == Share(psi, chol, n, h, a, j);
    }
  }

  /** The inner loop: the columns of affected variable i, cause by cause. */
  method PutAffected(t: Table<string>, fevd: array3<real>, names: seq<string>, ghost keys: seq<seq<string>>,
                     ghost cols: seq<seq<seq<real>>>, steps: nat, i: nat)
    returns (table: Table<string>)
    requires Grids(keys, cols, steps) && |keys| == |names| && i < |names|
    requires forall j :: 0 <= j < |names| ==> keys[i][j] == ColumnName(names[i], names[j])
    requires fevd.Length0 == steps && fevd.Length1 == |names| && fevd.Length2 == |names|
    requires forall h, j, a :: 0 <= h < steps && 0 <= j < |names| && 0 <= a < |names| ==> fevd[h, j, a] == cols[a][j][h]
    ensures table == PutAll(t, keys[i], cols[i])
  {
    table := t;
    for j := 0 to |names|
      invariant table == PutAll(t, keys[i][..j], cols[i][..j])
    {
      var column := ColumnOf(fevd, steps, i, j);
      assert column == cols[i][j];
      assert keys[i][..j + 1][..j] == keys[i][..j] && cols[i][..j + 1][..j] == cols[i][..j];
      table := Put(table, ColumnName(names[i], names[j]), column);
    }
    assert keys[i][..|names|] == keys[i] && cols[i][..|names|] == cols[i];
  }

  /** `fevd[:, j, i]`. */
  method ColumnOf(fevd: array3<real>, steps: nat, i: nat, j: nat) returns (column: seq<real>)
    requires fevd.Length0 == steps && j < fevd.Length1 && i < fevd.Length2
    ensures |column| == steps && forall h :: 0 <= h < steps ==> column[h] == fevd[h, j, i]
  {
    column := [];
    for h := 0 to steps
      invariant |column| == h && forall g :: 0 <= g < h ==> column[g] == fevd[g, j, i]
    {
      column := column + [fevd[h, j, i]];
    }
  }
}
