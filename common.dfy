/** Shared vocabulary: optional values (a pandas NaN or a missing slot),
    success/failure results (a raised exception), dense real matrices and
    sums over sequences of reals. */
module Common {

  datatype Option<+T> = None | Some(value: T)

  datatype Result<+T, +E> = Ok(value: T) | Err(error: E)

  /** A dense matrix stored row by row. */
  type Matrix = seq<seq<real>>

  /** A pandas DataFrame with a time index, stored column by column;
      `None` is a missing value (NaN). */
  datatype NaFrame = NaFrame(index: seq<int>, names: seq<string>, cols: seq<seq<Option<real>>>)
  {
    /** One column per name, one entry per index label. */
    predicate Valid()
    {
      |cols| == |names| && forall c :: 0 <= c < |cols| ==> |cols[c]| == |index|
    }
  }

  /** A DataFrame without missing values. */
  datatype Frame = Frame(index: seq<int>, names: seq<string>, cols: seq<seq<real>>)
  {
    predicate Valid()
    {
      |cols| == |names| && forall c :: 0 <= c < |cols| ==> |cols[c]| == |index|
    }
  }

  /** No name occurs twice. */
  predicate Distinct<T(==)>(xs: seq<T>)
  {
    forall a, b :: 0 <= a < b < |xs| ==> xs[a] != xs[b]
  }

  /** `Series.dropna()` on the values: the present ones, in order. */
  function Present(col: seq<Option<real>>): (vs: seq<real>)
    ensures |vs| <= |col|
  {
    if col == [] then []
    else Present(col[..|col| - 1]) + (if col[|col| - 1].Some? then [col[|col| - 1].value] else [])
  }

  /** The position of the first occurrence of `x` in `xs`. */
  function IndexOf<T(==)>(xs: seq<T>, x: T): (k: nat)
    requires x in xs
    ensures k < |xs| && xs[k] == x && forall j :: 0 <= j < k ==> xs[j] != x
  {
    if xs[0] == x then 0 else 1 + IndexOf(xs[1..], x)
  }

  /** `g` has `n` rows of `n` entries each. */
  predicate IsGrid<T>(g: seq<seq<T>>, n: nat)
  {
    |g| == n && forall i :: 0 <= i < n ==> |g[i]| == n
  }

  function Sq(x: real): (r: real)
    ensures r >= 0.0
  {
    x * x
  }

  // Facts of real arithmetic that the solver needs to be pointed at.

  lemma SqPositive(x: real)
    requires x != 0.0
    ensures Sq(x) > 0.0
  {
    if x > 0.0 {
      calc { Sq(x); == x * x; > 0.0; }
    } else {
      calc { Sq(x); == x * x; == (-x) * (-x); > 0.0; }
    }
  }

  lemma DivAdd(a: real, b: real, t: real)
    requires t != 0.0
    ensures a / t + b / t == (a + b) / t
  {
  }

  lemma DivAtMostOne(a: real, t: real)
    requires 0.0 <= a <= t && t > 0.0
    ensures 0.0 <= a / t <= 1.0
  {
  }

  lemma MulInverse(x: real)
    requires x != 0.0
    ensures x * (1.0 / x) == 1.0 && x / x == 1.0
  {
  }

  lemma DivMulCancel(a: real, s: real)
    requires s != 0.0
    ensures (a / s) * s == a
  {
  }

  lemma MulDivCancel(a: real, s: real)
    requires s != 0.0
    ensures (a * s) / s == a
  {
  }

  function Abs(x: real): (r: real)
    ensures r >= 0.0 && (r == 0.0 <==> x == 0.0)
  {
    if x < 0.0 then -x else x
  }

  /** Sum of a sequence of reals, from the left. */
  function Sum(xs: seq<real>): real
  {
    if xs == [] then 0.0 else Sum(xs[..|xs| - 1]) + xs[|xs| - 1]
  }

  /** A sum of non-negative terms is non-negative, and it is zero exactly
      when every term is zero. */
  lemma {:induction false} SumNonNegative(xs: seq<real>)
    requires forall k :: 0 <= k < |xs| ==> xs[k] >= 0.0
    ensures Sum(xs) >= 0.0
    ensures Sum(xs) == 0.0 <==> forall k :: 0 <= k < |xs| ==> xs[k] == 0.0
  {
    if xs != [] {
      var init := xs[..|xs| - 1];
      assert forall k :: 0 <= k < |init| ==> init[k] == xs[k];
      SumNonNegative(init);
    }
  }

  /** Arithmetic mean; pandas and scikit-learn refuse an empty sample, so
      the callers check for it first. */
  function Mean(xs: seq<real>): (r: real)
    requires |xs| > 0
  {
    Sum(xs) / (|xs| as real)
  }

  lemma MeanNonNegative(xs: seq<real>)
    requires |xs| > 0
    requires forall k :: 0 <= k < |xs| ==> xs[k] >= 0.0
    ensures Mean(xs) >= 0.0
    ensures Mean(xs) == 0.0 <==> forall k :: 0 <= k < |xs| ==> xs[k] == 0.0
  {
    SumNonNegative(xs);
  }
}
