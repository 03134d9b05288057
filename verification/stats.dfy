/** Reductions over sequences of reals: the numpy sum, mean, max, min,
    population variance and standard deviation the pipeline relies on,
    with the facts about them that the feature, evaluation and ranking
    properties need.

    A square root cannot be computed exactly over the reals, so it is a
    parameter `sqrt` everywhere; the laws it must obey are `IsSqrt`. */
module Stats {

  /** Sum accumulated left to right, as a running `+=` loop computes it. */
  function Sum(s: seq<real>): real
  {
    if |s| == 0 then 0.0 else Sum(s[..|s| - 1]) + s[|s| - 1]
  }

  function Mean(s: seq<real>): real
    requires |s| > 0
  {
    Sum(s) / |s| as real
  }

  function Max(s: seq<real>): (m: real)
    requires |s| > 0
    ensures m in s
    ensures forall i :: 0 <= i < |s| ==> s[i] <= m
  {
    if |s| == 1 then s[0]
    else
      var m := Max(s[..|s| - 1]);
      assert m in s[..|s| - 1];
      if s[|s| - 1] > m then s[|s| - 1] else m
  }

  function Min(s: seq<real>): (m: real)
    requires |s| > 0
    ensures m in s
    ensures forall i :: 0 <= i < |s| ==> m <= s[i]
  {
    if |s| == 1 then s[0]
    else
      var m := Min(s[..|s| - 1]);
      assert m in s[..|s| - 1];
      if s[|s| - 1] < m then s[|s| - 1] else m
  }

  function Abs(x: real): real
  {
    if x < 0.0 then -x else x
  }

  function Square(x: real): real
  {
    x * x
  }

  /** Element-wise square (`s**2`). */
  function Squares(s: seq<real>): (r: seq<real>)
    ensures |r| == |s|
    ensures NonNegative(r)
    ensures forall i :: 0 <= i < |s| ==> r[i] == Square(s[i])
  {
    seq(|s|, i requires 0 <= i < |s| => Square(s[i]))
  }

  /** Element-wise `(s - c)**2`. */
  function SquaredDeviations(s: seq<real>, c: real): (r: seq<real>)
    ensures |r| == |s|
    ensures NonNegative(r)
    ensures forall i :: 0 <= i < |s| ==> r[i] == Square(s[i] - c)
  {
    seq(|s|, i requires 0 <= i < |s| => Square(s[i] - c))
  }

  /** Element-wise `(a - b)**2`. */
  function SquaredDifferences(a: seq<real>, b: seq<real>): (r: seq<real>)
    requires |a| == |b|
    ensures |r| == |a|
    ensures NonNegative(r)
    ensures forall i :: 0 <= i < |a| ==> r[i] == Square(a[i] - b[i])
  {
    seq(|a|, i requires 0 <= i < |a| => Square(a[i] - b[i]))
  }

  /** Population variance (numpy's default, ddof = 0). */
  function Variance(s: seq<real>): (v: real)
    requires |s| > 0
    ensures v >= 0.0
  {
    MeanNonNegative(SquaredDeviations(s, Mean(s)));
    Mean(SquaredDeviations(s, Mean(s)))
  }

  /** Mean of squared differences: the reconstruction error of one row. */
  function MeanSquaredError(a: seq<real>, b: seq<real>): (e: real)
    requires |a| == |b| > 0
    ensures e >= 0.0
  {
    MeanNonNegative(SquaredDifferences(a, b));
    Mean(SquaredDifferences(a, b))
  }

  /** All entries equal. */
  predicate Constant(s: seq<real>)
  {
    forall i :: 0 <= i < |s| ==> s[i] == s[0]
  }

  predicate NonNegative(s: seq<real>)
  {
    forall i :: 0 <= i < |s| ==> s[i] >= 0.0
  }

  /** The laws a square root obeys on the non-negative reals. */
  ghost predicate IsSqrt(sqrt: real -> real)
  {
    forall x :: 0.0 <= x ==> 0.0 <= sqrt(x) && sqrt(x) * sqrt(x) == x
  }

  /** Population standard deviation, `np.std`. */
  function Std(s: seq<real>, sqrt: real -> real): real
    requires |s| > 0
  {
    sqrt(Variance(s))
  }

  // ---------------------------------------------------------------------
  // Facts about sums

  lemma {:induction false} SumNonNegative(s: seq<real>)
    requires NonNegative(s)
    ensures Sum(s) >= 0.0
  {
    if |s| > 0 {
      SumNonNegative(s[..|s| - 1]);
    }
  }

  /** A sum of non-negative terms vanishes exactly when every term does. */
  lemma {:induction false} SumZeroIff(s: seq<real>)
    requires NonNegative(s)
    ensures Sum(s) == 0.0 <==> forall i :: 0 <= i < |s| ==> s[i] == 0.0
  {
    if |s| > 0 {
      var p := s[..|s| - 1];
      SumZeroIff(p);
      SumNonNegative(p);
      if Sum(s) == 0.0 {
        assert forall i :: 0 <= i < |s| - 1 ==> s[i] == p[i];
      }
      if forall i :: 0 <= i < |s| ==> s[i] == 0.0 {
        assert forall i :: 0 <= i < |p| ==> p[i] == 0.0;
      }
    }
  }

  lemma {:induction false} SumAtMost(s: seq<real>, c: real)
    requires forall i :: 0 <= i < |s| ==> s[i] <= c
    ensures Sum(s) <= |s| as real * c
  {
    if |s| > 0 {
      SumAtMost(s[..|s| - 1], c);
    }
  }

  lemma {:induction false} SumAtLeast(s: seq<real>, c: real)
    requires forall i :: 0 <= i < |s| ==> c <= s[i]
    ensures |s| as real * c <= Sum(s)
  {
    if |s| > 0 {
      SumAtLeast(s[..|s| - 1], c);
    }
  }

  lemma SumConstant(s: seq<real>, c: real)
    requires forall i :: 0 <= i < |s| ==> s[i] == c
    ensures Sum(s) == |s| as real * c
  {
    SumAtMost(s, c);
    SumAtLeast(s, c);
  }

  /** Scaling every term scales the sum. */
  lemma {:induction false} SumScaled(s: seq<real>, t: seq<real>, c: real)
    requires |t| == |s|
    requires forall i :: 0 <= i < |s| ==> t[i] == s[i] * c
    ensures Sum(t) == Sum(s) * c
  {
    if |s| > 0 {
      SumScaled(s[..|s| - 1], t[..|t| - 1], c);
    }
  }

  /** A non-negative term never exceeds the sum it belongs to. */
  lemma {:induction false} TermAtMostSum(s: seq<real>, i: nat)
    requires NonNegative(s) && i < |s|
    ensures s[i] <= Sum(s)
  {
    var p := s[..|s| - 1];
    SumNonNegative(p);
    if i < |s| - 1 {
      TermAtMostSum(p, i);
    }
  }

  // ---------------------------------------------------------------------
  // Facts about means and spreads

  lemma MeanAtMost(s: seq<real>, c: real)
    requires |s| > 0
    requires forall i :: 0 <= i < |s| ==> s[i] <= c
    ensures Mean(s) <= c
  {
    SumAtMost(s, c);
    var n := |s| as real;
    var a := Sum(s);
    assert a <= n * c;
    assert a / n <= c;
  }

  lemma MeanAtLeast(s: seq<real>, c: real)
    requires |s| > 0
    requires forall i :: 0 <= i < |s| ==> c <= s[i]
    ensures c <= Mean(s)
  {
    SumAtLeast(s, c);
    var n := |s| as real;
    var a := Sum(s);
    assert n * c <= a;
    assert c <= a / n;
  }

  lemma MeanBetweenMinAndMax(s: seq<real>)
    requires |s| > 0
    ensures Min(s) <= Mean(s) <= Max(s)
  {
    MeanAtMost(s, Max(s));
    MeanAtLeast(s, Min(s));
  }

  lemma MeanNonNegative(s: seq<real>)
    requires |s| > 0 && NonNegative(s)
    ensures Mean(s) >= 0.0
  {
    SumNonNegative(s);
  }

  /** A mean of non-negative terms vanishes exactly when every term does. */
  lemma MeanZeroIff(s: seq<real>)
    requires |s| > 0 && NonNegative(s)
    ensures Mean(s) >= 0.0
    ensures Mean(s) == 0.0 <==> forall i :: 0 <= i < |s| ==> s[i] == 0.0
  {
    SumNonNegative(s);
    SumZeroIff(s);
    var n := |s| as real;
    assert Mean(s) * n == Sum(s);
  }

  lemma MeanOfConstant(s: seq<real>)
    requires |s| > 0 && Constant(s)
    ensures Mean(s) == s[0]
  {
    SumConstant(s, s[0]);
  }

  /** The population variance vanishes exactly on constant sequences. */
  lemma VarianceZeroIff(s: seq<real>)
    requires |s| > 0
    ensures Variance(s) == 0.0 <==> Constant(s)
  {
    var m := Mean(s);
    var d := SquaredDeviations(s, m);
    SumZeroIff(d);
    if Constant(s) {
      MeanOfConstant(s);
      assert forall i :: 0 <= i < |s| ==> d[i] == 0.0;
    }
    if Variance(s) == 0.0 {
      assert Sum(d) == 0.0;
      forall i | 0 <= i < |s|
        ensures s[i] == s[0]
      {
        assert d[i] == 0.0 && d[0] == 0.0;
        SquareZero(s[i] - m);
        SquareZero(s[0] - m);
      }
    }
  }

  /** A product vanishes only when a factor does. */
  lemma ProductZero(a: real, b: real)
    requires a * b == 0.0
    ensures a == 0.0 || b == 0.0
  {
    if a != 0.0 {
      assert b == (a * b) / a;
    }
  }

  /** A real square vanishes only at zero. */
  lemma SquareZero(x: real)
    requires Square(x) == 0.0
    ensures x == 0.0
  {
    ProductZero(x, x);
  }

  lemma SqrtZeroIff(sqrt: real -> real, x: real)
    requires IsSqrt(sqrt) && x >= 0.0
    ensures sqrt(x) >= 0.0
    ensures sqrt(x) == 0.0 <==> x == 0.0
  {
    var r := sqrt(x);
    assert r >= 0.0 && Square(r) == x;
    if x == 0.0 {
      SquareZero(r);
    }
  }

  /** The standard deviation is non-negative and vanishes exactly on
      constant sequences. */
  lemma StdZeroIff(s: seq<real>, sqrt: real -> real)
    requires |s| > 0 && IsSqrt(sqrt)
    ensures Std(s, sqrt) >= 0.0
    ensures Std(s, sqrt) == 0.0 <==> Constant(s)
  {
    VarianceZeroIff(s);
    SqrtZeroIff(sqrt, Variance(s));
  }

  /** The mean squared error is non-negative and vanishes exactly when the
      two rows agree. */
  lemma MeanSquaredErrorZeroIff(a: seq<real>, b: seq<real>)
    requires |a| == |b| > 0
    ensures MeanSquaredError(a, b) == 0.0 <==> a == b
  {
    var d := SquaredDifferences(a, b);
    SumNonNegative(d);
    SumZeroIff(d);
    if MeanSquaredError(a, b) == 0.0 {
      assert Sum(d) == 0.0;
      forall i | 0 <= i < |a|
        ensures a[i] == b[i]
      {
        assert d[i] == 0.0;
        SquareZero(a[i] - b[i]);
      }
    }
    if a == b {
      assert forall i :: 0 <= i < |a| ==> d[i] == 0.0;
    }
  }
}
