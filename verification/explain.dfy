/** The explanation script's arithmetic: per-row reconstruction error on
    unscaled rows, feature importance as the column mean of absolute SHAP
    values, importance percentages, the ranking printout and the top three
    features.

    The SHAP values themselves come from a sampling explainer and are an
    input here. `np.argsort` does not promise an order among equal
    importances; `Argsort` fixes one admissible order (stable insertion),
    and the ranking and top-three properties are proved for that order. */
module Explain {
  import opened Stats
  import opened Autoencoder
  import opened Embedded

  /** `compute_reconstruction_error`: the row mean of `(X - prediction)^2`. */
  function ComputeReconstructionError(net: Network, x: seq<seq<real>>): (e: seq<real>)
    requires net.WellShaped() && net.InputDim() > 0
    requires IsMatrix(x, |x|, net.InputDim())
    ensures |e| == |x| && NonNegative(e)
  {
    ReconstructionErrors(net, x)
  }

  /** The script feeds raw rows to the network, where the header feeds
      standardised ones: the two errors agree for an identity scaler,
      and then each row's error is the header's anomaly score, zero
      exactly when the network reproduces the row. */
  lemma ErrorMatchesScoreUnderIdentityScaler(hdr: Header, x: seq<seq<real>>, r: nat)
    requires hdr.Valid() && hdr.config.inputDim > 0
    requires IsMatrix(x, |x|, hdr.net.InputDim()) && r < |x|
    requires forall i :: 0 <= i < hdr.config.inputDim ==>
      hdr.config.scalerMean[i] == 0.0 && hdr.config.scalerStd[i] == 1.0
    ensures ComputeReconstructionError(hdr.net, x)[r] == AnomalyScore(hdr, x[r])
    ensures ComputeReconstructionError(hdr.net, x)[r] == 0.0 <==> Forward(hdr.net, x[r]) == x[r]
  {
    var z := Standardize(x[r], hdr.config.scalerMean, hdr.config.scalerStd);
    assert z == x[r];
    MeanSquaredErrorZeroIff(x[r], Forward(hdr.net, x[r]));
  }

  // ---------------------------------------------------------------------
  // Importance

  /** Column j of `np.abs(shap_values)`. */
  function AbsColumn(shap: seq<seq<real>>, j: nat): (c: seq<real>)
    requires forall r :: 0 <= r < |shap| ==> j < |shap[r]|
    ensures |c| == |shap| && NonNegative(c)
    ensures forall r :: 0 <= r < |shap| ==> (c[r] == 0.0 <==> shap[r][j] == 0.0)
  {
    seq(|shap|, r requires 0 <= r < |shap| => Abs(shap[r][j]))
  }

  /** Importance of one feature: its mean absolute SHAP value. */
  function ColumnImportance(shap: seq<seq<real>>, j: nat): (m: real)
    requires |shap| > 0 && forall r :: 0 <= r < |shap| ==> j < |shap[r]|
    ensures m >= 0.0
    ensures m == 0.0 <==> forall r :: 0 <= r < |shap| ==> shap[r][j] == 0.0
  {
    var c := AbsColumn(shap, j);
    MeanZeroIff(c);
    Mean(c)
  }

  /** `np.abs(shap_values).mean(axis=0)`. */
  function FeatureImportance(shap: seq<seq<real>>, cols: nat): (imp: seq<real>)
    requires |shap| > 0 && IsMatrix(shap, |shap|, cols)
    ensures |imp| == cols && NonNegative(imp)
    ensures forall j :: 0 <= j < cols ==>
      (imp[j] == 0.0 <==> forall r :: 0 <= r < |shap| ==> shap[r][j] == 0.0)
  {
    seq(cols, j requires 0 <= j < cols => ColumnImportance(shap, j))
  }

  /** `importance / importance.sum() * 100`. */
  function ImportancePercentages(imp: seq<real>): (pct: seq<real>)
    requires Sum(imp) > 0.0
    ensures |pct| == |imp|
  {
    Shares(imp, Sum(imp))
  }

  /** Each entry divided by `total`, times 100. */
  function Shares(imp: seq<real>, total: real): (pct: seq<real>)
    requires total != 0.0
    ensures |pct| == |imp|
  {
    seq(|imp|, j requires 0 <= j < |imp| => imp[j] / total * 100.0)
  }

  /** One percentage is the importance scaled by 100 / total, and lies in
      [0, 100]. */
  lemma PercentageAt(imp: seq<real>, j: nat)
    requires NonNegative(imp) && Sum(imp) > 0.0 && j < |imp|
    ensures var pct := ImportancePercentages(imp);
      pct[j] == imp[j] * (100.0 / Sum(imp)) && 0.0 <= pct[j] <= 100.0
  {
    TermWithinTotal(imp, j);
    PercentageOfTerm(imp, j);
  }

  /** A non-negative importance is at most the total. */
  lemma TermWithinTotal(imp: seq<real>, j: nat)
    requires NonNegative(imp) && j < |imp|
    ensures 0.0 <= imp[j] <= Sum(imp)
  {
    TermAtMostSum(imp, j);
  }

  /** The percentage of an importance between 0 and the total. */
  lemma PercentageOfTerm(imp: seq<real>, j: nat)
    requires Sum(imp) > 0.0 && j < |imp| && 0.0 <= imp[j] <= Sum(imp)
    ensures var pct := ImportancePercentages(imp);
      pct[j] == imp[j] * (100.0 / Sum(imp)) && 0.0 <= pct[j] <= 100.0
  {
    ShareAt(imp, Sum(imp), j);
  }

  /** One share of a total it does not exceed is the part scaled by
      100 / total, and lies in [0, 100]. */
  lemma ShareAt(imp: seq<real>, total: real, j: nat)
    requires total > 0.0 && j < |imp| && 0.0 <= imp[j] <= total
    ensures var p := Shares(imp, total)[j];
      p == imp[j] * (100.0 / total) && 0.0 <= p <= 100.0
  {
    Percentage(imp[j], total);
  }

  /** Each percentage is the importance scaled by 100 / total, and lies
      in [0, 100]. */
  lemma PercentagesBounded(imp: seq<real>)
    requires NonNegative(imp) && Sum(imp) > 0.0
    ensures var pct := ImportancePercentages(imp);
      forall j :: 0 <= j < |imp| ==> pct[j] == imp[j] * (100.0 / Sum(imp)) && 0.0 <= pct[j] <= 100.0
  {
    forall j | 0 <= j < |imp|
      ensures ImportancePercentages(imp)[j] == imp[j] * (100.0 / Sum(imp))
      ensures 0.0 <= ImportancePercentages(imp)[j] <= 100.0
    {
      PercentageAt(imp, j);
    }
  }

  /** With some importance present the percentages add up to 100. */
  lemma PercentagesSumTo100(imp: seq<real>)
    requires NonNegative(imp) && Sum(imp) > 0.0
    ensures Sum(ImportancePercentages(imp)) == 100.0
  {
    var total := Sum(imp);
    var c := 100.0 / total;
    PercentagesBounded(imp);
    SumScaled(imp, ImportancePercentages(imp), c);
    assert total * c == 100.0;
  }

  /** The percentages rank the features as the importances do. */
  lemma PercentagesKeepOrder(imp: seq<real>, i: nat, j: nat)
    requires NonNegative(imp) && Sum(imp) > 0.0 && i < |imp| && j < |imp|
    ensures imp[i] <= imp[j] <==> ImportancePercentages(imp)[i] <= ImportancePercentages(imp)[j]
  {
    var pct := ImportancePercentages(imp);
    var total := Sum(imp);
    assert pct[i] == imp[i] / total * 100.0;
    assert pct[j] == imp[j] / total * 100.0;
    ShareKeepsOrder(imp[i], imp[j], total);
  }

  lemma ShareKeepsOrder(a: real, b: real, total: real)
    requires total > 0.0
    ensures a <= b <==> a / total * 100.0 <= b / total * 100.0
  {
    var c := 100.0 / total;
    assert a / total * 100.0 == a * c;
    assert b / total * 100.0 == b * c;
    ScaleKeepsOrder(a, b, c);
  }

  lemma ScaleKeepsOrder(a: real, b: real, c: real)
    requires c > 0.0
    ensures a <= b <==> a * c <= b * c
  {
    if a <= b {
      assert (b - a) * c >= 0.0;
    } else {
      assert (a - b) * c > 0.0;
    }
  }

  /** One share of a positive total, as a percentage. */
  lemma Percentage(part: real, total: real)
    requires 0.0 <= part <= total && total > 0.0
    ensures part / total * 100.0 == part * (100.0 / total)
    ensures 0.0 <= part / total * 100.0 <= 100.0
  {
    var q := part / total;
    assert q * total == part;
  }

  // ---------------------------------------------------------------------
  // Ranking

  predicate AscendingBy(s: seq<nat>, imp: seq<real>)
    requires forall a :: 0 <= a < |s| ==> s[a] < |imp|
  {
    forall a, b :: 0 <= a < b < |s| ==> imp[s[a]] <= imp[s[b]]
  }

  /** No listed index has importance above c. */
  predicate AllAtMost(s: seq<nat>, imp: seq<real>, c: real)
    requires forall a :: 0 <= a < |s| ==> s[a] < |imp|
  {
    forall a :: 0 <= a < |s| ==> imp[s[a]] <= c
  }

  predicate Distinct(s: seq<nat>)
  {
    forall a, b :: 0 <= a < b < |s| ==> s[a] != s[b]
  }

  /** Insert index k into an ascending list, after every index of no
      greater importance. */
  function Insert(s: seq<nat>, k: nat, imp: seq<real>): (r: seq<nat>)
    requires k < |imp| && forall a :: 0 <= a < |s| ==> s[a] < |imp|
    requires AscendingBy(s, imp)
    ensures |r| == |s| + 1
    ensures forall a :: 0 <= a < |r| ==> r[a] < |imp|
    ensures forall x :: x in r <==> x in s || x == k
    ensures AscendingBy(r, imp)
    ensures forall c :: imp[k] <= c && AllAtMost(s, imp, c) ==> AllAtMost(r, imp, c)
  {
    if |s| == 0 then [k]
    else if imp[s[|s| - 1]] <= imp[k] then s + [k]
    else
      var q, last := s[..|s| - 1], s[|s| - 1];
      var p := Insert(q, k, imp);
      assert forall x :: x in s <==> x in q || x == last;
      assert AllAtMost(q, imp, imp[last]);
      AppendLargest(p, last, imp);
      p + [last]
  }

  /** Appending an index whose importance bounds every listed one keeps the
      list ascending, and keeps any bound that also covers the new index. */
  lemma AppendLargest(p: seq<nat>, last: nat, imp: seq<real>)
    requires last < |imp| && forall a :: 0 <= a < |p| ==> p[a] < |imp|
    requires AscendingBy(p, imp) && AllAtMost(p, imp, imp[last])
    ensures forall a :: 0 <= a < |p + [last]| ==> (p + [last])[a] < |imp|
    ensures AscendingBy(p + [last], imp)
    ensures forall c :: imp[last] <= c && AllAtMost(p, imp, c) ==> AllAtMost(p + [last], imp, c)
  {
    var r := p + [last];
    assert forall a :: 0 <= a < |p| ==> r[a] == p[a];
  }

  lemma {:induction false} InsertDistinct(s: seq<nat>, k: nat, imp: seq<real>)
    requires k < |imp| && forall a :: 0 <= a < |s| ==> s[a] < |imp|
    requires AscendingBy(s, imp) && Distinct(s) && k !in s
    ensures Distinct(Insert(s, k, imp))
  {
    if |s| > 0 && imp[s[|s| - 1]] > imp[k] {
      var q := s[..|s| - 1];
      assert k !in q by {
        assert forall x :: x in q ==> x in s;
      }
      InsertDistinct(q, k, imp);
      var p := Insert(q, k, imp);
      var last := s[|s| - 1];
      assert last !in q;
      assert last !in p;
    }
  }

  /** The first n indices, ordered by ascending importance. */
  function ArgsortPrefix(imp: seq<real>, n: nat): (s: seq<nat>)
    requires n <= |imp|
    ensures |s| == n
    ensures forall a :: 0 <= a < |s| ==> s[a] < |imp|
    ensures forall x: nat :: x in s <==> x < n
    ensures AscendingBy(s, imp)
  {
    if n == 0 then []
    else Insert(ArgsortPrefix(imp, n - 1), n - 1, imp)
  }

  lemma {:induction false} ArgsortPrefixDistinct(imp: seq<real>, n: nat)
    requires n <= |imp|
    ensures Distinct(ArgsortPrefix(imp, n))
  {
    if n > 0 {
      ArgsortPrefixDistinct(imp, n - 1);
      InsertDistinct(ArgsortPrefix(imp, n - 1), n - 1, imp);
    }
  }

  /** `np.argsort(importance)`. */
  function Argsort(imp: seq<real>): (s: seq<nat>)
    ensures |s| == |imp|
  {
    ArgsortPrefix(imp, |imp|)
  }

  function Reverse(s: seq<nat>): (r: seq<nat>)
    ensures |r| == |s|
    ensures forall a :: 0 <= a < |s| ==> r[a] == s[|s| - 1 - a]
  {
    if |s| == 0 then [] else [s[|s| - 1]] + Reverse(s[..|s| - 1])
  }

  /** `argsort(importance)[::-1]`: the order of the ranking printout. */
  function Ranking(imp: seq<real>): (r: seq<nat>)
    ensures |r| == |imp|
  {
    Reverse(Argsort(imp))
  }

  /** Every index valid, no repeats, non-increasing importance. */
  predicate IsRanking(r: seq<nat>, imp: seq<real>)
  {
    && (forall a :: 0 <= a < |r| ==> r[a] < |imp|)
    && Distinct(r)
    && forall a, b :: 0 <= a < b < |r| ==> imp[r[b]] <= imp[r[a]]
  }

  /** The ranking visits every feature exactly once, most important
      first. */
  lemma RankingIsDescendingPermutation(imp: seq<real>)
    ensures IsRanking(Ranking(imp), imp)
    ensures forall j: nat :: j < |imp| ==> j in Ranking(imp)
  {
    var s := Argsort(imp);
    var r := Ranking(imp);
    ArgsortPrefixDistinct(imp, |imp|);
    assert forall a :: 0 <= a < |r| ==> r[a] == s[|s| - 1 - a];
    forall j | 0 <= j < |imp|
      ensures j in r
    {
      assert j in s;
      var a :| 0 <= a < |s| && s[a] == j;
      assert r[|s| - 1 - a] == j;
    }
  }

  /** `argsort(importance)[::-1][:3]`. */
  function TopFeatures(imp: seq<real>): (top: seq<nat>)
    ensures |top| == if |imp| < 3 then |imp| else 3
    ensures IsRanking(top, imp)
  {
    var r := Ranking(imp);
    RankingIsDescendingPermutation(imp);
    RankingPrefix(r, imp, if |imp| < 3 then |imp| else 3);
    r[..if |imp| < 3 then |imp| else 3]
  }

  /** A prefix of a ranking is a ranking. */
  lemma RankingPrefix(r: seq<nat>, imp: seq<real>, k: nat)
    requires IsRanking(r, imp) && k <= |r|
    ensures IsRanking(r[..k], imp)
  {
  }

  /** An index a ranking lists after its first n entries is no more
      important than the n-th. */
  lemma OutsidePrefixBounded(r: seq<nat>, imp: seq<real>, n: nat, j: nat)
    requires IsRanking(r, imp) && 0 < n <= |r| && j in r && j !in r[..n]
    ensures imp[j] <= imp[r[n - 1]]
  {
    var a :| 0 <= a < |r| && r[a] == j;
    assert forall b :: 0 <= b < n ==> r[..n][b] == r[b];
    assert forall b :: 0 <= b < n ==> r[b] != j;
    assert n - 1 < a;
  }

  /** The first n entries of a ranking that lists every feature: a
      ranking themselves, with no feature left out more important than the
      last of them. */
  lemma RankingHead(r: seq<nat>, imp: seq<real>, n: nat)
    requires IsRanking(r, imp) && 0 < n <= |r|
    requires forall j: nat :: j < |imp| ==> j in r
    ensures IsRanking(r[..n], imp)
    ensures forall j: nat :: j < |imp| && j !in r[..n] ==> imp[j] <= imp[r[..n][n - 1]]
  {
    RankingPrefix(r, imp, n);
    forall j: nat | j < |imp| && j !in r[..n]
      ensures imp[j] <= imp[r[..n][n - 1]]
    {
      OutsidePrefixBounded(r, imp, n, j);
    }
  }

  /** The top features are distinct valid indices in non-increasing order
      of importance, and no feature left out is more important than the
      last one listed. */
  lemma TopFeaturesAreMostImportant(imp: seq<real>)
    ensures IsRanking(TopFeatures(imp), imp)
    ensures var top := TopFeatures(imp);
      forall j: nat :: j < |imp| && j !in top ==> imp[j] <= imp[top[|top| - 1]]
  {
    var r := Ranking(imp);
    var n := if |imp| < 3 then |imp| else 3;
    assert TopFeatures(imp) == r[..n];
    RankingIsDescendingPermutation(imp);
    if n > 0 {
      RankingHead(r, imp, n);
    }
  }

  /** Two features of equal importance, nothing else: both are listed and,
      since the stable ascending order is reversed, the higher index comes
      first. */
  lemma TieExample()
    ensures Ranking([0.5, 0.5]) == [1, 0]
    ensures TopFeatures([0.2, 0.7, 0.1]) == [1, 0, 2]
  {
    assert ArgsortPrefix([0.5, 0.5], 1) == [0];
    assert Argsort([0.5, 0.5]) == [0, 1];
    var imp := [0.2, 0.7, 0.1];
    assert ArgsortPrefix(imp, 1) == [0];
    assert ArgsortPrefix(imp, 2) == [0, 1];
    assert Insert([0, 1], 2, imp) == Insert([0], 2, imp) + [1];
    assert Insert([0], 2, imp) == Insert([], 2, imp) + [0];
    assert Argsort(imp) == [2, 0, 1];
  }
}
