/** The deterministic parts of the training script: splitting the dataset
    by label, the evaluation statistics (per-row reconstruction error, the
    `mean + 2 std` threshold, strict-`>` detection counts and rates) and
    the configuration record written next to the weights.

    Fitting (the optimiser, early stopping, the random validation split
    and the scaler fit) is not modelled: the trained network, the
    validation rows and the scaler statistics are inputs. */
module Training {
  import opened Stats
  import opened Autoencoder
  import opened Embedded
  import Features

  // ---------------------------------------------------------------------
  // Label partition

  /** Positions of the rows carrying label l, in row order: the selection
      `y == l` as a list of indices. */
  function IndicesWithLabel(y: seq<int>, l: int): (r: seq<nat>)
    ensures forall a :: 0 <= a < |r| ==> r[a] < |y| && y[r[a]] == l
    ensures forall a, b :: 0 <= a < b < |r| ==> r[a] < r[b]
  {
    if |y| == 0 then []
    else IndicesWithLabel(y[..|y| - 1], l) + (if y[|y| - 1] == l then [|y| - 1] else [])
  }

  /** Every row with label l is selected. */
  lemma {:induction false} IndicesWithLabelComplete(y: seq<int>, l: int, i: nat)
    requires i < |y| && y[i] == l
    ensures i in IndicesWithLabel(y, l)
  {
    if i < |y| - 1 {
      IndicesWithLabelComplete(y[..|y| - 1], l, i);
    }
  }

  /** `X[y == l]`: the selected rows, in their original order. */
  function SelectByLabel(x: seq<seq<real>>, y: seq<int>, l: int): (r: seq<seq<real>>)
    requires |x| == |y|
    ensures |r| == |IndicesWithLabel(y, l)|
    ensures forall a :: 0 <= a < |r| ==> r[a] == x[IndicesWithLabel(y, l)[a]]
  {
    var idx := IndicesWithLabel(y, l);
    seq(|idx|, a requires 0 <= a < |idx| => x[idx[a]])
  }

  predicate BinaryLabels(y: seq<int>)
  {
    forall i :: 0 <= i < |y| ==> y[i] == 0 || y[i] == 1
  }

  /** With labels in {0, 1} the normal and the anomalous rows partition
      the dataset: every row lands in exactly one subset, and the subset
      sizes add up to the number of rows. */
  lemma {:induction false} LabelPartition(y: seq<int>)
    requires BinaryLabels(y)
    ensures |IndicesWithLabel(y, 0)| + |IndicesWithLabel(y, 1)| == |y|
    ensures forall i :: 0 <= i < |y| ==> (i in IndicesWithLabel(y, 0) <==> i !in IndicesWithLabel(y, 1))
  {
    if |y| > 0 {
      LabelPartition(y[..|y| - 1]);
    }
    forall i | 0 <= i < |y|
      ensures i in IndicesWithLabel(y, 0) <==> i !in IndicesWithLabel(y, 1)
    {
      IndicesWithLabelComplete(y, y[i], i);
    }
  }

  // ---------------------------------------------------------------------
  // Evaluation

  /** `mean(val_mse) + 2 * std(val_mse)`. */
  function DecisionThreshold(valErrors: seq<real>, sqrt: real -> real): (t: real)
    requires |valErrors| > 0
    ensures IsSqrt(sqrt) ==> t >= Mean(valErrors)
  {
    Mean(valErrors) + 2.0 * Std(valErrors, sqrt)
  }

  /** The threshold lies at or above the mean validation error, which is
      non-negative, and equals it exactly when every validation error is
      the same. */
  lemma ThresholdBounds(valErrors: seq<real>, sqrt: real -> real)
    requires |valErrors| > 0 && NonNegative(valErrors) && IsSqrt(sqrt)
    ensures Mean(valErrors) >= 0.0
    ensures DecisionThreshold(valErrors, sqrt) >= Mean(valErrors)
    ensures DecisionThreshold(valErrors, sqrt) == Mean(valErrors) <==> Constant(valErrors)
  {
    MeanNonNegative(valErrors);
    StdZeroIff(valErrors, sqrt);
  }

  /** `np.sum(e > t)`: entries strictly above the threshold. */
  function CountAbove(e: seq<real>, t: real): (c: nat)
    ensures c <= |e|
  {
    if |e| == 0 then 0
    else CountAbove(e[..|e| - 1], t) + (if e[|e| - 1] > t then 1 else 0)
  }

  /** The positions counted, as a set. */
  function PositionsAbove(e: seq<real>, t: real): set<nat>
  {
    set i: nat | i < |e| && e[i] > t
  }

  /** The positions above the threshold in a sequence are those in all
      but its last entry, plus the last if it is above. */
  lemma PositionsAboveStep(e: seq<real>, t: real)
    requires |e| > 0
    ensures var last := |e| - 1;
      PositionsAbove(e, t) == PositionsAbove(e[..last], t) + (if e[last] > t then {last} else {})
  {
    var last := |e| - 1;
    var p := e[..last];
    forall i: nat | i in PositionsAbove(e, t)
      ensures i in PositionsAbove(p, t) + (if e[last] > t then {last} else {})
    {
      if i < last {
        assert p[i] == e[i];
      }
    }
  }

  /** The count is the number of positions strictly above the threshold:
      an error equal to the threshold is not counted. */
  lemma {:induction false} CountAboveIsCardinality(e: seq<real>, t: real)
    ensures CountAbove(e, t) == |PositionsAbove(e, t)|
  {
    if |e| > 0 {
      var last := |e| - 1;
      CountAboveIsCardinality(e[..last], t);
      PositionsAboveStep(e, t);
      assert last !in PositionsAbove(e[..last], t);
    } else {
      assert PositionsAbove(e, t) == {};
    }
  }

  /** Raising the threshold never raises the count. */
  lemma {:induction false} CountAboveAntitone(e: seq<real>, t: real, u: real)
    requires t <= u
    ensures CountAbove(e, u) <= CountAbove(e, t)
  {
    if |e| > 0 {
      CountAboveAntitone(e[..|e| - 1], t, u);
    }
  }

  /** `count / len * 100`. */
  function Rate(count: nat, total: nat): real
    requires total > 0
  {
    count as real / total as real * 100.0
  }

  lemma RateBounds(count: nat, total: nat)
    requires 0 < total && count <= total
    ensures 0.0 <= Rate(count, total) <= 100.0
    ensures Rate(count, total) == 100.0 <==> count == total
  {
    var c, n := count as real, total as real;
    var q := c / n;
    assert Rate(count, total) == q * 100.0;
    QuotientBounds(c, n);
  }

  /** A share of a positive whole lies in [0, 1] and is 1 exactly for the
      whole. */
  lemma QuotientBounds(c: real, n: real)
    requires 0.0 <= c <= n && n > 0.0
    ensures 0.0 <= c / n <= 1.0
    ensures c / n == 1.0 <==> c == n
  {
    var q := c / n;
    assert q * n == c;
    if c == n {
      assert (q - 1.0) * n == 0.0;
      ProductZero(q - 1.0, n);
    }
  }

  /** What `evaluate_model` computes. */
  datatype Evaluation = Evaluation(
    threshold: real,
    trainErrors: seq<real>,
    valErrors: seq<real>,
    anomalyErrors: seq<real>,
    detectionRate: real,
    falsePositiveRate: real)

  /** Errors of all three sets, the threshold from the validation errors,
      and the two rates. */
  function EvaluateModel(net: Network, xTrain: seq<seq<real>>, xVal: seq<seq<real>>,
                         xAnomaly: seq<seq<real>>, sqrt: real -> real): (ev: Evaluation)
    requires net.WellShaped() && net.InputDim() > 0
    requires IsMatrix(xTrain, |xTrain|, net.InputDim())
    requires IsMatrix(xVal, |xVal|, net.InputDim()) && |xVal| > 0
    requires IsMatrix(xAnomaly, |xAnomaly|, net.InputDim()) && |xAnomaly| > 0
    ensures |ev.trainErrors| == |xTrain| && |ev.valErrors| == |xVal| && |ev.anomalyErrors| == |xAnomaly|
    ensures NonNegative(ev.trainErrors) && NonNegative(ev.valErrors) && NonNegative(ev.anomalyErrors)
    ensures 0.0 <= ev.detectionRate <= 100.0 && 0.0 <= ev.falsePositiveRate <= 100.0
  {
    var trainErrors := ReconstructionErrors(net, xTrain);
    var valErrors := ReconstructionErrors(net, xVal);
    var anomalyErrors := ReconstructionErrors(net, xAnomaly);
    var threshold := DecisionThreshold(valErrors, sqrt);
    RateBounds(CountAbove(anomalyErrors, threshold), |anomalyErrors|);
    RateBounds(CountAbove(valErrors, threshold), |valErrors|);
    Evaluation(
      threshold, trainErrors, valErrors, anomalyErrors,
      Rate(CountAbove(anomalyErrors, threshold), |anomalyErrors|),
      Rate(CountAbove(valErrors, threshold), |valErrors|))
  }

  /** The statistics drawn from the validation and anomaly errors: the
      threshold is at least the mean validation error and so
      non-negative, both rates are percentages, and a validation set with
      identical errors has no false positives. */
  lemma DetectionBounds(valErrors: seq<real>, anomalyErrors: seq<real>, sqrt: real -> real)
    requires |valErrors| > 0 && |anomalyErrors| > 0 && IsSqrt(sqrt)
    requires NonNegative(valErrors)
    ensures var t := DecisionThreshold(valErrors, sqrt);
      && t >= Mean(valErrors) >= 0.0
      && 0.0 <= Rate(CountAbove(anomalyErrors, t), |anomalyErrors|) <= 100.0
      && 0.0 <= Rate(CountAbove(valErrors, t), |valErrors|) <= 100.0
      && (Constant(valErrors) ==> Rate(CountAbove(valErrors, t), |valErrors|) == 0.0)
  {
    var t := DecisionThreshold(valErrors, sqrt);
    ThresholdBounds(valErrors, sqrt);
    RateBounds(CountAbove(anomalyErrors, t), |anomalyErrors|);
    RateBounds(CountAbove(valErrors, t), |valErrors|);
    if Constant(valErrors) {
      ConstantBelowThreshold(valErrors, t);
    }
  }

  /** A constant error sequence lies entirely at or below any threshold
      not under its mean: nothing is counted and the rate is 0. */
  lemma ConstantBelowThreshold(e: seq<real>, t: real)
    requires |e| > 0 && Constant(e) && Mean(e) <= t
    ensures CountAbove(e, t) == 0
    ensures Rate(CountAbove(e, t), |e|) == 0.0
  {
    MeanOfConstant(e);
    NoneAbove(e, t);
  }

  /** Every reconstruction error is non-negative, and the evaluation obeys
      `DetectionBounds`. */
  lemma EvaluationBounds(net: Network, xTrain: seq<seq<real>>, xVal: seq<seq<real>>,
                         xAnomaly: seq<seq<real>>, sqrt: real -> real)
    requires net.WellShaped() && net.InputDim() > 0
    requires IsMatrix(xTrain, |xTrain|, net.InputDim())
    requires IsMatrix(xVal, |xVal|, net.InputDim()) && |xVal| > 0
    requires IsMatrix(xAnomaly, |xAnomaly|, net.InputDim()) && |xAnomaly| > 0
    requires IsSqrt(sqrt)
    ensures var ev := EvaluateModel(net, xTrain, xVal, xAnomaly, sqrt);
      && NonNegative(ev.trainErrors) && NonNegative(ev.valErrors) && NonNegative(ev.anomalyErrors)
      && ev.threshold >= Mean(ev.valErrors) >= 0.0
      && 0.0 <= ev.detectionRate <= 100.0
      && 0.0 <= ev.falsePositiveRate <= 100.0
      && (Constant(ev.valErrors) ==> ev.falsePositiveRate == 0.0)
  {
    var valErrors := ReconstructionErrors(net, xVal);
    var anomalyErrors := ReconstructionErrors(net, xAnomaly);
    DetectionBounds(valErrors, anomalyErrors, sqrt);
  }

  /** No entry above the threshold, no count. */
  lemma {:induction false} NoneAbove(e: seq<real>, t: real)
    requires forall i :: 0 <= i < |e| ==> e[i] <= t
    ensures CountAbove(e, t) == 0
  {
    if |e| > 0 {
      NoneAbove(e[..|e| - 1], t);
    }
  }

  // ---------------------------------------------------------------------
  // Export

  /** The configuration record `export_model` writes. */
  function ExportConfig(threshold: real, scalerMean: seq<real>, scalerStd: seq<real>): (c: ModelConfig)
    ensures c.threshold == threshold
    ensures |scalerMean| == Features.FEATURE_COUNT && |scalerStd| == Features.FEATURE_COUNT ==>
      |c.scalerMean| == |c.scalerStd| == c.inputDim == Features.FEATURE_COUNT
    ensures c.hiddenDim < c.inputDim
  {
    ModelConfig(INPUT_DIM, HIDDEN_DIM, threshold, scalerMean, scalerStd)
  }

  /** A trained 8-4-8 network with the scaler fitted on the eight feature
      columns (a scaler never stores a zero scale) yields a header that
      `runInference` can run on every feature row. */
  lemma ExportedHeaderValid(net: Network, threshold: real, scalerMean: seq<real>, scalerStd: seq<real>)
    requires net.WellShaped() && net.InputDim() == INPUT_DIM && net.HiddenDim() == HIDDEN_DIM
    requires |scalerMean| == Features.FEATURE_COUNT && |scalerStd| == Features.FEATURE_COUNT
    requires NoZeros(scalerStd)
    ensures Features.FEATURE_COUNT == INPUT_DIM
    ensures Header(ExportConfig(threshold, scalerMean, scalerStd), net).Valid()
    ensures forall f: Features.FeatureVector ::
      |f.ToRow()| == Header(ExportConfig(threshold, scalerMean, scalerStd), net).config.inputDim
  {
  }

  // ---------------------------------------------------------------------
  // Offline validation and the device agree

  /** `scaler.transform`: every row standardised against the scaler the
      header stores; `Unstandardize` recovers the raw rows. */
  function StandardizeRows(hdr: Header, xs: seq<seq<real>>): (zs: seq<seq<real>>)
    requires hdr.Valid() && IsMatrix(xs, |xs|, hdr.config.inputDim)
    ensures IsMatrix(zs, |xs|, hdr.config.inputDim)
    ensures forall r :: 0 <= r < |xs| ==>
      Unstandardize(zs[r], hdr.config.scalerMean, hdr.config.scalerStd) == xs[r]
  {
    var zs := seq(|xs|, r requires 0 <= r < |xs| =>
      Standardize(xs[r], hdr.config.scalerMean, hdr.config.scalerStd));
    RowsRoundTrip(hdr, xs, zs);
    zs
  }

  lemma RowsRoundTrip(hdr: Header, xs: seq<seq<real>>, zs: seq<seq<real>>)
    requires hdr.Valid() && IsMatrix(xs, |xs|, hdr.config.inputDim) && IsMatrix(zs, |xs|, hdr.config.inputDim)
    requires forall r :: 0 <= r < |xs| ==>
      zs[r] == Standardize(xs[r], hdr.config.scalerMean, hdr.config.scalerStd)
    ensures forall r :: 0 <= r < |xs| ==>
      Unstandardize(zs[r], hdr.config.scalerMean, hdr.config.scalerStd) == xs[r]
  {
    forall r | 0 <= r < |xs|
      ensures Unstandardize(zs[r], hdr.config.scalerMean, hdr.config.scalerStd) == xs[r]
    {
      StandardizeRoundTrip(xs[r], hdr.config.scalerMean, hdr.config.scalerStd);
    }
  }

  /** The error `evaluate_model` measures on a standardised row is the
      score `runInference` returns for the raw row. */
  lemma OfflineErrorIsHeaderScore(hdr: Header, x: seq<real>)
    requires hdr.Valid() && |x| == hdr.config.inputDim
    ensures ReconstructionErrors(hdr.net, [Standardize(x, hdr.config.scalerMean, hdr.config.scalerStd)])
      == [AnomalyScore(hdr, x)]
  {
  }

  /** Over a whole batch: row r's offline error is the device score of raw
      row r, and the rows `np.sum(errors > threshold)` counts are exactly
      those `isAnomalous` flags under the exported threshold. */
  lemma OfflineCountIsDeviceCount(hdr: Header, xs: seq<seq<real>>)
    requires hdr.Valid() && IsMatrix(xs, |xs|, hdr.config.inputDim)
    ensures var e := ReconstructionErrors(hdr.net, StandardizeRows(hdr, xs));
      && (forall r :: 0 <= r < |xs| ==> e[r] == AnomalyScore(hdr, xs[r]))
      && PositionsAbove(e, hdr.config.threshold) == set r: nat | r < |xs| && Anomalous(hdr, xs[r])
      && CountAbove(e, hdr.config.threshold) == |set r: nat | r < |xs| && Anomalous(hdr, xs[r])|
  {
    var e := ReconstructionErrors(hdr.net, StandardizeRows(hdr, xs));
    assert forall r :: 0 <= r < |xs| ==> e[r] == AnomalyScore(hdr, xs[r]);
    assert PositionsAbove(e, hdr.config.threshold) == set r: nat | r < |xs| && Anomalous(hdr, xs[r]);
    CountAboveIsCardinality(e, hdr.config.threshold);
  }
}
