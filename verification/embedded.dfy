/** The two entry points of the generated C++ header: `runInference`
    standardises a raw feature vector against the exported scaler, runs
    the encoder (ReLU) and the decoder (linear), and returns the mean
    squared error between the standardised input and its reconstruction;
    `isAnomalous` compares that score with the exported threshold using a
    strict `>`.

    The header performs no validation: it divides by each scaler entry
    and indexes the weight arrays by the declared widths. Those are the
    preconditions gathered in `Header.Valid`. */
module Embedded {
  import opened Stats
  import opened Autoencoder

  /** The compile-time constants the header defines. */
  datatype Header = Header(config: ModelConfig, net: Network)
  {
    predicate Valid()
    {
      && config.inputDim > 0
      && net.WellShaped()
      && net.InputDim() == config.inputDim
      && net.HiddenDim() == config.hiddenDim
      && |config.scalerMean| == config.inputDim
      && |config.scalerStd| == config.inputDim
      && NoZeros(config.scalerStd)
    }
  }

  predicate NoZeros(s: seq<real>)
  {
    forall i :: 0 <= i < |s| ==> s[i] != 0.0
  }

  /** z-score of every feature against the stored scaler statistics. */
  function Standardize(x: seq<real>, mean: seq<real>, std: seq<real>): (z: seq<real>)
    requires |x| == |mean| == |std| && NoZeros(std)
    ensures |z| == |x|
    ensures forall i :: 0 <= i < |x| ==> z[i] * std[i] + mean[i] == x[i]
  {
    ZScoresScaleBack(x, mean, std);
    seq(|x|, i requires 0 <= i < |x| => (x[i] - mean[i]) / std[i])
  }

  lemma ZScoresScaleBack(x: seq<real>, mean: seq<real>, std: seq<real>)
    requires |x| == |mean| == |std| && NoZeros(std)
    ensures forall i :: 0 <= i < |x| ==> (x[i] - mean[i]) / std[i] * std[i] + mean[i] == x[i]
  {
    forall i | 0 <= i < |x|
      ensures (x[i] - mean[i]) / std[i] * std[i] + mean[i] == x[i]
    {
      DivMulCancel(x[i] - mean[i], std[i]);
    }
  }

  /** Undo a standardisation: the inverse reference for `Standardize`. */
  function Unstandardize(z: seq<real>, mean: seq<real>, std: seq<real>): (x: seq<real>)
    requires |z| == |mean| == |std|
    ensures |x| == |z|
  {
    seq(|z|, i requires 0 <= i < |z| => z[i] * std[i] + mean[i])
  }

  /** The score `runInference` returns. */
  function AnomalyScore(hdr: Header, features: seq<real>): (score: real)
    requires hdr.Valid() && |features| == hdr.config.inputDim
    ensures score >= 0.0
  {
    var z := Standardize(features, hdr.config.scalerMean, hdr.config.scalerStd);
    MeanSquaredError(z, Forward(hdr.net, z))
  }

  /** The verdict `isAnomalous` returns. */
  predicate Anomalous(hdr: Header, features: seq<real>)
    requires hdr.Valid() && |features| == hdr.config.inputDim
  {
    AnomalyScore(hdr, features) > hdr.config.threshold
  }

  /** The standardisation loop of `runInference`. */
  method ScaleFeatures(features: seq<real>, mean: seq<real>, std: seq<real>) returns (scaled: seq<real>)
    requires |features| == |mean| == |std| && NoZeros(std)
    ensures scaled == Standardize(features, mean, std)
  {
    scaled := [];
    for i := 0 to |features|
      invariant |scaled| == i
      invariant forall k :: 0 <= k < i ==> scaled[k] == (features[k] - mean[k]) / std[k]
    {
      scaled := scaled + [(features[i] - mean[i]) / std[i]];
    }
  }

  /** The encoder loops of `runInference`: each hidden unit starts at 0,
      accumulates the weighted inputs, adds its bias and is clamped at 0. */
  method EncodeLoop(net: Network, scaled: seq<real>) returns (hidden: seq<real>)
    requires net.WellShaped() && |scaled| == net.InputDim()
    ensures hidden == Encode(net, scaled)
  {
    var n, hd := net.InputDim(), net.HiddenDim();
    ghost var enc := Encode(net, scaled);
    hidden := seq(hd, _ => 0.0);
    for j := 0 to hd
      invariant |hidden| == hd
      invariant forall k :: 0 <= k < j ==> hidden[k] == enc[k]
      invariant forall k :: j <= k < hd ==> hidden[k] == 0.0
    {
      for i := 0 to n
        invariant |hidden| == hd
        invariant hidden[j] == ColumnDot(scaled, net.encoderWeights, j, i)
        invariant forall k :: 0 <= k < j ==> hidden[k] == enc[k]
        invariant forall k :: j < k < hd ==> hidden[k] == 0.0
      {
        hidden := hidden[j := hidden[j] + scaled[i] * net.encoderWeights[i][j]];
      }
      hidden := hidden[j := hidden[j] + net.encoderBias[j]];
      if hidden[j] < 0.0 {
        hidden := hidden[j := 0.0];
      }
    }
  }

  /** The decoder loops of `runInference`: each output starts at 0,
      accumulates the weighted hidden units and adds its bias. */
  method DecodeLoop(net: Network, hidden: seq<real>) returns (reconstructed: seq<real>)
    requires net.WellShaped() && |hidden| == net.HiddenDim()
    ensures reconstructed == Decode(net, hidden)
  {
    var n, hd := net.InputDim(), net.HiddenDim();
    ghost var dec := Decode(net, hidden);
    reconstructed := seq(n, _ => 0.0);
    for i := 0 to n
      invariant |reconstructed| == n
      invariant forall k :: 0 <= k < i ==> reconstructed[k] == dec[k]
      invariant forall k :: i <= k < n ==> reconstructed[k] == 0.0
    {
      for j := 0 to hd
        invariant |reconstructed| == n
        invariant reconstructed[i] == ColumnDot(hidden, net.decoderWeights, i, j)
        invariant forall k :: 0 <= k < i ==> reconstructed[k] == dec[k]
        invariant forall k :: i < k < n ==> reconstructed[k] == 0.0
      {
        reconstructed := reconstructed[i := reconstructed[i] + hidden[j] * net.decoderWeights[j][i]];
      }
      reconstructed := reconstructed[i := reconstructed[i] + net.decoderBias[i]];
    }
  }

  /** The error loop of `runInference`: the squared differences summed
      and divided by the input width. */
  method ErrorLoop(scaled: seq<real>, reconstructed: seq<real>) returns (error: real)
    requires |scaled| == |reconstructed| > 0
    ensures error == MeanSquaredError(scaled, reconstructed)
  {
    ghost var d := SquaredDifferences(scaled, reconstructed);
    var sum := 0.0;
    for i := 0 to |scaled|
      invariant sum == Sum(d[..i])
    {
      var diff := scaled[i] - reconstructed[i];
      assert d[..i + 1][..i] == d[..i];
      sum := sum + diff * diff;
    }
    assert d[..|scaled|] == d;
    error := sum / |scaled| as real;
  }

  /** `runInference`: standardise, encode, decode, score. */
  method RunInference(hdr: Header, features: seq<real>) returns (score: real)
    requires hdr.Valid() && |features| == hdr.config.inputDim
    ensures score == AnomalyScore(hdr, features)
  {
    var scaled := ScaleFeatures(features, hdr.config.scalerMean, hdr.config.scalerStd);
    var hidden := EncodeLoop(hdr.net, scaled);
    var reconstructed := DecodeLoop(hdr.net, hidden);
    score := ErrorLoop(scaled, reconstructed);
  }

  /** `isAnomalous`: the score compared with the threshold. */
  method IsAnomalous(hdr: Header, features: seq<real>) returns (anomalous: bool)
    requires hdr.Valid() && |features| == hdr.config.inputDim
    ensures anomalous <==> AnomalyScore(hdr, features) > hdr.config.threshold
  {
    var reconError := RunInference(hdr, features);
    anomalous := reconError > hdr.config.threshold;
  }

  // ---------------------------------------------------------------------
  // Properties

  /** Standardising and undoing it are mutually inverse. */
  lemma StandardizeRoundTrip(x: seq<real>, mean: seq<real>, std: seq<real>)
    requires |x| == |mean| == |std| && NoZeros(std)
    ensures Unstandardize(Standardize(x, mean, std), mean, std) == x
    ensures Standardize(Unstandardize(x, mean, std), mean, std) == x
  {
    var z := Standardize(x, mean, std);
    var u := Unstandardize(z, mean, std);
    forall i | 0 <= i < |x|
      ensures u[i] == x[i]
    {
      DivMulCancel(x[i] - mean[i], std[i]);
    }
    var v := Unstandardize(x, mean, std);
    var w := Standardize(v, mean, std);
    forall i | 0 <= i < |x|
      ensures w[i] == x[i]
    {
      MulDivCancel(x[i], std[i]);
    }
  }

  lemma DivMulCancel(a: real, b: real)
    requires b != 0.0
    ensures a / b * b == a
  {
  }

  lemma MulDivCancel(a: real, b: real)
    requires b != 0.0
    ensures a * b / b == a
  {
  }

  /** The score vanishes exactly when the network reproduces the
      standardised input. */
  lemma ScoreZeroIff(hdr: Header, features: seq<real>)
    requires hdr.Valid() && |features| == hdr.config.inputDim
    ensures var z := Standardize(features, hdr.config.scalerMean, hdr.config.scalerStd);
      AnomalyScore(hdr, features) == 0.0 <==> Forward(hdr.net, z) == z
  {
    var z := Standardize(features, hdr.config.scalerMean, hdr.config.scalerStd);
    MeanSquaredErrorZeroIff(z, Forward(hdr.net, z));
  }

  /** The comparison is strict: a score equal to the threshold is normal,
      and a perfectly reconstructed input is normal under any
      non-negative threshold. */
  lemma ThresholdBoundary(hdr: Header, features: seq<real>)
    requires hdr.Valid() && |features| == hdr.config.inputDim
    ensures AnomalyScore(hdr, features) == hdr.config.threshold ==> !Anomalous(hdr, features)
    ensures var z := Standardize(features, hdr.config.scalerMean, hdr.config.scalerStd);
      hdr.config.threshold >= 0.0 && Forward(hdr.net, z) == z ==> !Anomalous(hdr, features)
    ensures hdr.config.threshold < 0.0 ==> Anomalous(hdr, features)
  {
    ScoreZeroIff(hdr, features);
  }

  /** The two-input, one-hidden-unit network with unit weights and zero
      biases, fed the standardised vector [1, 1]: the hidden unit is 2,
      the reconstruction is [2, 2] and the score is 1. */
  lemma TinyNetworkScore()
    ensures var net := Network([[1.0], [1.0]], [0.0], [[1.0, 1.0]], [0.0, 0.0]);
      var hdr := Header(ModelConfig(2, 1, 1.0, [0.0, 0.0], [1.0, 1.0]), net);
      && hdr.Valid()
      && Encode(net, [1.0, 1.0]) == [2.0]
      && Forward(net, [1.0, 1.0]) == [2.0, 2.0]
      && AnomalyScore(hdr, [1.0, 1.0]) == 1.0
      && !Anomalous(hdr, [1.0, 1.0])
  {
    var net := Network([[1.0], [1.0]], [0.0], [[1.0, 1.0]], [0.0, 0.0]);
    var hdr := Header(ModelConfig(2, 1, 1.0, [0.0, 0.0], [1.0, 1.0]), net);
    var x := [1.0, 1.0];
    TinyNetworkForward();
    assert Standardize(x, [0.0, 0.0], [1.0, 1.0]) == x;
    var y := Forward(net, x);
    var d := SquaredDifferences(x, y);
    assert d == [1.0, 1.0];
    assert d[..1] == [1.0];
    assert Sum(d) == 2.0;
    assert MeanSquaredError(x, y) == 1.0;
  }

  /** The forward pass of the 2-1-2 network on [1, 1]. */
  lemma TinyNetworkForward()
    ensures var net := Network([[1.0], [1.0]], [0.0], [[1.0, 1.0]], [0.0, 0.0]);
      && Encode(net, [1.0, 1.0]) == [2.0]
      && Forward(net, [1.0, 1.0]) == [2.0, 2.0]
  {
    var net := Network([[1.0], [1.0]], [0.0], [[1.0, 1.0]], [0.0, 0.0]);
    var x := [1.0, 1.0];
    assert ColumnDot(x, net.encoderWeights, 0, 2) == 2.0;
    assert Encode(net, x) == [2.0];
    assert ColumnDot([2.0], net.decoderWeights, 0, 1) == 2.0;
    assert ColumnDot([2.0], net.decoderWeights, 1, 1) == 2.0;
  }
}
