/** The autoencoder: a dense ReLU layer from the input features to the
    hidden units, then a linear dense layer back to the input width.
    Kernels are stored as Keras stores them and as the header exports
    them: `encoderWeights[i][j]` connects input i to hidden unit j, and
    `decoderWeights[j][i]` connects hidden unit j to output i.

    The exported configuration record lives here too, since both the
    training script and the embedded header read it. */
module Autoencoder {
  import opened Stats

  /** Widths of the reference model. */
  const INPUT_DIM: nat := 8
  const HIDDEN_DIM: nat := 4

  predicate IsMatrix(m: seq<seq<real>>, rows: nat, cols: nat)
  {
    |m| == rows && forall i :: 0 <= i < |m| ==> |m[i]| == cols
  }

  datatype Network = Network(
    encoderWeights: seq<seq<real>>,
    encoderBias: seq<real>,
    decoderWeights: seq<seq<real>>,
    decoderBias: seq<real>)
  {
    function InputDim(): nat
    {
      |decoderBias|
    }

    function HiddenDim(): nat
    {
      |encoderBias|
    }

    /** Kernel shapes agree with the two bias widths. */
    predicate WellShaped()
    {
      && IsMatrix(encoderWeights, InputDim(), HiddenDim())
      && IsMatrix(decoderWeights, HiddenDim(), InputDim())
    }
  }

  /** The configuration record written next to the weights. */
  datatype ModelConfig = ModelConfig(
    inputDim: nat,
    hiddenDim: nat,
    threshold: real,
    scalerMean: seq<real>,
    scalerStd: seq<real>)

  function Relu(x: real): real
  {
    if x < 0.0 then 0.0 else x
  }

  /** Sum over t < k of `v[t] * m[t][c]`: the product of the row vector v
      with column c of m, accumulated row by row. */
  function ColumnDot(v: seq<real>, m: seq<seq<real>>, c: nat, k: nat): real
    requires k <= |v| && k <= |m|
    requires forall t :: 0 <= t < k ==> c < |m[t]|
  {
    if k == 0 then 0.0 else ColumnDot(v, m, c, k - 1) + v[k - 1] * m[k - 1][c]
  }

  /** The ReLU dense layer. */
  function Encode(net: Network, x: seq<real>): (h: seq<real>)
    requires net.WellShaped() && |x| == net.InputDim()
    ensures |h| == net.HiddenDim()
    ensures NonNegative(h)
  {
    seq(net.HiddenDim(), j requires 0 <= j < net.HiddenDim() =>
      Relu(ColumnDot(x, net.encoderWeights, j, |x|) + net.encoderBias[j]))
  }

  /** The linear dense layer: no activation. */
  function Decode(net: Network, h: seq<real>): (y: seq<real>)
    requires net.WellShaped() && |h| == net.HiddenDim()
    ensures |y| == net.InputDim()
  {
    seq(net.InputDim(), i requires 0 <= i < net.InputDim() =>
      ColumnDot(h, net.decoderWeights, i, |h|) + net.decoderBias[i])
  }

  /** The model's forward pass: decode after encode. */
  function Forward(net: Network, x: seq<real>): (y: seq<real>)
    requires net.WellShaped() && |x| == net.InputDim()
    ensures |y| == |x|
  {
    Decode(net, Encode(net, x))
  }

  /** `model.predict` over a batch of rows. */
  function Predict(net: Network, xs: seq<seq<real>>): (ys: seq<seq<real>>)
    requires net.WellShaped() && IsMatrix(xs, |xs|, net.InputDim())
    ensures IsMatrix(ys, |xs|, net.InputDim())
  {
    seq(|xs|, i requires 0 <= i < |xs| => Forward(net, xs[i]))
  }

  /** Row-wise mean of squared differences, `np.mean(np.square(X - P), axis=1)`. */
  function RowErrors(xs: seq<seq<real>>, ps: seq<seq<real>>): (e: seq<real>)
    requires |xs| == |ps|
    requires forall i :: 0 <= i < |xs| ==> |xs[i]| == |ps[i]| > 0
    ensures |e| == |xs|
    ensures NonNegative(e)
  {
    seq(|xs|, i requires 0 <= i < |xs| => MeanSquaredError(xs[i], ps[i]))
  }

  /** Reconstruction error of every row under the network. */
  function ReconstructionErrors(net: Network, xs: seq<seq<real>>): (e: seq<real>)
    requires net.WellShaped() && net.InputDim() > 0
    requires IsMatrix(xs, |xs|, net.InputDim())
    ensures |e| == |xs|
  {
    RowErrors(xs, Predict(net, xs))
  }

  // ---------------------------------------------------------------------
  // Properties of the layers

  /** Each hidden unit is max(0, pre-activation): never negative, never
      below its pre-activation, and equal to one of the two. */
  lemma HiddenUnitIsRelu(net: Network, x: seq<real>, j: nat)
    requires net.WellShaped() && |x| == net.InputDim() && j < net.HiddenDim()
    ensures var pre := ColumnDot(x, net.encoderWeights, j, |x|) + net.encoderBias[j];
      var h := Encode(net, x)[j];
      h >= 0.0 && h >= pre && (h == pre || h == 0.0) && (pre >= 0.0 ==> h == pre)
  {
  }

  /** The dot product distributes over a sum of vectors. */
  lemma {:induction false} ColumnDotAdditive(u: seq<real>, v: seq<real>, w: seq<real>, m: seq<seq<real>>, c: nat, k: nat)
    requires |u| == |v| == |w| && k <= |u| && k <= |m|
    requires forall t :: 0 <= t < k ==> c < |m[t]|
    requires forall t :: 0 <= t < |u| ==> w[t] == u[t] + v[t]
    ensures ColumnDot(w, m, c, k) == ColumnDot(u, m, c, k) + ColumnDot(v, m, c, k)
  {
    if k > 0 {
      ColumnDotAdditive(u, v, w, m, c, k - 1);
    }
  }

  /** The decoder has no activation: it is affine, so decoding a sum of
      hidden vectors adds their decodings less one copy of the bias. */
  lemma DecoderIsAffine(net: Network, g: seq<real>, h: seq<real>, s: seq<real>)
    requires net.WellShaped() && |g| == |h| == |s| == net.HiddenDim()
    requires forall j :: 0 <= j < |s| ==> s[j] == g[j] + h[j]
    ensures forall i :: 0 <= i < net.InputDim() ==>
      Decode(net, s)[i] == Decode(net, g)[i] + Decode(net, h)[i] - net.decoderBias[i]
  {
    forall i | 0 <= i < net.InputDim()
      ensures Decode(net, s)[i] == Decode(net, g)[i] + Decode(net, h)[i] - net.decoderBias[i]
    {
      ColumnDotAdditive(g, h, s, net.decoderWeights, i, |s|);
    }
  }
}
