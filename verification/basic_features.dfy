/** The reduced extractor of the early prototype experiment: the same
    window enumeration as `Features`, but only four plain statistics per
    window (mean, standard deviation, maximum, minimum), with no centring
    and no spectrum. */
module BasicFeatures {
  import opened Stats
  import opened Features

  const BASIC_FEATURE_COUNT: nat := 4

  datatype BasicRow = BasicRow(mean: real, std: real, peak: real, low: real)
  {
    /** The row in column order. */
    function ToRow(): (row: seq<real>)
      ensures |row| == BASIC_FEATURE_COUNT
    {
      [mean, std, peak, low]
    }
  }

  function BasicFromRow(row: seq<real>): BasicRow
    requires |row| == BASIC_FEATURE_COUNT
  {
    BasicRow(row[0], row[1], row[2], row[3])
  }

  /** The column order is a bijection between records and rows of four. */
  lemma BasicRowRoundTrip(v: BasicRow, row: seq<real>)
    ensures BasicFromRow(v.ToRow()) == v
    ensures |row| == BASIC_FEATURE_COUNT ==> BasicFromRow(row).ToRow() == row
  {
  }

  function BasicWindowFeatures(w: seq<real>, sqrt: real -> real): BasicRow
    requires |w| > 0
  {
    BasicRow(Mean(w), Std(w, sqrt), Max(w), Min(w))
  }

  /** `extract_basic_features`: one row per window, in window order. */
  function ExtractBasicFeatures(signal: seq<real>, sqrt: real -> real): (rows: seq<BasicRow>)
    ensures |rows| == WindowCount(|signal|)
    ensures forall a :: 0 <= a < |rows| ==>
      HOP_SIZE * a + WINDOW_SIZE < |signal|
      && rows[a] == BasicWindowFeatures(Window(signal, HOP_SIZE * a), sqrt)
  {
    var starts := WindowStarts(|signal|);
    WindowStartsExactly(|signal|);
    seq(|starts|, a requires 0 <= a < |starts| => BasicWindowFeatures(Window(signal, starts[a]), sqrt))
  }

  /** The extraction loop, as in `Features.ExtractFeaturesLoop`. */
  method ExtractBasicFeaturesLoop(signal: seq<real>, sqrt: real -> real) returns (rows: seq<BasicRow>)
    ensures rows == ExtractBasicFeatures(signal, sqrt)
  {
    rows := [];
    var i := 0;
    while i < |signal| - WINDOW_SIZE
      invariant i == HOP_SIZE * |rows|
      invariant i == 0 || i - HOP_SIZE + WINDOW_SIZE < |signal|
      invariant forall a :: 0 <= a < |rows| ==>
        HOP_SIZE * a + WINDOW_SIZE < |signal|
        && rows[a] == BasicWindowFeatures(Window(signal, HOP_SIZE * a), sqrt)
      decreases |signal| - i
    {
      AppendBasicRow(signal, sqrt, rows);
      rows := rows + [BasicWindowFeatures(Window(signal, i), sqrt)];
      i := i + HOP_SIZE;
    }
    LoopExitCount(|signal|, |rows|);
    BasicRowsAreExtraction(signal, sqrt, rows);
  }

  /** One step of the extraction loop keeps its row-by-row invariant. */
  lemma AppendBasicRow(signal: seq<real>, sqrt: real -> real, rows: seq<BasicRow>)
    requires HOP_SIZE * |rows| + WINDOW_SIZE < |signal|
    requires forall a :: 0 <= a < |rows| ==>
      HOP_SIZE * a + WINDOW_SIZE < |signal|
      && rows[a] == BasicWindowFeatures(Window(signal, HOP_SIZE * a), sqrt)
    ensures var next := rows + [BasicWindowFeatures(Window(signal, HOP_SIZE * |rows|), sqrt)];
      forall a :: 0 <= a < |next| ==>
        HOP_SIZE * a + WINDOW_SIZE < |signal|
        && next[a] == BasicWindowFeatures(Window(signal, HOP_SIZE * a), sqrt)
  {
  }

  /** Rows agreeing with `ExtractBasicFeatures` in number and window by
      window are its result. */
  lemma BasicRowsAreExtraction(signal: seq<real>, sqrt: real -> real, rows: seq<BasicRow>)
    requires |rows| == WindowCount(|signal|)
    requires forall a :: 0 <= a < |rows| ==>
      HOP_SIZE * a + WINDOW_SIZE < |signal|
      && rows[a] == BasicWindowFeatures(Window(signal, HOP_SIZE * a), sqrt)
    ensures rows == ExtractBasicFeatures(signal, sqrt)
  {
  }

  /** Both extractors take the same windows: row a of each describes the
      slice starting at 32 a. */
  lemma SameWindows(signal: seq<real>, magnitudes: seq<real> -> seq<real>, sqrt: real -> real)
    requires SpectrumShape(magnitudes)
    ensures |ExtractBasicFeatures(signal, sqrt)| == |ExtractFeatures(signal, magnitudes, sqrt)|
    ensures forall a :: 0 <= a < |ExtractBasicFeatures(signal, sqrt)| ==>
      ExtractBasicFeatures(signal, sqrt)[a].mean == ExtractFeatures(signal, magnitudes, sqrt)[a].mean
      && ExtractBasicFeatures(signal, sqrt)[a].peak == ExtractFeatures(signal, magnitudes, sqrt)[a].peak
  {
  }

  /** In every row the minimum, the mean and the maximum are ordered, the
      standard deviation is non-negative, and it vanishes exactly on a
      constant window. */
  lemma BasicRowBounds(signal: seq<real>, sqrt: real -> real, a: nat)
    requires IsSqrt(sqrt) && a < |ExtractBasicFeatures(signal, sqrt)|
    ensures var r := ExtractBasicFeatures(signal, sqrt)[a];
      var w := Window(signal, HOP_SIZE * a);
      && r.low <= r.mean <= r.peak
      && r.std >= 0.0
      && (r.std == 0.0 <==> Constant(w))
  {
    var w := Window(signal, HOP_SIZE * a);
    MeanBetweenMinAndMax(w);
    StdZeroIff(w, sqrt);
  }
}
