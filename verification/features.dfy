/** The sliding-window feature extractor of the dataset generator.

    Windows of 64 samples start at 0 and advance by half a window; the
    loop's upper bound `len - 64` is exclusive, so every slice is full and
    a window ending exactly at the last sample is never taken. Each window
    yields eight features: mean, peak, rms, skewness, kurtosis, dominant
    frequency, harmonic ratio and energy.

    The FFT is not modelled: `magnitudes` maps the mean-centred window to
    the magnitudes of its first 32 (non-negative frequency) bins, which is
    all the extractor reads from it. `sqrt` is the square root, as in
    `Stats`. */
module Features {
  import opened Stats

  const SAMPLE_RATE: real := 100.0
  const WINDOW_SIZE: nat := 64
  /** `window_size // 2`: the hop between window starts. */
  const HOP_SIZE: nat := 32
  /** `len(window) // 2`: the bins of the positive half of the spectrum. */
  const SPECTRUM_BINS: nat := 32
  const FEATURE_COUNT: nat := 8

  // ---------------------------------------------------------------------
  // Window enumeration

  /** The starts `range(i, n - 64, 32)`. */
  function StartsFrom(i: nat, n: nat): (r: seq<nat>)
    decreases n - i
    ensures forall a :: 0 <= a < |r| ==> r[a] == i + HOP_SIZE * a && r[a] + WINDOW_SIZE < n
  {
    if i + WINDOW_SIZE < n then [i] + StartsFrom(i + HOP_SIZE, n) else []
  }

  /** The starts of the windows of a signal of n samples. */
  function WindowStarts(n: nat): seq<nat>
  {
    StartsFrom(0, n)
  }

  /** Number of windows: none for n <= 64, otherwise one per multiple of
      32 below n - 64. */
  function WindowCount(n: nat): nat
  {
    if n <= WINDOW_SIZE then 0 else (n - WINDOW_SIZE - 1) / HOP_SIZE + 1
  }

  lemma {:induction false} StartsFromCount(i: nat, n: nat)
    decreases n - i
    ensures |StartsFrom(i, n)| == if i + WINDOW_SIZE < n then (n - WINDOW_SIZE - 1 - i) / HOP_SIZE + 1 else 0
  {
    if i + WINDOW_SIZE < n {
      StartsFromCount(i + HOP_SIZE, n);
    }
  }

  /** The starts are exactly the multiples of 32 strictly below n - 64,
      in increasing order; a signal of at most 64 samples has none, and the
      final full window `n - 64` is never among them. */
  lemma WindowStartsExactly(n: nat)
    ensures |WindowStarts(n)| == WindowCount(n)
    ensures forall a :: 0 <= a < |WindowStarts(n)| ==> WindowStarts(n)[a] == HOP_SIZE * a
    ensures forall k: nat :: k in WindowStarts(n) <==> k % HOP_SIZE == 0 && k + WINDOW_SIZE < n
    ensures n >= WINDOW_SIZE ==> n - WINDOW_SIZE !in WindowStarts(n)
  {
    var r := WindowStarts(n);
    StartsFromCount(0, n);
    forall k: nat | k % HOP_SIZE == 0 && k + WINDOW_SIZE < n
      ensures k in r
    {
      var a := k / HOP_SIZE;
      assert r[a] == k;
    }
  }

  /** The slice `signal[i:i+64]`. */
  function Window(signal: seq<real>, i: nat): (w: seq<real>)
    requires i + WINDOW_SIZE <= |signal|
    ensures |w| == WINDOW_SIZE
  {
    signal[i..i + WINDOW_SIZE]
  }

  // ---------------------------------------------------------------------
  // One row of features

  datatype FeatureVector = FeatureVector(
    mean: real,
    peak: real,
    rms: real,
    skewness: real,
    kurtosis: real,
    dominantFreq: real,
    harmonicRatio: real,
    energy: real)
  {
    /** The row as written to the dataset, in column order. */
    function ToRow(): (row: seq<real>)
      ensures |row| == FEATURE_COUNT
    {
      [mean, peak, rms, skewness, kurtosis, dominantFreq, harmonicRatio, energy]
    }
  }

  /** Read a dataset row back by column position. */
  function FromRow(row: seq<real>): FeatureVector
    requires |row| == FEATURE_COUNT
  {
    FeatureVector(row[0], row[1], row[2], row[3], row[4], row[5], row[6], row[7])
  }

  /** The column order is a bijection between feature records and rows of
      eight reals. */
  lemma RowRoundTrip(v: FeatureVector, row: seq<real>)
    ensures FromRow(v.ToRow()) == v
    ensures |row| == FEATURE_COUNT ==> FromRow(row).ToRow() == row
  {
  }

  /** `window - mean`: the input of the FFT. */
  function Centered(w: seq<real>): (c: seq<real>)
    requires |w| > 0
    ensures |c| == |w|
  {
    seq(|w|, i requires 0 <= i < |w| => w[i] - Mean(w))
  }

  /** `(w - mean) / sd`, element-wise. */
  function ZScores(w: seq<real>, mean: real, sd: real): (z: seq<real>)
    requires sd != 0.0
    ensures |z| == |w|
  {
    seq(|w|, i requires 0 <= i < |w| => (w[i] - mean) / sd)
  }

  /** `s ** 3`, element-wise. */
  function Cubes(s: seq<real>): (r: seq<real>)
    ensures |r| == |s|
  {
    seq(|s|, i requires 0 <= i < |s| => s[i] * Square(s[i]))
  }

  /** `s ** 4`, element-wise. */
  function FourthPowers(s: seq<real>): (r: seq<real>)
    ensures |r| == |s|
    ensures NonNegative(r)
  {
    seq(|s|, i requires 0 <= i < |s| => Square(Square(s[i])))
  }

  /** Skewness, or 0 when the standard deviation is not positive. */
  function Skewness(w: seq<real>, sqrt: real -> real): real
    requires |w| > 0
  {
    var sd := Std(w, sqrt);
    if sd > 0.0 then Mean(Cubes(ZScores(w, Mean(w), sd))) else 0.0
  }

  /** Kurtosis (not in excess), or 0 when the standard deviation is not
      positive. */
  function Kurtosis(w: seq<real>, sqrt: real -> real): real
    requires |w| > 0
  {
    var sd := Std(w, sqrt);
    if sd > 0.0 then Mean(FourthPowers(ZScores(w, Mean(w), sd))) else 0.0
  }

  /** `np.argmax`: the first index holding the maximum. */
  function ArgMaxFirst(s: seq<real>): (r: nat)
    requires |s| > 0
    ensures r < |s|
    ensures forall j :: 0 <= j < |s| ==> s[j] <= s[r]
    ensures forall j :: 0 <= j < r ==> s[j] < s[r]
  {
    if |s| == 1 then 0
    else
      var r := ArgMaxFirst(s[..|s| - 1]);
      if s[|s| - 1] > s[r] then |s| - 1 else r
  }

  /** `argmax(spectrum[1:]) + 1`: the strongest bin, bin 0 excluded. */
  function DominantBin(spectrum: seq<real>): (k: nat)
    requires |spectrum| == SPECTRUM_BINS
    ensures 1 <= k < SPECTRUM_BINS
    ensures forall j :: 1 <= j < SPECTRUM_BINS ==> spectrum[j] <= spectrum[k]
  {
    var tail := spectrum[1..];
    assert forall j :: 1 <= j < SPECTRUM_BINS ==> spectrum[j] == tail[j - 1];
    1 + ArgMaxFirst(tail)
  }

  /** `fftfreq(64, 1/100)[k]` for a bin of the positive half. */
  function BinFrequency(k: nat): real
  {
    k as real * SAMPLE_RATE / WINDOW_SIZE as real
  }

  /** The eight features of one window, given its spectrum magnitudes. */
  function WindowFeatures(w: seq<real>, spectrum: seq<real>, sqrt: real -> real): (f: FeatureVector)
    requires |w| == WINDOW_SIZE && |spectrum| == SPECTRUM_BINS
    ensures f.mean == Mean(w) && f.peak == Max(w)
    ensures f.peak >= f.mean && f.energy >= 0.0
  {
    var mean := Mean(w);
    var peak := Max(w);
    MeanAtMost(w, peak);
    SumNonNegative(Squares(w));
    FeatureVector(
      mean,
      peak,
      sqrt(Mean(Squares(w))),
      Skewness(w, sqrt),
      Kurtosis(w, sqrt),
      BinFrequency(DominantBin(spectrum)),
      if mean > 0.0 then peak / mean else 0.0,
      Sum(Squares(w)) / WINDOW_SIZE as real)
  }

  /** The magnitude map yields 32 non-negative magnitudes for any window. */
  ghost predicate SpectrumShape(magnitudes: seq<real> -> seq<real>)
  {
    forall c :: |magnitudes(c)| == SPECTRUM_BINS && NonNegative(magnitudes(c))
  }

  /** The features of the window starting at i. */
  function FeaturesAt(signal: seq<real>, i: nat, magnitudes: seq<real> -> seq<real>, sqrt: real -> real): FeatureVector
    requires i + WINDOW_SIZE <= |signal| && SpectrumShape(magnitudes)
  {
    var w := Window(signal, i);
    WindowFeatures(w, magnitudes(Centered(w)), sqrt)
  }

  /** `extract_features`: one row per window, in window order. */
  function ExtractFeatures(signal: seq<real>, magnitudes: seq<real> -> seq<real>, sqrt: real -> real): (rows: seq<FeatureVector>)
    requires SpectrumShape(magnitudes)
    ensures |rows| == WindowCount(|signal|)
    ensures forall a :: 0 <= a < |rows| ==>
      HOP_SIZE * a + WINDOW_SIZE < |signal| && rows[a] == FeaturesAt(signal, HOP_SIZE * a, magnitudes, sqrt)
  {
    var starts := WindowStarts(|signal|);
    WindowStartsExactly(|signal|);
    seq(|starts|, a requires 0 <= a < |starts| => FeaturesAt(signal, starts[a], magnitudes, sqrt))
  }

  /** The rows as the dataset's numeric matrix. */
  function FeatureMatrix(rows: seq<FeatureVector>): (m: seq<seq<real>>)
    ensures |m| == |rows|
    ensures forall a :: 0 <= a < |m| ==> |m[a]| == FEATURE_COUNT && FromRow(m[a]) == rows[a]
  {
    seq(|rows|, a requires 0 <= a < |rows| => rows[a].ToRow())
  }

  /** The extraction loop: advance by a hop while the start is below
      `len - 64`, appending one row per window. */
  method ExtractFeaturesLoop(signal: seq<real>, magnitudes: seq<real> -> seq<real>, sqrt: real -> real)
    returns (rows: seq<FeatureVector>)
    requires SpectrumShape(magnitudes)
    ensures rows == ExtractFeatures(signal, magnitudes, sqrt)
  {
    rows := [];
    var i := 0;
    while i < |signal| - WINDOW_SIZE
      invariant i == HOP_SIZE * |rows|
      invariant i == 0 || i - HOP_SIZE + WINDOW_SIZE < |signal|
      invariant forall a :: 0 <= a < |rows| ==>
        HOP_SIZE * a + WINDOW_SIZE < |signal| && rows[a] == FeaturesAt(signal, HOP_SIZE * a, magnitudes, sqrt)
      decreases |signal| - i
    {
      AppendWindowRow(signal, magnitudes, sqrt, rows);
      rows := rows + [FeaturesAt(signal, i, magnitudes, sqrt)];
      i := i + HOP_SIZE;
    }
    LoopExitCount(|signal|, |rows|);
    RowsAreExtraction(signal, magnitudes, sqrt, rows);
  }

  /** One step of the extraction loop keeps its row-by-row invariant. */
  lemma AppendWindowRow(signal: seq<real>, magnitudes: seq<real> -> seq<real>, sqrt: real -> real,
                        rows: seq<FeatureVector>)
    requires SpectrumShape(magnitudes) && HOP_SIZE * |rows| + WINDOW_SIZE < |signal|
    requires forall a :: 0 <= a < |rows| ==>
      HOP_SIZE * a + WINDOW_SIZE < |signal| && rows[a] == FeaturesAt(signal, HOP_SIZE * a, magnitudes, sqrt)
    ensures var next := rows + [FeaturesAt(signal, HOP_SIZE * |rows|, magnitudes, sqrt)];
      forall a :: 0 <= a < |next| ==>
        HOP_SIZE * a + WINDOW_SIZE < |signal| && next[a] == FeaturesAt(signal, HOP_SIZE * a, magnitudes, sqrt)
  {
  }

  /** Rows agreeing with `ExtractFeatures` in number and window by window
      are its result. */
  lemma RowsAreExtraction(signal: seq<real>, magnitudes: seq<real> -> seq<real>, sqrt: real -> real,
                          rows: seq<FeatureVector>)
    requires SpectrumShape(magnitudes) && |rows| == WindowCount(|signal|)
    requires forall a :: 0 <= a < |rows| ==>
      HOP_SIZE * a + WINDOW_SIZE < |signal| && rows[a] == FeaturesAt(signal, HOP_SIZE * a, magnitudes, sqrt)
    ensures rows == ExtractFeatures(signal, magnitudes, sqrt)
  {
  }

  /** The extraction loop stops after exactly `WindowCount(n)` steps: the
      last start it took left a full window inside the signal, the first
      one it refused did not. */
  lemma LoopExitCount(n: nat, count: nat)
    requires HOP_SIZE * count >= n - WINDOW_SIZE
    requires count == 0 || HOP_SIZE * (count - 1) + WINDOW_SIZE < n
    ensures count == WindowCount(n)
  {
  }

  // ---------------------------------------------------------------------
  // Properties of the features

  /** The dominant bin is the first bin from 1 on that attains the maximum
      over bins 1..31: any bin with that description is it. Bin 0 is never
      chosen. */
  lemma DominantBinIsFirstMaximum(spectrum: seq<real>, k: nat)
    requires |spectrum| == SPECTRUM_BINS
    ensures var d := DominantBin(spectrum);
      && (forall j :: 1 <= j < SPECTRUM_BINS ==> spectrum[j] <= spectrum[d])
      && (forall j :: 1 <= j < d ==> spectrum[j] < spectrum[d])
    ensures 1 <= k < SPECTRUM_BINS
      && (forall j :: 1 <= j < SPECTRUM_BINS ==> spectrum[j] <= spectrum[k])
      && (forall j :: 1 <= j < k ==> spectrum[j] < spectrum[k])
      <==> k == DominantBin(spectrum)
  {
    var tail := spectrum[1..];
    var d := DominantBin(spectrum);
    assert forall j :: 1 <= j < SPECTRUM_BINS ==> spectrum[j] == tail[j - 1];
    if 1 <= k < SPECTRUM_BINS
      && (forall j :: 1 <= j < SPECTRUM_BINS ==> spectrum[j] <= spectrum[k])
      && (forall j :: 1 <= j < k ==> spectrum[j] < spectrum[k])
    {
      assert spectrum[k] <= spectrum[d] && spectrum[d] <= spectrum[k];
    }
  }

  /** When all bins are equal, as for a window without variation whose
      spectrum is flat, the tie goes to bin 1, never to bin 0. */
  lemma FlatSpectrumPicksBinOne(spectrum: seq<real>)
    requires |spectrum| == SPECTRUM_BINS && Constant(spectrum)
    ensures DominantBin(spectrum) == 1
    ensures BinFrequency(DominantBin(spectrum)) == 1.5625
  {
    DominantBinIsFirstMaximum(spectrum, 1);
  }

  lemma DivAtLeastOne(a: real, b: real)
    requires b > 0.0 && a >= b
    ensures a / b >= 1.0
  {
    assert a / b * b == a;
  }

  /** Peak and mean, and the harmonic-ratio guard: at least 1 when the mean
      is positive, 0 otherwise; never a division by zero. */
  lemma PeakAndHarmonicRatio(w: seq<real>, spectrum: seq<real>, sqrt: real -> real)
    requires |w| == WINDOW_SIZE && |spectrum| == SPECTRUM_BINS
    ensures var f := WindowFeatures(w, spectrum, sqrt);
      && f.peak >= f.mean
      && (f.mean > 0.0 ==> f.harmonicRatio >= 1.0)
      && (f.mean <= 0.0 ==> f.harmonicRatio == 0.0)
  {
    MeanAtMost(w, Max(w));
    if Mean(w) > 0.0 {
      DivAtLeastOne(Max(w), Mean(w));
    }
  }

  /** A constant window: its peak is its mean, both moments are 0, and
      the harmonic ratio is 1 when the level is positive and 0 otherwise. */
  lemma ConstantWindow(w: seq<real>, spectrum: seq<real>, sqrt: real -> real)
    requires |w| == WINDOW_SIZE && |spectrum| == SPECTRUM_BINS && IsSqrt(sqrt)
    requires Constant(w)
    ensures var f := WindowFeatures(w, spectrum, sqrt);
      && f.peak == f.mean == w[0]
      && f.skewness == 0.0 && f.kurtosis == 0.0
      && (f.mean > 0.0 ==> f.harmonicRatio == 1.0)
      && (f.mean <= 0.0 ==> f.harmonicRatio == 0.0)
  {
    MeanOfConstant(w);
    assert Max(w) == w[0];
    StdZeroIff(w, sqrt);
    var m := w[0];
    if m > 0.0 {
      assert m / m == 1.0;
    }
  }

  /** Energy is non-negative and is the square of the rms. */
  lemma EnergyIsRmsSquared(w: seq<real>, spectrum: seq<real>, sqrt: real -> real)
    requires |w| == WINDOW_SIZE && |spectrum| == SPECTRUM_BINS && IsSqrt(sqrt)
    ensures var f := WindowFeatures(w, spectrum, sqrt);
      f.energy >= 0.0 && f.rms >= 0.0 && f.rms * f.rms == f.energy
  {
    MeanNonNegative(Squares(w));
  }

  /** The dominant frequency is a positive multiple of 100/64 Hz below the
      Nyquist frequency. */
  lemma DominantFrequencyRange(w: seq<real>, spectrum: seq<real>, sqrt: real -> real)
    requires |w| == WINDOW_SIZE && |spectrum| == SPECTRUM_BINS
    ensures var f := WindowFeatures(w, spectrum, sqrt);
      && f.dominantFreq == BinFrequency(DominantBin(spectrum))
      && 1.5625 <= f.dominantFreq < SAMPLE_RATE / 2.0
  {
  }

  /** The moment guard: with a genuine square root, the moments are taken
      exactly when the window varies, and both are 0 for a constant window;
      the kurtosis is never negative. */
  lemma MomentGuard(w: seq<real>, spectrum: seq<real>, sqrt: real -> real)
    requires |w| == WINDOW_SIZE && |spectrum| == SPECTRUM_BINS && IsSqrt(sqrt)
    ensures var f := WindowFeatures(w, spectrum, sqrt);
      && (Std(w, sqrt) > 0.0 <==> !Constant(w))
      && (Constant(w) ==> f.skewness == 0.0 && f.kurtosis == 0.0)
      && (Std(w, sqrt) > 0.0 ==>
            var z := ZScores(w, Mean(w), Std(w, sqrt));
            f.skewness == Mean(Cubes(z)) && f.kurtosis == Mean(FourthPowers(z)))
      && f.kurtosis >= 0.0
  {
    StdZeroIff(w, sqrt);
    var sd := Std(w, sqrt);
    if sd > 0.0 {
      MeanNonNegative(FourthPowers(ZScores(w, Mean(w), sd)));
    }
  }

  /** An all-zero window: every amplitude feature is 0, and the dominant
      frequency is 100/64 Hz rather than 0 when its spectrum is zero. */
  lemma ZeroWindow(w: seq<real>, spectrum: seq<real>, sqrt: real -> real)
    requires |w| == WINDOW_SIZE && |spectrum| == SPECTRUM_BINS && IsSqrt(sqrt)
    requires forall i :: 0 <= i < |w| ==> w[i] == 0.0
    requires forall k :: 0 <= k < |spectrum| ==> spectrum[k] == 0.0
    ensures WindowFeatures(w, spectrum, sqrt) == FeatureVector(0.0, 0.0, 0.0, 0.0, 0.0, 1.5625, 0.0, 0.0)
  {
    MeanOfConstant(w);
    var sq := Squares(w);
    assert forall i :: 0 <= i < |sq| ==> sq[i] == 0.0;
    SumConstant(sq, 0.0);
    SqrtZeroIff(sqrt, 0.0);
    MomentGuard(w, spectrum, sqrt);
    FlatSpectrumPicksBinOne(spectrum);
  }
}
