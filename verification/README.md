# Vibration anomaly detector: numeric pipeline in Dafny

This project models the deterministic numeric core of a machine-vibration anomaly detector, and proves properties of it. The detector has a Python offline pipeline and a C++ header that it generates for an ESP32.

- **Feature extraction** (`Features`, `BasicFeatures`).
  - A signal is cut into 64-sample windows that start every 32 samples.
  - Each window yields eight features: mean, peak, rms, skewness, kurtosis, dominant frequency, harmonic ratio and energy.
  - The early prototype extractor yields four: mean, standard deviation, maximum and minimum.
- **The autoencoder** (`Autoencoder`).
  - A ReLU dense layer maps the 8 features to 4 hidden units.
  - A linear dense layer maps them back to 8 outputs.
  - The module also holds the batch prediction, the per-row reconstruction error and the exported configuration record.
- **Embedded inference** (`Embedded`).
  - The generated `runInference` standardises a feature vector against the stored scaler, runs both layers and returns the mean squared error in the standardised domain.
  - `isAnomalous` compares that score with the threshold using a strict `>`.
  - Its loops are mirrored as methods and proved equal to the functional definitions.
- **Header text** (`CArrays`).
  - The exporter writes each weight matrix one row per line, with rows in braces and a comma after every row but the last.
  - It also reports the parameter count and the byte size.
- **Offline evaluation** (`Training`).
  - The rows are split by label.
  - The threshold is `mean + 2 std` of the validation errors.
  - Detection and false-positive counts use a strict `>`, and are reported as rates.
  - The module also builds the configuration record that is exported.
- **Explanation** (`Explain`).
  - Reconstruction errors are computed on raw rows.
  - Feature importance is the column mean of absolute SHAP values.
  - The module covers the importance percentages, the full ranking and the top three features.

`Stats` holds the numpy reductions these rely on: sum, mean, max, min, population variance and standard deviation.

The model works over Dafny `real`, so there is no float rounding. Three external pieces become parameters:
- **Square root** is a parameter `sqrt`. Properties that depend on it assume `Stats.IsSqrt`: non-negative, and squaring back to its argument.
- **FFT** is a parameter `magnitudes`. It maps the centred window to the 32 magnitudes of the non-negative frequency bins (`Features.SpectrumShape`).
- **Number formatting** is a parameter `fmt`.

Four behaviours of the code that are easy to misread:
- **No load-time validation.** Neither the exporter nor the header checks for a zero scaler entry or a shape mismatch. The model therefore makes these conditions preconditions: `Embedded.Header.Valid` requires the shapes and `NoZeros(scalerStd)`. A fitted scaler never stores a zero scale.
- **Which windows are taken.** The loop bound `len - 64` is exclusive, so the window starting at len - 64 is never taken. Sliding until fewer than 64 samples remain would take one window more exactly when len - 64 is a non-negative multiple of 32 (len = 64, 96, 128, …). For example, a signal of exactly 64 samples yields no rows, while one of 100 samples yields windows at 0 and 32. See `Features.WindowStartsExactly`.
- **All-zero window.** The code skips bin 0 before the arg-max, so an all-zero window reports bin 1, which is 100/64 = 1.5625 Hz, rather than 0 Hz. See `Features.ZeroWindow`.
- **Error domain.** Training and the header compute reconstruction error on standardised rows. They agree row by row for a header that holds the trained constants exactly (`Training.OfflineCountIsDeviceCount`). The exported header holds rounded renderings, so see "## Left out". The explanation script computes errors on raw rows. Its errors agree with the header's score under an identity scaler. See `Explain.ErrorMatchesScoreUnderIdentityScaler`.

## Model

| member | source | states |
|---|---|---|
| Stats.StdZeroIff | ML-MODEL/training/generate_failed_experiment.py:40 | with a genuine square root, the population standard deviation is ≥ 0 and is 0 exactly when every sample is equal |
| Stats.MeanSquaredErrorZeroIff | ML-MODEL/training/train_autoencoder.py:115-117 | the mean of squared differences of two rows is 0 exactly when the rows are equal |
| Stats.MeanBetweenMinAndMax | ML-MODEL/training/generate_failed_experiment.py:39-43 | a non-empty window's mean lies between its minimum and its maximum |
| Stats.MeanZeroIff | ML-MODEL/training/explain_xai.py:143 | a mean of non-negative terms is ≥ 0 and vanishes exactly when every term does |
| Autoencoder.Encode | ML-MODEL/training/train_autoencoder.py:21-23 | the ReLU layer yields one value per hidden unit, none of them negative |
| Autoencoder.Forward | ML-MODEL/training/train_autoencoder.py:26-29 | decoding after encoding returns a vector as wide as the input |
| Autoencoder.Predict | ML-MODEL/training/train_autoencoder.py:111-113 | predicting a batch gives one output row of input width per input row |
| Autoencoder.RowErrors | ML-MODEL/training/train_autoencoder.py:115-117 | one reconstruction error per row, each ≥ 0 |
| Autoencoder.HiddenUnitIsRelu | ML-MODEL/training/export_to_cpp.py:77-83 | each hidden unit is max(0, weighted input sum + bias): ≥ 0, ≥ the pre-activation, and equal to one of the two |
| Autoencoder.DecoderIsAffine | ML-MODEL/training/export_to_cpp.py:85-91 | the decoder has no activation: decoding a sum of hidden vectors adds the decodings, less one copy of the bias |
| Embedded.AnomalyScore | ML-MODEL/training/export_to_cpp.py:93-98 | the score of any valid input is ≥ 0 |
| Embedded.Standardize | ML-MODEL/training/export_to_cpp.py:73 | the z-score has one entry per feature, and z·std + mean gives back every raw feature |
| Embedded.ScaleFeatures | ML-MODEL/training/export_to_cpp.py:71-74 | the standardisation loop computes the element-wise z-score against the stored mean and scale |
| Embedded.EncodeLoop | ML-MODEL/training/export_to_cpp.py:76-83 | the accumulate, add-bias and clamp loops compute exactly the ReLU layer, with the encoder kernel indexed [input][hidden] |
| Embedded.DecodeLoop | ML-MODEL/training/export_to_cpp.py:85-91 | the accumulate and add-bias loops compute exactly the linear layer, with the decoder kernel indexed [hidden][output] |
| Embedded.ErrorLoop | ML-MODEL/training/export_to_cpp.py:93-98 | summing squared differences and dividing by the width gives the mean squared error |
| Embedded.RunInference | ML-MODEL/training/export_to_cpp.py:70-99 | `runInference` returns the mean squared error between the standardised input and its reconstruction |
| Embedded.IsAnomalous | ML-MODEL/training/export_to_cpp.py:101-104 | the verdict is true exactly when the score is strictly above the threshold |
| Embedded.StandardizeRoundTrip | ML-MODEL/training/export_to_cpp.py:71-74 | with no zero scale, standardising and `z * std + mean` are mutually inverse |
| Embedded.ScoreZeroIff | ML-MODEL/training/export_to_cpp.py:93-98 | the score is 0 exactly when the network reproduces the standardised input |
| Embedded.ThresholdBoundary | ML-MODEL/training/export_to_cpp.py:101-104 | a score equal to the threshold is normal; a perfect reconstruction is normal under any threshold ≥ 0; every input is anomalous under a negative threshold |
| Embedded.TinyNetworkScore | ML-MODEL/training/export_to_cpp.py:76-98 | the 2-1-2 network with unit weights and zero biases on input [1, 1] gives hidden [2], reconstruction [2, 2], score 1, and is not anomalous at threshold 1 |
| Embedded.TinyNetworkForward | ML-MODEL/training/export_to_cpp.py:76-91 | the 2-1-2 network with unit weights and zero biases encodes [1, 1] to [2] and reconstructs it as [2, 2] |
| CArrays.EmitMatrix | ML-MODEL/training/export_to_cpp.py:27-36 | the nested loops with their conditional separators write the same text as the row lines concatenated: each row `  {` + its entries joined with `, ` + `}`, a comma after every row but the last, and a line end after every row, the last included |
| CArrays.EmitRow | ML-MODEL/training/export_to_cpp.py:29-32 | the inner loop, writing each literal and a `, ` after all but the last, emits exactly the entries joined with `, ` |
| CArrays.MatrixLinesPerRow | ML-MODEL/training/export_to_cpp.py:27-36 | the first k rows of a matrix initializer take exactly k lines |
| CArrays.MatrixCommas | ML-MODEL/training/export_to_cpp.py:29-35 | the first k rows hold cols - 1 commas each, plus one after every row except the matrix's last |
| CArrays.MatrixBodyShape | ML-MODEL/training/export_to_cpp.py:44-56 | a rows × cols matrix initializer has exactly `rows` lines and `rows * cols - 1` commas |
| CArrays.VectorEntriesShape | ML-MODEL/training/export_to_cpp.py:40-42 | a vector initializer puts its n entries on one line, separated by n - 1 commas |
| CArrays.MatrixBlockShape | ML-MODEL/training/export_to_cpp.py:24-38 | a whole rows × cols declaration takes rows + 3 line ends (the opening line, one per row, `};` and a blank line) and holds rows·cols − 1 commas |
| CArrays.VectorBlockShape | ML-MODEL/training/export_to_cpp.py:40-42 | a whole vector declaration takes 4 line ends and holds n − 1 commas |
| CArrays.OccurrencesJoin | ML-MODEL/training/export_to_cpp.py:41 | joining k items that do not contain a character adds k - 1 copies of the separator's occurrences of it |
| CArrays.SizeOfMatrix | ML-MODEL/training/export_to_cpp.py:118 | a rows × cols matrix has rows * cols entries |
| CArrays.ParameterCounts | ML-MODEL/training/export_to_cpp.py:118-122 | n inputs and h hidden units give 2nh + n + h parameters; with n-long scaler vectors the size is 4 (2nh + 3n + h) bytes |
| CArrays.ReferenceModelSize | ML-MODEL/training/export_to_cpp.py:118-122 | the 8-4-8 model reports 76 parameters and 368 bytes |
| Features.StartsFrom | ML-MODEL/training/generate_dataset.py:68 | the a-th start is i + 32a, and every start leaves a full window strictly inside the signal |
| Features.StartsFromCount | ML-MODEL/training/generate_dataset.py:68 | the number of starts from i is ⌊(n - 65 - i) / 32⌋ + 1 when i + 64 < n, and 0 otherwise |
| Features.WindowStartsExactly | ML-MODEL/training/generate_dataset.py:68 | the starts are exactly the multiples of 32 strictly below len - 64, in increasing order; there are none for len ≤ 64, and len - 64 is never a start |
| Features.Window | ML-MODEL/training/generate_dataset.py:69 | every slice holds exactly 64 samples |
| Features.RowRoundTrip | ML-MODEL/training/generate_dataset.py:94 | the row has 8 columns in the order mean, peak, rms, skewness, kurtosis, dominant_freq, harmonic_ratio, energy, and reading it back by position recovers the record |
| Features.ArgMaxFirst | ML-MODEL/training/generate_dataset.py:89 | `argmax` returns an index holding the maximum, with every earlier entry strictly smaller |
| Features.DominantBinIsFirstMaximum | ML-MODEL/training/generate_dataset.py:85-89 | the chosen bin is in 1..31 and is the unique first bin from 1 on that attains the maximum over bins 1..31 |
| Features.FlatSpectrumPicksBinOne | ML-MODEL/training/generate_dataset.py:88-89 | a flat spectrum picks bin 1, never bin 0, and reports 1.5625 Hz |
| Features.DominantFrequencyRange | ML-MODEL/training/generate_dataset.py:81-89 | the dominant frequency is the chosen bin's frequency, at least 100/64 Hz and below the 50 Hz Nyquist frequency |
| Features.DominantBin | ML-MODEL/training/generate_dataset.py:89 | the chosen bin is never bin 0 and no bin from 1 to 31 is stronger |
| Features.PeakAndHarmonicRatio | ML-MODEL/training/generate_dataset.py:71-72 | the peak is at least the mean; the harmonic ratio is ≥ 1 when the mean is positive and 0 otherwise, with no division by zero |
| Features.ConstantWindow | ML-MODEL/training/generate_dataset.py:71-91 | on a constant window the peak equals the mean, skewness and kurtosis are 0, and the harmonic ratio is 1 for a positive level and 0 otherwise |
| Features.EnergyIsRmsSquared | ML-MODEL/training/generate_dataset.py:92 | energy and rms are ≥ 0 and rms * rms equals the energy |
| Features.MomentGuard | ML-MODEL/training/generate_dataset.py:75-76 | the moments are taken exactly when the window varies, both are 0 for a constant window, and the kurtosis is ≥ 0 |
| Features.ZeroWindow | ML-MODEL/training/generate_dataset.py:71-92 | an all-zero window with a zero spectrum yields (0, 0, 0, 0, 0, 1.5625, 0, 0) |
| Features.WindowFeatures | ML-MODEL/training/generate_dataset.py:71-94 | the record's mean and peak are the window's mean and maximum, the peak is at least the mean, and the energy is non-negative |
| Features.ExtractFeatures | ML-MODEL/training/generate_dataset.py:65-96 | one row per window, ⌊(len - 65) / 32⌋ + 1 rows for len > 64, with row a describing the slice that starts at 32a |
| Features.FeatureMatrix | ML-MODEL/training/generate_dataset.py:94-96 | the dataset matrix has one 8-column row per record, and each row reads back to its record |
| Features.ExtractFeaturesLoop | ML-MODEL/training/generate_dataset.py:65-96 | the append loop over `range(0, len - 64, 32)` yields exactly the rows of `ExtractFeatures` |
| BasicFeatures.BasicRowRoundTrip | ML-MODEL/training/generate_failed_experiment.py:44 | the row has 4 columns in the order mean, std, peak, min, and reading it back recovers the record |
| BasicFeatures.ExtractBasicFeatures | ML-MODEL/training/generate_failed_experiment.py:33-45 | one row per window, with row a describing the slice that starts at 32a |
| BasicFeatures.ExtractBasicFeaturesLoop | ML-MODEL/training/generate_failed_experiment.py:34-45 | the append loop yields exactly the rows of `ExtractBasicFeatures` |
| BasicFeatures.SameWindows | ML-MODEL/training/generate_failed_experiment.py:35-36 | both extractors produce the same number of rows, and row a of each has the same mean and peak |
| BasicFeatures.BasicRowBounds | ML-MODEL/training/generate_failed_experiment.py:39-43 | in every row min ≤ mean ≤ max and std ≥ 0, with std = 0 exactly on a constant window |
| Training.IndicesWithLabel | ML-MODEL/training/train_autoencoder.py:53-54 | the selected positions are valid, carry the label, and are strictly increasing, so row order is kept |
| Training.IndicesWithLabelComplete | ML-MODEL/training/train_autoencoder.py:53-54 | every row with the label is selected |
| Training.SelectByLabel | ML-MODEL/training/train_autoencoder.py:53-54 | `X[y == l]` holds the rows at the selected positions, in order |
| Training.LabelPartition | ML-MODEL/training/train_autoencoder.py:53-54 | with labels in {0, 1} every row is in exactly one subset, and the subset sizes add up to the row count |
| Training.ThresholdBounds | ML-MODEL/training/train_autoencoder.py:119 | the threshold is at least the mean validation error, which is ≥ 0, and equals it exactly when all validation errors are equal |
| Training.DecisionThreshold | ML-MODEL/training/train_autoencoder.py:119 | with a genuine square root, the threshold is at least the mean validation error |
| Training.CountAbove | ML-MODEL/training/train_autoencoder.py:127 | the count never exceeds the number of errors |
| Training.CountAboveIsCardinality | ML-MODEL/training/train_autoencoder.py:127-130 | the count is the number of positions strictly above the threshold, so an error equal to it is not counted |
| Training.CountAboveAntitone | ML-MODEL/training/train_autoencoder.py:127-130 | raising the threshold never raises the count |
| Training.RateBounds | ML-MODEL/training/train_autoencoder.py:128-131 | a rate lies in [0, 100] and is 100 exactly when every sample is counted |
| Training.DetectionBounds | ML-MODEL/training/train_autoencoder.py:119-131 | the threshold is ≥ the mean validation error ≥ 0, both rates lie in [0, 100], and identical validation errors give no false positives |
| Training.ConstantBelowThreshold | ML-MODEL/training/train_autoencoder.py:130-131 | constant errors under a threshold at least their mean give a count and a rate of 0 |
| Training.NoneAbove | ML-MODEL/training/train_autoencoder.py:127 | no error above the threshold means a count of 0 |
| Training.EvaluationBounds | ML-MODEL/training/train_autoencoder.py:111-131 | `evaluate_model`: all errors are ≥ 0, and the threshold and rates obey the bounds above |
| Training.EvaluateModel | ML-MODEL/training/train_autoencoder.py:106-137 | one non-negative error per row of each of the three sets, and both the detection rate and the false-positive rate lie in [0, 100] |
| Training.ExportConfig | ML-MODEL/training/train_autoencoder.py:184-190 | the record carries the threshold unchanged, declares a bottleneck narrower than the input, and with 8-long scaler vectors its scaler lengths equal its input width and the feature count |
| Training.ExportedHeaderValid | ML-MODEL/training/train_autoencoder.py:11-12 | the feature count equals the input width, and an 8-4-8 network with 8-long scaler vectors and no zero scale exports a header that inference accepts for every feature row |
| Training.StandardizeRows | ML-MODEL/training/train_autoencoder.py:60-63 | standardising a batch keeps its shape, and undoing the z-score recovers every raw row |
| Training.OfflineErrorIsHeaderScore | ML-MODEL/training/train_autoencoder.py:111-117 | the offline error of a standardised row is the score the header returns for the raw row |
| Training.OfflineCountIsDeviceCount | ML-MODEL/training/train_autoencoder.py:126-130 | over a batch, each offline error is the device score of its raw row, and the rows counted above the threshold are exactly the rows the header flags as anomalous |
| Explain.ComputeReconstructionError | ML-MODEL/training/explain_xai.py:52-55 | one error per row, each ≥ 0 |
| Explain.ErrorMatchesScoreUnderIdentityScaler | ML-MODEL/training/explain_xai.py:52-55 | under an identity scaler each raw-row error equals the header's anomaly score, and is 0 exactly when the network reproduces the row |
| Explain.AbsColumn | ML-MODEL/training/explain_xai.py:143 | each entry of an absolute column is ≥ 0 and is 0 exactly when the SHAP value is |
| Explain.ColumnImportance | ML-MODEL/training/explain_xai.py:112 | a feature's importance is ≥ 0 and is 0 exactly when all its SHAP values are 0 |
| Explain.FeatureImportance | ML-MODEL/training/explain_xai.py:143 | one non-negative importance per column, 0 exactly for an all-zero column |
| Explain.ImportancePercentages | ML-MODEL/training/explain_xai.py:113 | one percentage per feature (what each percentage is, and its bounds, sum and order, are stated by the lemmas below) |
| Explain.PercentageAt | ML-MODEL/training/explain_xai.py:113 | with non-negative importances and a positive total, a feature's percentage is its importance scaled by 100 / total and lies in [0, 100] |
| Explain.PercentagesBounded | ML-MODEL/training/explain_xai.py:144 | with positive total importance, each percentage lies in [0, 100] |
| Explain.PercentagesSumTo100 | ML-MODEL/training/explain_xai.py:113 | with positive total importance, the percentages add up to 100 |
| Explain.PercentagesKeepOrder | ML-MODEL/training/explain_xai.py:113 | the percentages order the features as the importances do |
| Explain.Insert | ML-MODEL/training/explain_xai.py:115 | insertion keeps the list ascending by importance, adds exactly the new index, and keeps every upper bound that covers the new index |
| Explain.InsertDistinct | ML-MODEL/training/explain_xai.py:115 | inserting a new index into a repeat-free list keeps it repeat-free |
| Explain.ArgsortPrefix | ML-MODEL/training/explain_xai.py:115 | the first n indices are each listed once, in ascending importance |
| Explain.ArgsortPrefixDistinct | ML-MODEL/training/explain_xai.py:115 | the ascending order repeats no index |
| Explain.RankingIsDescendingPermutation | ML-MODEL/training/explain_xai.py:139-140 | the ranking printout visits every feature exactly once, in non-increasing importance |
| Explain.TopFeatures | ML-MODEL/training/explain_xai.py:146 | at most three entries, each a valid feature index, none repeated, in non-increasing importance |
| Explain.TopFeaturesAreMostImportant | ML-MODEL/training/explain_xai.py:146 | the top three are distinct valid indices in non-increasing importance, and no feature left out is more important than the last one listed |
| Explain.TieExample | ML-MODEL/training/explain_xai.py:146 | importances [0.2, 0.7, 0.1] give top features [1, 0, 2], and on a tie the lower index is ranked second |

## Left out

- **Float arithmetic.** IEEE float32/float64 rounding, overflow and NaN are not modelled. Everything is over `real`.
- **The FFT and `np.fft.fftfreq`.**
  - The magnitude spectrum of the centred window is the parameter `magnitudes`. No property relates it to the samples.
  - The bin-to-frequency map is written out as `k * 100 / 64` for the positive half.
- **Square root.** `sqrt` is a parameter, so rms, standard deviation, skewness, kurtosis and the threshold hold for any function obeying `IsSqrt`.
- **Text formatting.**
  - `:.6f` and `:.4f` are the parameter `fmt` in `CArrays`.
  - The header's threshold is the configured threshold rounded to 4 decimals. The model uses the unrounded value.
  - The `#define` preamble, the function bodies and the `#endif` are not modelled.
- Training.OfflineErrorIsHeaderScore: holds for a header that carries the trained weights, biases and scaler exactly. The exporter writes each of them as a 6-decimal `:.6f` rendering, so the real header's score can differ slightly from the offline error. The model uses the unrounded values because rounding a real to six decimals does not preserve the identity being proved.
- Training.OfflineCountIsDeviceCount: holds for a header that carries the trained constants and threshold exactly. The header has 6-decimal weights, biases and scaler and a 4-decimal threshold. With those, a row whose error lies near the threshold can be counted offline and not flagged by the device, or the other way round. The model uses the unrounded values.
- **I/O and console output.** This covers loading `.npy`/JSON/CSV, writing the header and datasets, and all `print` statements.
- **Training.** `fit`, the optimiser, early stopping, `train_test_split`, the `StandardScaler` fit, SHAP's `KernelExplainer`, PCA and `analyze_fault_signatures` are inputs or left out. They are random or opaque library calls, or only print.
- **Plotting.** `visualize_results.py` and every plotting function are left out.
- **Signal generators.** They draw random noise and are left out.
- **`src/mpucheck.cpp` and `src/test_oled.cpp`.** Both are commented out, and they only do sensor and display I/O.
- **Empty inputs.** numpy returns NaN for the mean of an empty array, so the validation and anomaly sets must be non-empty for the threshold and rates.
- **Zero total importance.** Dividing by a zero total gives NaN, so `Explain.ImportancePercentages` requires a positive total.
- **Tie order.** `np.argsort` does not promise an order among equal importances. `Explain.Argsort` fixes one admissible order (stable insertion), and the ranking and top-three properties are proved for that order. `Explain.TieExample` shows the tie order it gives.
- **Window size.** `extract_features` and `extract_basic_features` take `window_size` as a parameter. Every call uses the default 64, so the model fixes 64 and a hop of 32.
- **Printed heuristics.** The hard-coded explanation heuristics printed by `generate_explanation_logic` are plain text with no computation, and are left out.
