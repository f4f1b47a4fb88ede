# Activity-recognition dataset assembly, modelled in Dafny

This project models the dataset-assembly and evaluation logic of the
training program `src/bin/make_decide_action_model.rs`. The program turns
tri-axial accelerometer recordings, one CSV file per activity, into a
decision-tree training set. It then reports the classifier's accuracy on a
held-out split.

The model covers this sequence of steps:

- **Source loop** (`Assembly`). The program goes through a fixed, ordered
  mapping from file name to activity label (`sit.csv` → 0 …
  `four-legged-walking.csv` → 4).
  - A file that does not exist is skipped.
  - A file that cannot be opened or decoded stops the run with an error.
  - Each other file is sliced into windows.
- **Sliding-window slicer** (`Windowing`). An offset walks from 0 in steps
  of `w / 2`, where `w` is the window size. While `offset + w` does not pass
  the end of the recording, the slicer takes the next `w` records. It
  pushes one feature row and one copy of the source's label per window. The
  partial tail is dropped.
- **Empty-dataset guard and matrix fill** (`Pipeline`, `FeatureMatrix`).
  If no window was extracted at all, the run stops. Otherwise the feature
  rows are copied into a zero-initialised `n_samples × 6` matrix, placed
  beside the label vector.
- **Accuracy count** (`Evaluation`). Predictions and true labels are zipped
  together. The agreeing pairs are counted.

The environment is modelled as follows:

- The data directory is a `map` from file name to contents. A name that is
  not a key is a file that does not exist.
- The feature extractor `extract_window_features` is a function parameter
  `extract`. Its body lives in a library that is not part of this model.
- The window size `WINDOW_SIZE` is a parameter `w`. Its value is defined in
  that same library.
- `AccelData` is defined in that library too. The model assumes it holds
  three axes `x, y, z`. The readings' numeric fields and the `f32` features
  are `real` values. They are only copied, never computed with.
- Accuracy is kept as the integer pair `(correct, total)`.

The imperative parts of the source are written as methods with loops:

- the slicing `while` loop (`SlideWindows`);
- the source `for` loop (`CollectFeatures`);
- the nested matrix fill (`FillMatrix`);
- the data-preparation sequence (`PrepareDataset`).

Three of these methods are proved against a function:

- `Windows` and `Extracted` for the slicer;
- `Collect` for the source loop;
- `Build` for the whole preparation.

`FillMatrix` is proved cell by cell against its input sequence of feature
rows, not against a function.

The lemmas state the program's properties about those functions.

Every `w` here satisfies `w >= 2`. For `w < 2` the stride `w / 2` is zero,
and the source's loop never ends once one window fits. `SmallWindowNeverAdvances`
states this.

The comment above the slicing loop calls the windows "non-overlapping".
The code advances by `w / 2` records, so consecutive windows share
`w - w / 2` records (half a window, for even `w`). The model follows the
code.

## Model

| member | source | states |
|---|---|---|
| `Windowing.Starts` | src/bin/make_decide_action_model.rs:44-51 | every offset at which a window is taken lies at or after the first offset, and the whole window fits: `offset + w <= len`; there is a window exactly when the first one fits |
| `Windowing.StartsAt` | src/bin/make_decide_action_model.rs:44-50 | the k-th window start is `k * (w/2)` past the first offset |
| `Windowing.StartsCount` | src/bin/make_decide_action_model.rs:44-51 | the number of window starts from offset `i` is `(n - w - i) / (w/2) + 1` when one window fits, else 0 |
| `Windowing.Windows` | src/bin/make_decide_action_model.rs:45-46 | one window per start offset, each exactly `w` records long |
| `Windowing.Extracted` | src/bin/make_decide_action_model.rs:47-48 | defines the feature rows of a run of windows: one row per window, the extractor applied to that window, in window order |
| `Windowing.WindowCountExact` | src/bin/make_decide_action_model.rs:44-51 | a recording of N records yields exactly `(N - w) / (w/2) + 1` windows when `N >= w`, and none exactly when `N < w` |
| `Windowing.WindowAt` | src/bin/make_decide_action_model.rs:44-50 | for every window index k, `k*(w/2) + w <= len` and window k is the slice `data[k*(w/2) .. k*(w/2) + w]` |
| `Windowing.StartsAscend` | src/bin/make_decide_action_model.rs:44-50 | window start offsets strictly ascend: a later window starts further on |
| `Windowing.WindowsUnfold` | src/bin/make_decide_action_model.rs:45-50 | taking the window at offset `i` leaves exactly the windows from offset `i + w/2` on |
| `Windowing.SmallWindowNeverAdvances` | src/bin/make_decide_action_model.rs:45-50 | with `w < 2` an offset whose window fits does not move and still fits, so the loop does not terminate |
| `Windowing.SlideWindows` | src/bin/make_decide_action_model.rs:44-51 | the loop appends the extracted feature rows of its windows in order and `WindowCount(N, w)` copies of the source's label, so the two vectors grow by the same amount |
| `Assembly.ActivityMapping` | src/bin/make_decide_action_model.rs:17-23 | the program's mapping has five entries with pairwise distinct file names, labelled 0 to 4 by position |
| `Assembly.Step` | src/bin/make_decide_action_model.rs:30-51 | one iteration of the source loop: an earlier error or a missing file leaves the state unchanged; it fails exactly when the state had failed or the file exists but cannot be read; otherwise rows and labels are only appended, equally many, every new label being the source's |
| `Assembly.Collect` | src/bin/make_decide_action_model.rs:29-52 | after the loop over the mapping `features` and `labels` have equal length, and the only error it stops with is a read error |
| `Assembly.StepParsed` | src/bin/make_decide_action_model.rs:44-51 | processing an existing, decoded file appends its extracted rows and `WindowCount(N, w)` copies of its label |
| `Assembly.ErrorAborts` | src/bin/make_decide_action_model.rs:36-41 | once a read error has stopped the loop, later entries change nothing |
| `Assembly.ErrorIsFirstUnreadable` | src/bin/make_decide_action_model.rs:36-41 | the loop fails exactly when some mapped file exists but cannot be read, and the error is that of the first such file |
| `Assembly.CollectCount` | src/bin/make_decide_action_model.rs:29-51 | the number of rows and of labels equals the sum of the closed-form window counts of the existing sources |
| `Assembly.CollectAligned` | src/bin/make_decide_action_model.rs:44-49 | the row and the label at every index come from one source: the label is that source's label, and the row is the summary of one window of that source alone |
| `Assembly.CollectLabelRuns` | src/bin/make_decide_action_model.rs:29-49 | the label vector is the concatenation, in mapping order, of one run of each existing, decoded source's label, as long as that source's closed-form window count |
| `Assembly.CollectFeatureRuns` | src/bin/make_decide_action_model.rs:29-47 | the feature rows are the concatenation, in mapping order, of each existing, decoded source's extracted rows in window order: file order, then window order within a file |
| `Assembly.CollectIndexExact` | src/bin/make_decide_action_model.rs:44-50 | after the rows of the earlier sources (`b` of them), row `b + q` of a decoded source is the extractor applied to its records `q*(w/2) .. q*(w/2) + w`, and label `b + q` is that source's label, for every window index `q` |
| `Assembly.CollectSorted` | src/bin/make_decide_action_model.rs:17-49 | when the mapping lists labels in non-decreasing order, so is the label vector |
| `Assembly.ActivityLabelsSorted` | src/bin/make_decide_action_model.rs:17-23 | with the program's own mapping (labels 0 to 4 in order), the label vector is sorted before shuffling, whatever files exist |
| `Assembly.MissingSkipped` | src/bin/make_decide_action_model.rs:31-34 | missing files contribute nothing: the loop over the mapping gives the same result as the loop over the existing files alone |
| `Assembly.CollectFeatures` | src/bin/make_decide_action_model.rs:29-52 | the source loop (skip a missing file, stop on a read error, slice the others) computes `Collect` |
| `Pipeline.Build` | src/bin/make_decide_action_model.rs:54-56 | the empty-dataset guard: a passing build has at least one sample and as many labels as rows; the empty-dataset error arises only when the loop collected no row and no label; any other error is the loop's own |
| `Pipeline.TotalWindowsZero` | src/bin/make_decide_action_model.rs:44-51 | the total window count is zero exactly when every decoded source is shorter than one window |
| `Pipeline.EmptyDatasetIff` | src/bin/make_decide_action_model.rs:54-56 | the run stops with the empty-dataset error exactly when every mapped file is missing, or decodes and is shorter than one window |
| `Pipeline.AllMissingIsEmpty` | src/bin/make_decide_action_model.rs:29-56 | with every mapped file missing the run stops with the empty-dataset error |
| `Pipeline.BuildSamples` | src/bin/make_decide_action_model.rs:54-58 | a build that passes the guard has at least one sample, as many labels as rows (the closed-form total), and every row traced to its labelled source |
| `Pipeline.TwoActivitiesExample` | src/bin/make_decide_action_model.rs:17-56 | two 100-record files for labels 0 and 1, the other three missing, `w = 20`: 9 + 9 samples, labelled nine 0s then nine 1s |
| `Pipeline.PrepareDataset` | src/bin/make_decide_action_model.rs:54-68 | fails with exactly the error of `Build`; otherwise the targets are the label vector and the matrix is freshly allocated, `n_samples × 6`, with cell `[i, j]` equal to feature `j` of row `i` |
| `FeatureMatrix.FillMatrix` | src/bin/make_decide_action_model.rs:58-64 | the new matrix has shape `n_samples × 6` and every cell `[i, j]` holds `features[i][j]` |
| `Evaluation.CountCorrect` | src/bin/make_decide_action_model.rs:80-84 | the number of agreeing zipped pairs is at most the length of either sequence |
| `Evaluation.CountIsMatches` | src/bin/make_decide_action_model.rs:80-84 | the zip-filter-count equals the number of indices below the shorter length where prediction and truth agree |
| `Evaluation.AllCorrectIff` | src/bin/make_decide_action_model.rs:80-85 | for sequences of equal length every position is correct exactly when the predictions equal the truth |
| `Evaluation.NoneCorrectIff` | src/bin/make_decide_action_model.rs:80-85 | the count is 0 exactly when prediction and truth differ at every index the zip reaches |
| `Evaluation.TestAccuracy` | src/bin/make_decide_action_model.rs:79-85 | the accuracy pair satisfies `0 <= correct <= total`, where `total` is the number of true labels |

## Left out

- Opening and CSV-decoding a file (src/bin/make_decide_action_model.rs:36-41) is not modelled; these are file I/O and a foreign decoder. A data file is either its decoded records or a failure, and the failure is propagated as `ReadError`. The program passes on the `io::Error` or `csv::Error` itself, which does not carry the path; the file name in `ReadError` is the model's tag for which file failed.
- The "file not found" warning on standard error (line 32) is not modelled; it is console output.
- `extract_window_features` is a parameter of the model. Its body is in a library that is not part of this model. Whatever the extractor does with a window of another length is not modelled; the slicer only hands it windows of exactly `w` records.
- The seeded `shuffle` and `split_with_ratio(0.8)` (lines 70-71) are not modelled; they are library code that is not part of this model.
- Decision-tree fitting and prediction (lines 74-76) are not modelled; they are an external classifier. The predictions enter `Evaluation` as an arbitrary sequence.
- The accuracy as an `f32` ratio and the printed percentage (lines 85-90) are not modelled; they are floating point and console output. An empty test split would make the float ratio NaN; the model keeps `(correct, total)`.
- The TikZ export and the bincode snapshot (lines 92-99) are not modelled; they are file output through foreign serializers.
- `web/main.js` is not modelled; it is browser UI code.
- `usize` overflow of `i + WINDOW_SIZE` is not modelled. Offsets are unbounded integers here, and the sum cannot overflow for a recording held in memory.
- Equal lengths of predictions and truth are not required as a precondition. The code zips the two and stops at the shorter one, and the model follows that, sequences of any lengths included.
