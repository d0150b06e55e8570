# sarewt event-processing core in Dafny

This project models the sequential core of `sarewt`, a set of Python helpers for
dijet datasets in particle physics. Each event has two jets, each a fixed number of
particle slots (eta, phi, pT). Each event also has one row of event-level features
(mJJ, j1Pt, j1Eta, ..., DeltaEtaJJ, DeltaPhiJJ). The model covers:

- the selection engine (`sarewt/util.py`):
  - the feature-name table;
  - the keep-mask built from named cuts;
  - applying one mask to several row-aligned arrays.
- the directory loaders (`sarewt/data_reader.py`). `read_events_from_dir` concatenates the mJJ-selected rows of a sorted list of files and stops on a running count. `read_jet_features_from_dir` concatenates every feature row of every readable file, with no cut and no limit. Both pick label lists from the first file that yields them.
- the jet-image rasterizer (`sarewt/event_to_image_serialization.py`):
  - right-inclusive digitization against linspace borders, with Python's `-1` wrap-around;
  - pT accumulation into a per-event grid;
  - normalisation by jet pT;
  - the subsample / mass-cut / rasterize / normalise pipeline.
- the concatenation helpers (`sarewt/event_concatenate_serialization.py`):
  - the part count;
  - numpy's `array_split`;
  - the `_NNN` part-file names;
  - the cut dictionary of `read_concat_write`;
  - UTF-8 encoding of the label lists.

Files and modules:

| file | module | covers |
|---|---|---|
| `wrappers.dfy` | `Wrappers` | `Option`, `Result` |
| `utf8.dfy` | `Utf8` | UTF-8 encoding and strict decoding of label strings |
| `util.dfy` | `Util` | `sarewt/util.py` |
| `data_reader.dfy` | `DataReader` | `sarewt/data_reader.py` |
| `event_to_image_serialization.dfy` | `ImageSerialization` | `sarewt/event_to_image_serialization.py` |
| `event_concatenate_serialization.dfy` | `ConcatSerialization` | `sarewt/event_concatenate_serialization.py` |

The model keeps the source's own form:

- Code that loops and updates state in place is written as methods with loops and invariants, each proved against a specification function:
  - `get_mask_for_cuts` uses a local boolean array, narrowed cut by cut.
  - Both directory loaders extend their accumulators file by file. `read_events_from_dir` also `break`s once the count exceeds `max_N`. Both then search the files for labels, breaking at the first success.
  - `bin_data_to_image` uses a zeroed three-dimensional array, updated with `+=`.
- The list comprehensions and expressions are written as functions.

A Python exception is modelled as an `Err` value of a `Result`.

## Model

| member | source | states |
|---|---|---|
| `Util.IndexOf` | sarewt/event_to_image_serialization.py:47-48 | `list.index`: found iff the name occurs. The index holds the name, and no earlier entry does, so it is the first occurrence. A missing name gives `None`, where Python raises ValueError. |
| `Util.FeatIdxLeadingColumns` | sarewt/util.py:4-5 | FEAT_IDX maps mJJ, j1Pt and j1Eta to columns 0, 1 and 2. |
| `Util.FeatIdxLaterColumns` | sarewt/util.py:4-5 | FEAT_IDX maps j2Pt to column 6 and DeltaEtaJJ to column 9. |
| `Util.DerivedKeysAreNotColumns` | sarewt/util.py:4-5 | jXPt and j2Eta are not in FEAT_IDX. Their cuts are derived from other columns. |
| `Util.Passes` | sarewt/util.py:25-43 | One row against one cut, by key: sideband keeps \|DeltaEtaJJ\| > v; signalregion keeps \|DeltaEtaJJ\| <= v; mJJ, j1Pt and j2Pt keep their column > v; jXPt keeps j1Pt > v or j2Pt > v; j1Eta keeps \|j1Eta\| < v; j2Eta keeps \|DeltaEtaJJ + j1Eta\| < v; any other key keeps the row. A definition without a contract of its own; ThresholdCuts, EtaCuts and SidebandSignalRegionPartition state its branches. |
| `Util.Survives` | sarewt/util.py:20-43 | A row survives the dictionary iff it passes every cut in it: the all-true start narrowed by each `mask *=`. A definition; NoCutsKeepsAll, CutsConjoin, CutOrderIrrelevant and UnknownKeyIgnored state its properties. |
| `Util.GetMaskForCuts` | sarewt/util.py:17-45 | The mask has one entry per feature row. Entry i is true iff row i passes every cut in the dictionary. The result equals `Mask(features, cuts)`. |
| `Util.Mask` | sarewt/util.py:17-45 | The mask as a value, one entry per row, each entry Survives for that row. `GetMaskForCuts` ensures it returns exactly this sequence. |
| `Util.NoCutsKeepsAll` | sarewt/util.py:20 | With no cuts, every row is kept. |
| `Util.CutsConjoin` | sarewt/util.py:22-43 | Cuts compose conjunctively: a row survives a + b iff it survives a and survives b. |
| `Util.CutOrderIrrelevant` | sarewt/util.py:22 | Two dictionaries with the same entries in another order keep the same rows. |
| `Util.UnknownKeyIgnored` | sarewt/util.py:22-43 | An unrecognised key, anywhere in the dictionary, changes nothing. |
| `Util.ThresholdCuts` | sarewt/util.py:31-37 | mJJ, j1Pt and j2Pt keep rows whose column 0, 1 or 6 is strictly greater than the value. jXPt keeps j1Pt > v or j2Pt > v. |
| `Util.EtaCuts` | sarewt/util.py:40-43 | j1Eta keeps \|j1Eta\| < v. j2Eta keeps \|DeltaEtaJJ + j1Eta\| < v. |
| `Util.SidebandSignalRegionPartition` | sarewt/util.py:25-28 | sideband keeps \|DeltaEtaJJ\| > v and signalregion keeps \|DeltaEtaJJ\| <= v. For one v, exactly one of them keeps a given row, and both together keep none. |
| `Util.MaskRows` | sarewt/util.py:14 | `a[mask]`, kept rows appended in order. What it keeps is stated by MaskRowsPicks, MaskRowsZip and MaskRowsKeeps. |
| `Util.TrueIndices` | sarewt/util.py:14 | The true positions of a mask: in range, strictly increasing, and complete. |
| `Util.MaskRowsPicks` | sarewt/util.py:14 | `a[mask]` has one row per true position, and row k is `a` at the k-th true position. |
| `Util.MaskRowsZip` | sarewt/util.py:10 | Arrays of equal length masked alike stay row-aligned: masking commutes with pairing. |
| `Util.MaskRowsKeeps` | sarewt/util.py:10 | Every kept row satisfies whatever the mask guarantees at its position. |
| `Util.MaskArrays` | sarewt/util.py:13-14 | mask_arrays returns one result per input array. Result k is array k masked. |
| `Util.MaskArraysAligned` | sarewt/util.py:13-14 | All masked arrays have the same length: the number of true entries. |
| `Util.ValueMask` | sarewt/util.py:8 | The filter mask holds `comp(filter_arr[i], filter_val)` at every position. |
| `Util.FilterArraysOnValue` | sarewt/util.py:7-10 | One result per input array. Result k is array k masked by `comp(filter_arr, filter_val)`, so filter_arrays_on_value is mask_arrays under the value mask. |
| `Util.FilterArraysOnValueKeeps` | sarewt/util.py:7-10 | Each filtered array holds exactly the rows whose filter value passes the comparison, in original order. |
| `Utf8.Encode` | sarewt/event_concatenate_serialization.py:19 | `str.encode('utf-8')`: each character takes one to four bytes. |
| `Utf8.Decode` | sarewt/data_reader.py:128 | Strict `bytes.decode('utf-8')`: a success has at most one character per byte. Invalid input gives `None`, where Python raises UnicodeDecodeError. |
| `Utf8.DecodeEncode` | sarewt/data_reader.py:128 | Decoding the UTF-8 encoding of a string gives the string back. |
| `Utf8.EncodeDecode` | sarewt/data_reader.py:128 | Every byte string that decodes is the encoding of what it decodes to. |
| `DataReader.DecodeAll` | sarewt/data_reader.py:128 | Succeeds iff every entry decodes. The result has one string per entry, in order. |
| `DataReader.ReadLabels` | sarewt/data_reader.py:123-128 | read_labels succeeds iff the dataset is present and every entry decodes (DecodeAll succeeds). It then gives one string per stored entry, in order, and each string encodes back to its entry. |
| `DataReader.FileLabels` | sarewt/data_reader.py:75-78 | A file yields its label pair iff it opens and both read_labels calls (particle names, then event-feature names) succeed. A definition; FirstLabels and FirstLabelsIsFirst state what it selects. |
| `DataReader.FirstLabels` | sarewt/data_reader.py:75-82 | Defined iff some file yields both label lists. The result is the lists of the first such file in list order. |
| `DataReader.FirstLabelsIsFirst` | sarewt/data_reader.py:75-79 | The label loop's first success, after only failures, is what FirstLabels picks. |
| `DataReader.MjjColumn` | sarewt/data_reader.py:63 | `features[:, 0]` has one entry per feature row. |
| `DataReader.Filterable` | sarewt/data_reader.py:62-63 | The read-and-filter step goes through iff the file opens (no OSError), and it raises no IndexError: both datasets are present, every feature row has a column 0, and the two arrays have the same length, so the mask fits both. A definition; ConstituentsContributed and FeaturesContributed state that a file failing it contributes nothing. |
| `DataReader.CutMask` | sarewt/data_reader.py:63 | The mass-cut mask `features[:, 0] > 1100`, one entry per feature row. |
| `DataReader.FilterOnMjj` | sarewt/data_reader.py:63 | filter_arrays_on_value with mJJ > 1100 on one array is that array masked by the mass-cut mask. |
| `DataReader.ConstituentsContributed` | sarewt/data_reader.py:61-69 | A file that cannot be read or filtered (OSError, IndexError) adds no constituents. Otherwise it adds its constituents filtered on mJJ > 1100. |
| `DataReader.FeaturesContributed` | sarewt/data_reader.py:61-69 | A file that cannot be read or filtered adds no feature rows. Otherwise it adds its rows filtered on mJJ > 1100. |
| `DataReader.ConstituentsOf` | sarewt/data_reader.py:54-65 | The constituent accumulator after a list of files: each file's contribution appended in list order. ReadEventsFromDir's contents are stated through it. A definition; ConstituentsConcatenate and AccumulatorsAligned state its properties. |
| `DataReader.FeaturesOf` | sarewt/data_reader.py:54-65 | The feature accumulator after a list of files, built the same way. A definition; FeaturesConcatenate, AccumulatorsAligned and AccumulatedRowsPassMjjCut state its properties. |
| `DataReader.ConstituentsSnoc` | sarewt/data_reader.py:64 | Reading one more file appends its contribution to the constituent accumulator. |
| `DataReader.FeaturesSnoc` | sarewt/data_reader.py:65 | Reading one more file appends its contribution to the feature accumulator. |
| `DataReader.AccumulateStep` | sarewt/data_reader.py:60-69 | Reading file i extends both accumulators by that file's contribution. |
| `DataReader.CountBoundExtends` | sarewt/data_reader.py:70-71 | The loop did not break at any file read so far, and does not break at one more. |
| `DataReader.AccumulatorsAligned` | sarewt/data_reader.py:60-69 | The two accumulators always have the same length. Zipped, they are the surviving events of the files in order. |
| `DataReader.AccumulatedRowsPassMjjCut` | sarewt/data_reader.py:63 | Every accumulated feature row has mJJ > 1100, the cut value set at sarewt/data_reader.py line 23. |
| `DataReader.ContributionIsMjjSelection` | sarewt/data_reader.py:62-65 | A readable file contributes exactly its rows with mJJ > 1100, in file order, and the same rows of both arrays. |
| `DataReader.ConstituentsConcatenate` | sarewt/data_reader.py:57-65 | The constituents gathered over a list are the in-order concatenation of those gathered over its parts. |
| `DataReader.FeaturesConcatenate` | sarewt/data_reader.py:57-65 | The same for the feature rows. |
| `DataReader.CountGrows` | sarewt/data_reader.py:64-70 | The accumulated count never shrinks as files are read. |
| `DataReader.AccumulateEvents` | sarewt/data_reader.py:59-70 | The read loop: the accumulators hold the gathered events of the files read so far. Every file before the last read left the count at or below max_N. The loop reads every file unless the count exceeds max_N. |
| `DataReader.FindLabels` | sarewt/data_reader.py:74-80 | The label loop returns the label pair of the first file whose two reads both succeed, and nothing if none does. |
| `DataReader.ReadEventsFromDir` | sarewt/data_reader.py:46-83 | The result, in four parts. (1) Error cases: an empty list fails, for the unbound `i_file`. No readable label pair fails, for the unbound names. (2) Stop rule: the loop stops after the first file at which the count exceeds max_N, with no truncation, and reads every file if that never happens. (3) Contents: the concatenation of the files read. (4) Labels: those of the first file whose two label reads succeed. |
| `DataReader.FirstEventLabels` | sarewt/data_reader.py:106-111 | Defined iff some file yields its event-feature names. The result is the names of the first such file: no earlier file yields them. |
| `DataReader.FindEventLabels` | sarewt/data_reader.py:105-110 | The label loop returns the event-feature names of the first file that yields them, and nothing if none does. |
| `DataReader.ReadableFeatures` | sarewt/data_reader.py:97-98 | One file's rows for read_jet_features_from_dir: all its feature rows, with no cut, or nothing when it cannot be opened (OSError). A definition; AllFeaturesOf states what it gathers. |
| `DataReader.FeaturesKeyMissing` | sarewt/data_reader.py:97-98 | A file that opens but has no feature dataset. Extending the list with the resulting `None` raises TypeError, which the loop does not catch. A definition; ReadJetFeaturesFromDir states that such a file gives an error. |
| `DataReader.AllFeaturesOf` | sarewt/data_reader.py:95-98 | The accumulated feature rows: a row is gathered iff some readable file holds it. |
| `DataReader.ReadJetFeaturesFromDir` | sarewt/data_reader.py:86-113 | Returns all feature rows of every readable file, in order, with no cut or limit, plus the first readable names. A file without features fails with the TypeError, checked first. Otherwise an empty list fails. Otherwise, when no file yields names, the result is the NameError of the unbound name at the return. |
| `ImageSerialization.CountBelow` | sarewt/event_to_image_serialization.py:29 | The number of borders strictly below x, at most the number of borders. For non-decreasing borders, the only kind the model passes in, `np.digitize(..., right=True)` returns exactly this count. |
| `ImageSerialization.Digitize` | sarewt/event_to_image_serialization.py:29-30 | `np.digitize(..., right=True) - 1` lies in -1 .. n-1. |
| `ImageSerialization.CellIndex` | sarewt/event_to_image_serialization.py:32 | The index used for the grid is always a valid cell. -1 wraps around to the last one. |
| `ImageSerialization.CountBelowSplit` | sarewt/event_to_image_serialization.py:29 | When exactly the first k borders lie below x, the count below x is k. |
| `ImageSerialization.DigitizeBetween` | sarewt/event_to_image_serialization.py:29-30 | For increasing borders, x in (b[k-1], b[k]] gets bin k-1. A value on a border falls into the lower bin. |
| `ImageSerialization.DigitizeBelowWindow` | sarewt/event_to_image_serialization.py:29-32 | x <= b[0] gets index -1, which selects the last bin. |
| `ImageSerialization.DigitizeAboveWindow` | sarewt/event_to_image_serialization.py:29-32 | x > b[n-1] also lands in the last bin. |
| `ImageSerialization.BinBorders` | sarewt/event_to_image_serialization.py:39-41 | linspace(-0.8, 0.8, n) has n borders. |
| `ImageSerialization.BinBordersShape` | sarewt/event_to_image_serialization.py:39-41 | The borders start at -0.8, end at 0.8 and increase strictly. |
| `ImageSerialization.UpperEdgeBin` | sarewt/event_to_image_serialization.py:29-32 | Against the linspace borders of line 41, the window edge 0.8 falls into bin n_bins-2. |
| `ImageSerialization.LowerEdgeBin` | sarewt/event_to_image_serialization.py:29-32 | Against the same borders, the window edge -0.8 wraps into bin n_bins-1. |
| `ImageSerialization.JetImage` | sarewt/event_to_image_serialization.py:24-25 | One jet's image is n_bins x n_bins. |
| `ImageSerialization.BinDataToImage` | sarewt/event_to_image_serialization.py:22-34 | For non-decreasing borders: one image per event. Image e depends only on event e. Each of its cells holds the summed pT of the event's particles binned there, starting from zero. |
| `ImageSerialization.ConvertEventsToImage` | sarewt/event_to_image_serialization.py:37-43 | Both jets are binned against the same linspace borders. |
| `ImageSerialization.AddParticleTotal` | sarewt/event_to_image_serialization.py:31-32 | Adding one particle raises the image total by exactly its pT. |
| `ImageSerialization.ImageTotalIsSumPt` | sarewt/event_to_image_serialization.py:27-32 | Each particle lands in exactly one cell, so an image's total is the jet's summed pT, padding included. |
| `ImageSerialization.Scale` | sarewt/event_to_image_serialization.py:49-50 | Dividing every cell keeps the image's shape. |
| `ImageSerialization.ScaledTotal` | sarewt/event_to_image_serialization.py:49-50 | Dividing every cell by p divides the total by p. |
| `ImageSerialization.NormalisedTotal` | sarewt/event_to_image_serialization.py:46-51 | A normalised image totals the particle pT over the jet pT: 1 when they agree. |
| `ImageSerialization.NormalizeByJetPt` | sarewt/event_to_image_serialization.py:46-51 | Fails iff j1Pt or j2Pt is not a label, naming the first one missing. Otherwise every cell of event i's j1 (j2) image, times that event's j1Pt (j2Pt), gives back the input cell. |
| `ImageSerialization.PyTake` | sarewt/event_to_image_serialization.py:79 | `s[:n]` is a prefix of s, of length min(n, \|s\|) for n >= 0. |
| `ImageSerialization.Permute` | sarewt/event_to_image_serialization.py:63-64 | Indexing by a permutation is a reordering: same length, and the same rows with the same multiplicities, none lost or repeated. |
| `ImageSerialization.ReorderingKeepsRows` | sarewt/event_to_image_serialization.py:63-64 | Rows read through a permutation of their indices are the same multiset of rows. |
| `ImageSerialization.Subsample` | sarewt/event_to_image_serialization.py:77-79 | Shuffle and take: the kept rows are a sub-multiset of the rows read, so every kept row was read and none is kept more often than it was read. |
| `ImageSerialization.SubsampleSize` | sarewt/event_to_image_serialization.py:77-79 | Nothing changes when at most n_evts rows were read. Otherwise exactly n_evts are kept. |
| `ImageSerialization.SubsampleJointly` | sarewt/event_to_image_serialization.py:61-79 | The same permutation and cut applied to equal-length arrays keeps their rows paired. |
| `ImageSerialization.ColumnOf` | sarewt/event_to_image_serialization.py:83 | `dijet_features[:, mjj_idx]` has one entry per row. |
| `ImageSerialization.J1s` | sarewt/event_to_image_serialization.py:19 | `events[:, 0]`: the first jet of every event, in order. |
| `ImageSerialization.J2s` | sarewt/event_to_image_serialization.py:19 | `events[:, 1]`: the second jet of every event, in order. |
| `ImageSerialization.KeptRowsStayTabular` | sarewt/event_to_image_serialization.py:77-83 | Subsampled and masked rows still have one value per label and nonzero jet pT. |
| `ImageSerialization.ImagesOfSelection` | sarewt/event_to_image_serialization.py:85-89 | Fails iff a jet-pT label is missing. Otherwise the result stacks [j1 images, j2 images], each the jet's rasterization divided by its event's jet pT. |
| `ImageSerialization.ReadEventsWriteImages` | sarewt/event_to_image_serialization.py:66-90 | Error cases: an AssertionFailed when more than n_evts rows were read and the arrays differ in length; otherwise success iff the lengths agree and mJJ, j1Pt and j2Pt are labels. On success: the kept rows are the subsampled rows with mJJ > 1100, the labels are unchanged, and the images are the normalised rasterizations of exactly those events. |
| `ConcatSerialization.Ceil` | sarewt/event_concatenate_serialization.py:9 | `int(np.ceil(x))` is the integer n with x <= n < x + 1. |
| `ConcatSerialization.TotalMB` | sarewt/event_concatenate_serialization.py:8 | The MB total is non-negative, and zero iff both arrays are empty. |
| `ConcatSerialization.ComputeNumFileParts` | sarewt/event_concatenate_serialization.py:7-11 | A zero budget divides by zero. A positive one gives a non-negative count, zero iff the data are empty. A negative one gives a count <= 0. |
| `ConcatSerialization.LeastCoveringParts` | sarewt/event_concatenate_serialization.py:7-11 | For a positive budget, the count is the least n with n x mb_sz >= total MB. |
| `ConcatSerialization.SectionSizes` | sarewt/event_concatenate_serialization.py:15 | array_split's section sizes: n sections summing to the length. The first len % n have len / n + 1 rows, the rest len / n. |
| `ConcatSerialization.SlicesFlatten` | sarewt/event_concatenate_serialization.py:15 | Consecutive slices concatenate back to the array. |
| `ConcatSerialization.SlicesZip` | sarewt/event_concatenate_serialization.py:15 | Slicing equal-length arrays alike keeps their rows paired. |
| `ConcatSerialization.Pieces` | sarewt/event_concatenate_serialization.py:15 | n pieces. The first len % n pieces are one row longer. |
| `ConcatSerialization.PiecesBalanced` | sarewt/event_concatenate_serialization.py:15 | Piece sizes never grow along the list and differ by at most one. |
| `ConcatSerialization.ArraySplit` | sarewt/event_concatenate_serialization.py:15 | Fewer than one section is a ValueError. Otherwise exactly n pieces, with array_split's sizes, concatenating back to the array. |
| `ConcatSerialization.SplitConcatData` | sarewt/event_concatenate_serialization.py:14-15 | Both arrays are split into n_parts pieces that reassemble them. For equal-length inputs, piece i of one has the length of piece i of the other. |
| `ConcatSerialization.SplitKeepsEventsPaired` | sarewt/event_concatenate_serialization.py:15 | For equal-length inputs, piece i of both arrays holds the same events. |
| `ConcatSerialization.Decimal` | sarewt/event_concatenate_serialization.py:31 | `str(n)`: digits only, no leading zero, and at most 3 digits below 1000. |
| `ConcatSerialization.ValueOfDecimal` | sarewt/event_concatenate_serialization.py:31 | Reading the decimal digits of n gives n. |
| `ConcatSerialization.ValueOfZeros` | sarewt/event_concatenate_serialization.py:31 | A run of zeros reads as 0. |
| `ConcatSerialization.ValueOfLeadingZeros` | sarewt/event_concatenate_serialization.py:31 | Leading zeros do not change a number's value. |
| `ConcatSerialization.Format03` | sarewt/event_concatenate_serialization.py:31 | `"{:03d}"`: at least 3 digits, exactly 3 below 1000, unpadded above, reading back as n. |
| `ConcatSerialization.LastIndex` | sarewt/event_concatenate_serialization.py:30 | `rindex`: found iff the character occurs, and none occurs after the returned position. |
| `ConcatSerialization.LastIndexAt` | sarewt/event_concatenate_serialization.py:30 | In s + [c] + t with no c in t, the last c is the middle one. |
| `ConcatSerialization.PartFileName` | sarewt/event_concatenate_serialization.py:29-31 | A name without '.' is a ValueError. Otherwise the part name is 1 + the field's width longer. |
| `ConcatSerialization.ParsePartName` | sarewt/event_concatenate_serialization.py:31 | Removing the `_NNN` field before the last '.' gives a shorter name. |
| `ConcatSerialization.FieldBounds` | sarewt/event_concatenate_serialization.py:30-31 | The field's bounds, when found, are a `_` strictly before a '.', both inside the name. |
| `ConcatSerialization.FieldBoundsComposed` | sarewt/event_concatenate_serialization.py:30-31 | In stem + `_` + digits + `.` + tail, the last '.' follows the digits and the last `_` before it precedes them. |
| `ConcatSerialization.ComposedSlices` | sarewt/event_concatenate_serialization.py:30-31 | Cutting such a name at the `_` and the '.' gives back the digit field, and the stem joined to `.` + tail. |
| `ConcatSerialization.ParseAt` | sarewt/event_concatenate_serialization.py:30-31 | Given where the field sits, parsing returns the name without the field and the field's value. |
| `ConcatSerialization.ParseComposed` | sarewt/event_concatenate_serialization.py:30-31 | A composed part name parses back to its stem + tail and its number. |
| `ConcatSerialization.PartFileNameAt` | sarewt/event_concatenate_serialization.py:29-31 | For a path whose last '.' is followed by a dot-free tail, the part name is the stem, `_`, the padded number, '.', and the tail. |
| `ConcatSerialization.PartNameRoundTrip` | sarewt/event_concatenate_serialization.py:29-31 | Removing the inserted `_NNN` recovers the original path and the part number. |
| `ConcatSerialization.PartNamesDistinct` | sarewt/event_concatenate_serialization.py:29-31 | Distinct (path, part) pairs give distinct part names. |
| `ConcatSerialization.Format03Examples` | sarewt/event_concatenate_serialization.py:31 | `{:03d}` writes 7 as `007`, 12 as `012` and 1234 as `1234`. |
| `ConcatSerialization.PartNameExample` | sarewt/event_concatenate_serialization.py:29-31 | `out.h5`, part 7 gives `out_007.h5`. |
| `ConcatSerialization.PartNameWideExample` | sarewt/event_concatenate_serialization.py:31 | `out.h5`, part 1234 gives `out_1234.h5`. |
| `ConcatSerialization.PartNameDirectoryDotExample` | sarewt/event_concatenate_serialization.py:30 | `a.b/c`, part 12 gives `a_012.b/c`: the '.' of a directory is used when the file name has none. |
| `ConcatSerialization.RegionCuts` | sarewt/event_concatenate_serialization.py:42-46 | The dictionary always has mJJ 1100. It has sideband 1.4 iff side, signalregion 1.4 iff sigreg, nothing else, and no key twice. |
| `ConcatSerialization.RegionCutsSelect` | sarewt/event_concatenate_serialization.py:42-46 | Under get_mask_for_cuts, the dictionary keeps the rows that meet three conditions: mJJ > 1100; \|DeltaEtaJJ\| > 1.4 if side; \|DeltaEtaJJ\| <= 1.4 if sigreg. Setting both keeps nothing. |
| `ConcatSerialization.EncodeUf8` | sarewt/event_concatenate_serialization.py:18-19 | Outer and inner lengths and order are kept, and each string is UTF-8 encoded. |
| `ConcatSerialization.EncodeUf8ReadBack` | sarewt/event_concatenate_serialization.py:18-19 | Lists encoded by encode_uf8 are read back unchanged by read_labels (sarewt/data_reader.py:128). |
| `ConcatSerialization.EncodeUf8Injective` | sarewt/event_concatenate_serialization.py:18-19 | Different label lists never encode to the same bytes. |

## Left out

- HDF5 reading and writing are not modelled: `read_data_from_file`, `read_constituents_and_dijet_features_from_file`, `write_transformed`, `write_file` and `data_writer`.
  - A file read becomes a `FileRecord` value: `Unreadable` for an OSError, or one `Option` per dataset key.
  - The read of `read_events_write_images` becomes its parameters.
- `get_file_list` (the `os.walk`/`glob` listing and the sort) is not modelled. The loaders take the sorted file list as input.
- `shuffle_unisono`'s random permutation is a parameter. The model accepts any permutation.
- `print` logging is not modelled.
- Floating point is not modelled. pT, angles and MB sizes are exact reals. Also missing:
  - float32 casting;
  - `linspace` rounding;
  - dtype byte widths, so byte counts are parameters;
  - nan or inf from dividing by a zero jet pT, which the model excludes by requiring nonzero jet pT.
- ImageSerialization.ConvertEventsToImage: requires n_bins >= 1. With n_bins = 0 and at least one particle to place, the source indexes an empty grid and raises IndexError. With n_bins = 0 and no particles, in particular with no events, the source returns empty images of shape (N, 0, 0). The model does not cover n_bins = 0 at all.
- ImageSerialization.BinDataToImage: requires non-decreasing borders. The only caller passes the increasing linspace borders. With decreasing borders, `np.digitize` counts the borders at or above x instead of those below. With borders that are neither, it raises ValueError. Neither case is modelled.
- ImageSerialization.NormalizeByJetPt: requires one value per label in every feature row. Broadcasting a feature matrix of another shape is not modelled.
- ImageSerialization.ReadEventsWriteImages: the source's two jet arrays are one sequence of jet pairs here, so they always have the same length. Only their length against the feature array is checked.
- ImageSerialization.Digitize: nan coordinates are not modelled.
- Util.GetMaskForCuts: requires every feature row to be wide enough for the column each cut reads. The source indexes a column of the feature matrix (sarewt/util.py lines 26-43) and raises IndexError when a cut's column lies beyond the matrix width, an empty matrix included. That error is not modelled: a numpy matrix has one width for all rows, while the model's rows are sequences with no shared width to check against.
- DataReader.ReadEventsFromDir, DataReader.ReadJetFeaturesFromDir: one row shape across all files is assumed. The source ends with `np.asarray` over the concatenated lists (sarewt/data_reader.py lines 83 and 113). When files hold feature rows or constituent tensors of different shapes, numpy 1.24 and later raises ValueError for the inhomogeneous shape, and older numpy builds an object array. The model's rows are sequences of any length and its constituents an opaque type, so a ragged concatenation returns `Ok`. That failure is not modelled.
- ConcatSerialization.EncodeUf8: `str.encode('utf-8')` raises UnicodeEncodeError on a string that holds a lone surrogate. A Dafny `char` cannot hold one, so `Utf8.Encode` is total and that error is not modelled.
- Util.FilterArraysOnValue: numpy's `*arrays` may mix element types. The model applies one mask to arrays of one element type. Arrays of different types are masked by separate calls with the same mask.
- DataReader.ReadLabels: h5py's handling of fixed-width byte strings is not modelled, such as stripping trailing NUL bytes. Each stored entry is taken as the exact bytes to decode.
- `write_file_parts` is not modelled, because it calls `write_single_file`, which is not defined in the repository. Its two steps, `compute_num_file_parts` and `split_concat_data`, are modelled.
- `read_concat_write` is modelled only through its cut dictionary, because its other calls do not exist in the repository:
  - it passes `max_n=` and the cuts to `read_events_from_dir`, which accepts only `max_N`;
  - it calls `read_labels_from_dir` and `generate_event_parts_from_dir`, which are not defined.
- `write_single_file_part`'s write is not modelled. Its file-name rule is modelled.
- The repository's tests call `read_events_from_dir(read_n=...)` (sarewt/tests/test_data_reader.py line 57) and `read_jet_features_from_dir(apply_mjj_cut=...)` (lines 76 and 85), but no code defines either keyword. The model follows the code:
  - `read_events_from_dir` applies only the mJJ > 1100 cut;
  - it never truncates, so the result can exceed `max_N`;
  - it fails with a NameError when no labels are found or the file list is empty.
- `make_cuts`, `generate_constituents_parts_from_dir`, `count_files_events_in_dir` and the `read_n=`/`apply_mjj_cut=` keywords are not modelled. They appear only in tests and scripts, and no code defines them.
- The argparse entry points are not modelled.
