# Colmeleon in Dafny

Colmeleon is a content-based image retrieval tool. It turns every image of a
database into colour (red, green, blue) or grey histograms. It also computes a
40-bin "colour axes" vector for incremental search. Given a query image, it
ranks the database by histogram intersection or by Euclidean distance and keeps
the best `depth` matches.

This project models the comparison and ranking logic and the histogram objects
it works on. It also models the small text parsers around them:
- the image-extension check;
- the default-options file of the command line interface and its rewriting;
- the histogram-file naming, the CSV row shapes and the pending-image filter
  of the database.

Modules:
- `Outcomes`: the `Result`/`Option` wrappers and the Python exceptions the
  code can raise.
- `Text`: the Python string operations the source relies on:
  - `strip`, `lower`, `str.index`/`rindex`, slicing, `split`;
  - `int()` and `str()` of an integer;
  - lexicographic `<`.
- `Histograms`:
  - the binning rule;
  - the Color/Grey choice in `Histogram.__init__`;
  - the `ColorHistogram`, `GreyHistogram` and `Histogram` classes with their
    setters and hashes;
  - `color_axes`.
- `Algorithm`: `jaccard_dist`, `euclidean_dist`, `intersection`,
  `match_value` and the top-K loop of `retrieval`.
- `Images`: `check_extension` and the path guards of `Image` and
  `Parser._parse`.
- `Cli`:
  - the default-options lines and their reading in `__init__`;
  - the `parse_default_*` parsers;
  - `_saveparams`.
- `Database`:
  - the histogram names of `_calculate_histogram` and `add`;
  - the CSV rows and `grey_histograms`' read of them;
  - the pending filter of `_calculate_histograms`;
  - `is_computed`.

Binning follows the uniform rule of `plt.hist` over `[0, 255]`. A value `v` in
that range goes to bin `min(v * n / 255, n - 1)`, with integer division. A
value outside the range is dropped. This rule is a stated assumption: matplotlib
is not part of this model.

`intersection` reads only the image when both histograms have the same bin
count (see Findings). The model keeps both versions: `Algorithm.Variant`
selects the code as written or the corrected per-bin minimum. The match value,
the match distance and retrieval take the variant as a parameter. The program
itself runs them `AsWritten`, and the bound of the match to [0, 100] is proved
for the corrected variant only.

## Model

| member | source | states |
|---|---|---|
| Algorithm.JaccardAsWritten | Colmeleon/Algorithm.py:27-40 | The code as written raises TypeError exactly when the first argument is a string. The second conversion tests `data1`, so a second ndarray stays unconverted. |
| Algorithm.Jaccard | Colmeleon/Algorithm.py:27-40 | It raises TypeError exactly when the first argument cannot become a set. It fails on a zero denominator exactly when both sides are empty. Otherwise the distance lies in [0, 1]. |
| Algorithm.JaccardOfBounds | Colmeleon/Algorithm.py:36-40 | One minus the intersection size over `len(A) + len(B)` minus that size fails exactly on two empty inputs, and otherwise lies in [0, 1]. |
| Algorithm.ElementsCard | Colmeleon/Algorithm.py:27-30 | Converting a list, an array or a string to a set never adds elements. |
| Algorithm.JaccardAgrees | Colmeleon/Algorithm.py:27-30 | When the second argument is not an ndarray, the as-written and the corrected conversions give the same distance. |
| Algorithm.JaccardSelf | Colmeleon/Algorithm.py:36-40 | A non-empty collection is at distance 0 from itself. |
| Algorithm.JaccardDisjoint | Colmeleon/Algorithm.py:36-40 | Disjoint inputs, the first non-empty, are at distance 1. |
| Algorithm.JaccardAsWrittenArraySelf | Colmeleon/Algorithm.py:29 | Two equal arrays `[0, 0]` are at distance 0.5 as written, and 0 once the second array is converted. |
| Algorithm.JaccardTestValues | Colmeleon/test_algorithm.py:28-32 | `[0..5]` against `[0,1,2,3,4,6]` gives 2/7, and two strings raise TypeError. |
| Algorithm.SumSquares | Colmeleon/Algorithm.py:63 | The sum of squared differences is never negative. |
| Algorithm.EuclideanSquared | Colmeleon/Algorithm.py:57-67 | It raises TypeError exactly when an operand is not a list, set or array; a set enters as its members in iteration order. It raises ValueError exactly when the lengths differ and neither is 1, the lengths numpy cannot broadcast. Otherwise the result is non-negative, and on equal lengths it is the sum of squared differences. |
| Algorithm.SumSquaresZero | Colmeleon/Algorithm.py:63 | The sum of squared differences is 0 exactly when the vectors are equal. |
| Algorithm.SumSquaresSymmetric | Colmeleon/Algorithm.py:63 | The sum of squared differences does not depend on the order of the vectors. |
| Algorithm.EuclideanMetric | Colmeleon/Algorithm.py:62-63 | The distance is 0 exactly between equal vectors, and it is symmetric. |
| Algorithm.EuclideanTestValues | Colmeleon/test_algorithm.py:40-42 | The squared distances of the unit test are 0, 1 and 7755, whose square root rounds to 88.0625. |
| Algorithm.RatioIsOne | Colmeleon/Algorithm.py:92-112 | Starting from a ratio in (0, 1], the alternating ceil/floor updates make `ratio` 1 on every iteration. |
| Algorithm.RatioRange | Colmeleon/Algorithm.py:87-92 | `min.bins / max.bins` lies in (0, 1]. |
| Algorithm.WindowOfOne | Colmeleon/Algorithm.py:114-119 | A window `[1*j : 1*(j+1)]` sums to bin `j`, or to 0 past the end. |
| Algorithm.MinBins | Colmeleon/Algorithm.py:121-123 | Each output bin is one of the two input bins and no larger than either. |
| Algorithm.MinBinsNext | Colmeleon/Algorithm.py:121-123 | One loop iteration appends the minimum of bin `j` and window `j`. |
| Algorithm.Overlaps | Colmeleon/Algorithm.py:101-135 | The same-kind branches, given the smaller and the larger histogram: Color gives three channels and Grey one, each as long as the smaller histogram's bin count. |
| Algorithm.IntersectionAsWritten | Colmeleon/Algorithm.py:69-135 | The code as written: mixed kinds are unsupported, and well-formed histograms of one kind always succeed. |
| Algorithm.Intersection | Colmeleon/Algorithm.py:69-135 | The corrected intersection. Mixed kinds are unsupported. Color gives three channels and Grey one, each `min(bins)` long, and each bin is exactly the minimum of the image bin and the model bin. Well-formed histograms of one kind always succeed. |
| Algorithm.Intersect | Colmeleon/Algorithm.py:69-135 | The loop computes the intersection of the chosen variant: as written, with the image as both the smaller and the larger histogram on equal bin counts (lines 87-90), or corrected. |
| Algorithm.IntersectColor | Colmeleon/Algorithm.py:101-124 | The Color loop, with its ratio updates, builds the per-bin minima in the order red, blue, green. |
| Algorithm.IntersectGrey | Colmeleon/Algorithm.py:125-135 | The Grey loop, with its ratio updates, builds the per-bin minima. |
| Algorithm.IntersectionAgrees | Colmeleon/Algorithm.py:87-90 | On different bin counts, the as-written selection of the smaller and larger histogram agrees with the corrected one. |
| Algorithm.MinBinsSelf | Colmeleon/Algorithm.py:121-123 | The minimum of a channel with itself is that channel. |
| Algorithm.IntersectionAsWrittenIgnoresModel | Colmeleon/Algorithm.py:87-90 | As written, with equal bin counts the result is the image's own channels, whatever the model. |
| Algorithm.IntersectionEqualBinsExample | Colmeleon/Algorithm.py:87-90 | Grey `[1]` against `[0]` gives `[1]` as written and `[0]` once corrected. |
| Algorithm.IntersectionSelf | Colmeleon/Algorithm.py:101-135 | A histogram intersected with itself gives its own channels. |
| Algorithm.MinBinsCommute | Colmeleon/Algorithm.py:121-123 | The per-bin minimum does not depend on the argument order. |
| Algorithm.IntersectionCommutes | Colmeleon/Algorithm.py:87-135 | The corrected intersection of two well-formed histograms is symmetric. |
| Algorithm.MatchScore | Colmeleon/Algorithm.py:236-273 | `match_value` with the intersection variant as its `function`. It fails exactly on mixed kinds, on a failing intersection, or when the model's pixel total is 0. |
| Algorithm.SumPrefix | Colmeleon/Algorithm.py:264-271 | Adding bin `i` extends the running sum of the first `i` bins. |
| Algorithm.MatchValue | Colmeleon/Algorithm.py:236-273 | The accumulation loop computes `MatchScore` for the same intersection variant. The program runs it with the intersection as written. |
| Algorithm.MatchSelf | Colmeleon/Algorithm.py:254-273 | A histogram matched against itself scores 100 under both intersection variants when all its channels have the same positive total. |
| Algorithm.SumNonNegative | Colmeleon/Algorithm.py:264-271 | Non-negative counts sum to a non-negative total. |
| Algorithm.SumMonotone | Colmeleon/Algorithm.py:264-271 | Bin-wise smaller counts have a smaller total. |
| Algorithm.ChannelShare | Colmeleon/Algorithm.py:121-123 | An intersected channel's total lies between 0 and the total of either input channel. |
| Algorithm.ShareBounds | Colmeleon/Algorithm.py:268-273 | A share `x / p * 100` with `0 <= x <= p` lies in [0, 100]. |
| Algorithm.MatchScoreBounds | Colmeleon/Algorithm.py:254-273 | With the corrected intersection, a successful match of well-formed count histograms lies in [0, 100], the percentage the docstring promises. As written it does not hold: see MatchScoreAsWrittenExample. |
| Algorithm.MatchScoreAsWrittenEqualBins | Colmeleon/Algorithm.py:87-90 | As written, on equal bin counts the match is the image's channel totals over the model's pixel total, whatever counts the model holds. |
| Algorithm.MatchScoreAsWrittenExample | Colmeleon/Algorithm.py:254-273 | Grey `[2]` against grey `[1]`, one bin each, matches at 200 as written and at 100 once corrected. |
| Algorithm.BelowAsymmetric | Colmeleon/Algorithm.py:308-314 | Tuple order on `(score, path)` is asymmetric and irreflexive. |
| Algorithm.BelowThenUpTo | Colmeleon/Algorithm.py:308-314 | Tuple order is transitive through a not-smaller element. |
| Algorithm.BisectRight | Colmeleon/Algorithm.py:308 | The binary search of `bisect.insort` returns an index between its bounds. |
| Algorithm.BisectRightSplits | Colmeleon/Algorithm.py:308 | On a sorted list, entries before the index are not above the new entry, and entries after it are. |
| Algorithm.InsortSorted | Colmeleon/Algorithm.py:308-314 | `insort` keeps the list sorted and adds exactly the new entry. |
| Algorithm.Ranks | Colmeleon/Algorithm.py:306-338 | On success, every catalog entry is paired with its own score, in catalog order. |
| Algorithm.LastHighest | Colmeleon/Algorithm.py:312 | In a sorted list the last entry has the highest score. |
| Algorithm.EvictLast | Colmeleon/Algorithm.py:312-314 | Deleting the last entry and inserting a strictly better one keeps the list sorted. It keeps the entries accounted for, and no discarded entry beats a kept one. |
| Algorithm.RejectEntry | Colmeleon/Algorithm.py:310-312 | An entry no better than the last one can be discarded without beating a kept entry. |
| Algorithm.KeptAtEnd | Colmeleon/Algorithm.py:304-340 | A sorted list of the bounded length, accounted for and dominated by the discarded entries, is a valid top-K selection. |
| Algorithm.StepKeepsOnTie | Colmeleon/Algorithm.py:310-314 | A full list keeps `(5, "b")` against a later `(5, "a")`, and replaces it by `(4, "c")`. |
| Algorithm.StepKeeps | Colmeleon/Algorithm.py:307-314 | A step fails only on a full empty list. Otherwise it keeps the list sorted and of the bounded length, accounts for every entry, and leaves no discarded entry below a kept one. |
| Algorithm.ScanKeeps | Colmeleon/Algorithm.py:304-338 | After a successful scan the list is sorted, of length `min(n, depth)`, and together with the discarded entries holds exactly the scored entries. |
| Algorithm.ScanFailures | Colmeleon/Algorithm.py:304-338 | With a positive depth the scan fails exactly when a score fails, with the first failing score's error. |
| Algorithm.ScanFailureStays | Colmeleon/Algorithm.py:304-338 | Once the scan of a prefix fails, the whole scan fails with that error. |
| Algorithm.ScanNoRoom | Colmeleon/Algorithm.py:310-314 | With a non-positive depth the first entry is scored and then fails at `result[-1]`. |
| Algorithm.ScanProperties | Colmeleon/Algorithm.py:304-338 | Everything the scan promises: `[]` on an empty catalog, the failures above, and a valid top-K selection on success. |
| Algorithm.ScanNext | Colmeleon/Algorithm.py:304-314 | One more entry either raises its score's error or takes one step. |
| Algorithm.TopK | Colmeleon/Algorithm.py:304-338 | The loop computes `Scan`, the exact insert and strict-less evict rule, so ties are broken as the program breaks them. An empty catalog gives `[]`. A non-positive `depth` on a non-empty catalog raises the first score's error or IndexError at `result[-1]`. Otherwise it fails exactly when a score fails, and it returns a sorted selection of `min(n, depth)` entries that no discarded entry beats. |
| Algorithm.MatchDistance | Colmeleon/Algorithm.py:320-338 | The intersection-mode score `abs(100 - match)` for the given variant fails exactly when the match fails. It is non-negative, and 0 exactly on a match of 100. |
| Algorithm.DistancesNonNegative | Colmeleon/Algorithm.py:320-338 | Every kept score in intersection mode is non-negative, for either intersection variant. |
| Algorithm.Retrieve | Colmeleon/Algorithm.py:276-340 | Incremental mode propagates an axes error, and otherwise is the scan of the bin histograms compared with the query's 16/16/8 colour axes. Intersection mode is the scan of the colour or the grey histograms scored by match distance; the program runs it with the intersection as written. With a positive depth either mode fails exactly when a score fails. A result is a top-K selection, and intersection-mode scores are non-negative. |
| Histograms.SumAppend | Colmeleon/Histogram.py:70-79 | The total of a concatenation is the sum of the totals. |
| Histograms.SumUpdate | Colmeleon/Histogram.py:101-104 | Adding `d` to one bin adds `d` to the total. |
| Histograms.Spike | Colmeleon/test_histogram.py:67-68 | Definition of the expected test histogram; its contract gives only its length, `n` bins. |
| Histograms.FlatRepeat | Colmeleon/Histogram.py:101 | Flattening `m` rows of `c` copies gives `c * m` copies. |
| Histograms.BinOf | Colmeleon/Histogram.py:101-104 | Every value in [0, 255] falls in one of the `n` bins. |
| Histograms.InRangeCount | Colmeleon/Histogram.py:101-104 | At most all values fall in the range. |
| Histograms.Binned | Colmeleon/Histogram.py:101-104 | Binning gives exactly `bins` non-negative counts. |
| Histograms.BinnedSum | Colmeleon/Histogram.py:101-104 | The counts total the number of in-range values. |
| Histograms.ZerosSum | Colmeleon/Histogram.py:101-104 | Empty bins total 0. |
| Histograms.InRangeCountAll | Colmeleon/Histogram.py:101-104 | Values all in [0, 255] are all counted. |
| Histograms.BinnedRepeat | Colmeleon/test_histogram.py:61-74 | `m` copies of one value give a single bin holding `m`. |
| Histograms.BuildChannels | Colmeleon/Histogram.py:21-24 | The histogram is Grey exactly when `grey` is forced or every saturation is 0. Each channel has exactly `bins` counts. It fails on fewer than one bin, or on a Color image without three components. |
| Histograms.ColorChannelTotals | Colmeleon/Histogram.py:101-104 | Each colour channel totals the pixel count, and a Grey histogram totals every entry of the array. |
| Histograms.SolidChannel | Colmeleon/test_histogram.py:61-74 | A solid image's channel `k` is its pixel's component `k`, repeated width times height times. |
| Histograms.SolidEntries | Colmeleon/Histogram.py:101 | A solid image flattens to its value repeated once per entry. |
| Histograms.SolidColorHistogram | Colmeleon/test_histogram.py:61-74 | A saturated solid image gives one spike per channel holding the pixel count. |
| Histograms.SolidGreyHistogram | Colmeleon/test_histogram.py:81-89 | An unsaturated 3-channel solid image puts three entries per pixel in one grey bin. |
| Histograms.TestSquares | Colmeleon/test_histogram.py:61-89 | The red square has 10000 in red bin 254 and in green and blue bin 0. The white square has 30000 in grey bin 254. |
| Histograms.ColorHashSplits | Colmeleon/Histogram.py:236-242 | The colour hash loop over the first `m` bins adds up the three index-weighted sums. |
| Histograms.WeightedSumSpike | Colmeleon/Histogram.py:135-139 | The index-weighted sum of a spike is its bin times its count. |
| Histograms.HistogramHash | Colmeleon/Histogram.py:81-89 | The outer hash is Python's `hash` of the inner one. Grey gives `Σ i·grey[i]`; Color gives `Σ i·(red[i]+blue[i]+green[i])` on equal lengths. |
| Histograms.ColorHashEqualLengths | Colmeleon/Histogram.py:236-242 | On equal channel lengths the colour hash never raises and is the sum of the three weighted sums. |
| Histograms.RedSquareHash | Colmeleon/Histogram.py:228-242 | The red test square hashes to 2540000. |
| Histograms.ColorHistogram.constructor | Colmeleon/Histogram.py:148-162 | The three channels are the binned red, green and blue components. |
| Histograms.ColorHistogram.SetRed | Colmeleon/Histogram.py:195-204 | Replaces the red counts and leaves green and blue unchanged. |
| Histograms.ColorHistogram.SetGreen | Colmeleon/Histogram.py:206-215 | Replaces the green counts and leaves red and blue unchanged. |
| Histograms.ColorHistogram.SetBlue | Colmeleon/Histogram.py:217-226 | Replaces the blue counts and leaves red and green unchanged. |
| Histograms.ColorHistogram.SetRedAsWritten | Colmeleon/Histogram.py:195-204 | As written, the setter raises TypeError and changes nothing. |
| Histograms.ColorHistogram.Hash | Colmeleon/Histogram.py:228-242 | The accumulation loop computes the colour hash. |
| Histograms.GreyHistogram.constructor | Colmeleon/Histogram.py:99-104 | The grey channel bins every entry of the array. |
| Histograms.GreyHistogram.SetGrey | Colmeleon/Histogram.py:116-125 | Replaces the grey counts. |
| Histograms.GreyHistogram.Hash | Colmeleon/Histogram.py:127-139 | The accumulation loop computes `Σ i·grey[i]`. |
| Histograms.Histogram.Of | Colmeleon/Histogram.py:15-24 | The object keeps the array, the bin count and the inner histogram. |
| Histograms.Histogram.New | Colmeleon/Histogram.py:15-24 | Construction succeeds exactly when the channel rule does. It yields fresh objects whose value is the array, the bins and the chosen channels. |
| Histograms.Histogram.Hash | Colmeleon/Histogram.py:81-89 | Delegates to the inner histogram's hash. |
| Histograms.Wrap8 | Colmeleon/Histogram.py:65-67 | uint8 arithmetic stays in [0, 256). |
| Histograms.ChannelEntriesLength | Colmeleon/Histogram.py:52-54 | The three colour planes have the same number of entries. |
| Histograms.FlatSameShape | Colmeleon/Histogram.py:70-75 | Arrays of the same shape flatten to the same length. |
| Histograms.RgAxis | Colmeleon/Histogram.py:65 | Definition of the rg axis; its contract gives only its length, one value per pixel. |
| Histograms.ByAxis | Colmeleon/Histogram.py:66 | Definition of the by axis; its contract gives only its length, one value per pixel. |
| Histograms.WbAxis | Colmeleon/Histogram.py:67 | Definition of the wb axis; its contract gives only its length, one value per pixel. |
| Histograms.ColorAxes | Colmeleon/Histogram.py:26-79 | The vector has `rg + by + wb` non-negative entries. It needs positive bin counts and a non-empty image, and a Grey histogram fails only on an empty image. |
| Histograms.GreyColorAxes | Colmeleon/Histogram.py:55-57 | For a Grey histogram the rg and by segments hold all their mass in their first bin and zeros elsewhere. |
| Histograms.GreyColorAxesValue | Colmeleon/Histogram.py:55-79 | For a Grey histogram the axes are computed from the whole array taken as all three planes. |
| Histograms.GreyAxisCounts | Colmeleon/Histogram.py:65-75 | On equal planes the rg and by counts each hold every entry in their first bin and nothing elsewhere. |
| Images.Extension | Colmeleon/Image.py:123-126 | The extension follows the last dot and contains no dot. There is none exactly when the name has no dot. |
| Images.EndsWithExtension | Colmeleon/Image.py:123-126 | A name ends with `.e`, for a dot-free `e`, exactly when `e` is its extension. |
| Images.CheckExtensionByExtension | Colmeleon/Image.py:123-126 | The check accepts a name exactly when its last extension is one of the six accepted ones. |
| Images.CheckExtensionExamples | Colmeleon/Image.py:124-126 | `x.PNG` and `a.png.txt` are rejected; `.gif` and `photo.jpeg` are accepted. |
| Images.ImagePath | Colmeleon/Image.py:12-22 | An `Image` is built exactly when the name passes the extension check and exists, and, without a loaded image, its stripped form exists too, since `Parser._parse` checks the stripped path again. Otherwise it raises AssertionError. It keeps the stripped path. |
| Images.ImagePathPadded | Colmeleon/Image.py:16-22 | ` a.png`, present only with its blank, raises without a loaded image and is kept as `a.png` with one. |
| Images.ParsePath | Colmeleon/Image.py:57-64 | `_parse` opens exactly the paths that pass both checks, otherwise it raises AssertionError. |
| Images.StripKeepsSuffix | Colmeleon/Image.py:19 | Stripping keeps a suffix that has no white space. |
| Images.TrimLeftKeepsSuffix | Colmeleon/Image.py:19 | Stripping on the left removes only white space, so a non-space suffix stays. |
| Images.ImagePathAccepted | Colmeleon/Image.py:16-22 | The stripped path an `Image` keeps still passes the extension check. |
| Images.StripAccepted | Colmeleon/Image.py:19 | Stripping keeps an accepted name accepted. |
| Cli.RemoveFirst | Colmeleon/CLI.py:86-87 | `list.remove` takes away exactly one occurrence when there is one, and otherwise changes nothing. |
| Cli.RemoveFirstAbsent | Colmeleon/CLI.py:86-87 | The occurrence removed is the first one. |
| Cli.ReadDefaults | Colmeleon/CLI.py:84-87 | The file is split on newlines. One empty entry is removed only when the last piece is empty. |
| Cli.ReadWrittenLines | Colmeleon/CLI.py:82-87 | Lines written with a newline each read back as the same lines. |
| Cli.FirstWith | Colmeleon/CLI.py:288-289 | The first line starting with the key is found. |
| Cli.ValueText | Colmeleon/CLI.py:293 | It raises ValueError exactly when the line has no `=`, and the value it returns has no `"`. |
| Cli.LineInt | Colmeleon/CLI.py:290-293 | A line ending in `None` gives the `None` default. Otherwise a line without `=` raises ValueError. Every error is a ValueError. |
| Cli.LineBool | Colmeleon/CLI.py:349-353 | A line ending in `None` gives False. Otherwise it raises ValueError exactly when the line has no `=`. |
| Cli.DefaultInt | Colmeleon/CLI.py:288-294 | The first matching line decides; no match gives the missing-line default. |
| Cli.DefaultBool | Colmeleon/CLI.py:347-354 | The first matching line decides; no match gives False. |
| Cli.ParseDefaultDepth | Colmeleon/CLI.py:288-294 | No `depth` line gives 15; errors are ValueError. |
| Cli.ParseDefaultBins | Colmeleon/CLI.py:308-314 | No `bins` line gives 255; errors are ValueError. |
| Cli.ParseDefaultNoadd | Colmeleon/CLI.py:347-354 | No `noadd` line gives False. |
| Cli.ParseDefaultIncremental | Colmeleon/CLI.py:368-375 | No `incremental` line gives False. |
| Cli.ParseDefaultGrey | Colmeleon/CLI.py:388-395 | No `grey` line gives False. |
| Cli.FirstWithFrame | Colmeleon/CLI.py:288-289 | Lines before the first match and lines after it do not move the match. |
| Cli.FirstMatchWins | Colmeleon/CLI.py:288-293 | The first line with the key decides the value, whatever follows. |
| Cli.Attr | Colmeleon/CLI.py:420 | The attribute name fails exactly on a line without `=`, and contains no `=`. |
| Cli.RewriteLine | Colmeleon/CLI.py:417-421 | A `background_color` line is kept. Any other line fails exactly when it has no `=` or names an unknown argument; otherwise it becomes `"{attr} = {value}\n"`. |
| Cli.RewriteAll | Colmeleon/CLI.py:415-427 | The rewrite fails exactly when some line fails, and otherwise rewrites line by line. |
| Cli.NonBlank | Colmeleon/CLI.py:413-414 | Removing `""` until none is left keeps exactly the non-empty lines. |
| Cli.NonBlankRemoveFirst | Colmeleon/CLI.py:413-414 | Each `remove("")` in the loop leaves the same non-empty lines. |
| Cli.SaveParams | Colmeleon/CLI.py:401-430 | It returns True exactly when every line rewrites, and then writes the rewritten lines to `./options/CLI.init`, the file it read. Otherwise it returns False and writes the default options to `self.default_path` (the reset at lines 133-144). |
| Cli.ResetTargetDiffers | Colmeleon/CLI.py:63-80 | With the constructor's default arguments `self.default_path` is `../options/CLI.init`, not the `./options/CLI.init` that `_saveparams` rewrites. |
| Cli.ValueTextOf | Colmeleon/CLI.py:293 | The value text of `attr=v` is `v` stripped, with its quotes removed. |
| Cli.PaddedValue | Colmeleon/CLI.py:293 | Padding after `=` is stripped away. |
| Cli.IntLine | Colmeleon/CLI.py:293 | A line holding `str(n)` after `=` parses to `n`. |
| Cli.SavedIntRoundTrip | Colmeleon/CLI.py:421 | An int line written by `_saveparams` parses back to the same int. |
| Cli.IntToStringDigitLast | Colmeleon/CLI.py:421 | `str(n)` ends in a digit, so it never ends in `None`. |
| Cli.SavedBoolRoundTrip | Colmeleon/CLI.py:421 | A bool line written by `_saveparams` parses back to the same bool. |
| Cli.LineBoolOf | Colmeleon/CLI.py:352-353 | A line `attr = word` parses to whether `word` lower-cases to `true`. |
| Cli.SameSuffix | Colmeleon/CLI.py:349 | Whether the line ends in `None` depends only on its last word. |
| Cli.BoolWord | Colmeleon/CLI.py:421 | `str(True)` and `str(False)` do not end in `None`, and lower-case to `true` exactly for True. |
| Cli.BuiltInDefaults | Colmeleon/CLI.py:26-31 | The built-in default lines parse to depth 5, bins 255, and noadd, incremental and grey all False. |
| Cli.DefaultLinesClean | Colmeleon/CLI.py:26-31 | The built-in lines are non-empty and contain no newline. |
| Cli.BuiltInDepth | Colmeleon/CLI.py:28 | The built-in `depth` line gives 5. |
| Cli.BuiltInBins | Colmeleon/CLI.py:29 | The built-in `bins` line gives 255. |
| Cli.BuiltInNoadd | Colmeleon/CLI.py:29 | The built-in `noadd` line gives False. |
| Cli.BuiltInIncremental | Colmeleon/CLI.py:30 | The built-in `incremental` line gives False. |
| Cli.BuiltInGrey | Colmeleon/CLI.py:30 | The built-in `grey` line gives False. |
| Cli.DefaultValue | Colmeleon/CLI.py:288-293 | A first matching line `key=n` gives `n`. |
| Cli.KeyIntLine | Colmeleon/CLI.py:288-293 | A line `key=n` starts with its key and parses to `n`. |
| Cli.DefaultFalse | Colmeleon/CLI.py:347-353 | A first matching line `key=False` gives False. |
| Cli.KeyFalseLine | Colmeleon/CLI.py:347-353 | A line `key=False` starts with its key and parses to False. |
| Database.HistogramName | Colmeleon/Database.py:68 | It raises ValueError exactly when the path has no separator. The name ends in `_hist` and is the slice from the last separator to four characters before the end. |
| Database.HistogramNameOfBase | Colmeleon/Database.py:68 | With a four-character extension the name is the separator, the base name and `_hist`. |
| Database.HistogramNameOfJpeg | Colmeleon/Database.py:68 | A five-character extension leaves its dot: `db/x.jpeg` gives `/x._hist`. |
| Database.CalculatedPaths | Colmeleon/Database.py:67-91 | The three returned paths share the name: histograms, bins histograms plus `bin`, grey histograms plus `grey`. |
| Database.AddStemAsWritten | Colmeleon/Database.py:342-343 | The stem of `add` raises ValueError exactly when the path lacks a separator or a dot. |
| Database.AddStem | Colmeleon/Database.py:342-343 | The corrected stem fails in exactly the same cases. |
| Database.NamesFromStem | Colmeleon/Database.py:342-363 | The colour name is the stem plus `_hist`, and the grey name is the colour name plus `grey`. |
| Database.NamesBranchesAgree | Colmeleon/Database.py:342-363 | The Color and Grey branches of `add` derive the same names from the same stem. |
| Database.AddNamesAsWritten | Colmeleon/Database.py:340-363 | The names of `add` come from the as-written stem. |
| Database.AddNames | Colmeleon/Database.py:340-363 | The names come from the corrected stem. |
| Database.AddStemCollision | Colmeleon/Database.py:342-343 | As written, `ab.png` and `ac.png` get the same histogram names; corrected, they differ. |
| Database.StemOfTwo | Colmeleon/Database.py:342-343 | On a two-letter base the as-written stem keeps one letter and the corrected stem both. |
| Database.AddStemMatchesCalculated | Colmeleon/Database.py:68 | With a four-character extension, the corrected `add` name equals the `_calculate_histogram` name. |
| Database.AddStemOfBase | Colmeleon/Database.py:342-343 | The corrected stem is the separator followed by the base name. |
| Database.CalculatedRow | Colmeleon/Database.py:182-185 | A calculated row has four fields: the image and, last, its grey path. |
| Database.AddedRow | Colmeleon/Database.py:383-396 | An appended row has three fields and a first row four, both starting with the image path. |
| Database.GreyEntries | Colmeleon/Database.py:280-289 | Reading the grey column raises IndexError exactly when a non-blank row has fewer than four fields. Otherwise it yields `(row[0], row[3])` pairs. |
| Database.AppendedRowBreaksGrey | Colmeleon/Database.py:383-385 | After `add` appends a three-field row, reading the grey column raises. |
| Database.CalculatedRowsGrey | Colmeleon/Database.py:182-185 | Rows written by `_calculate_histograms` read back as exactly their image and grey path pairs. |
| Database.GreyEntriesCons | Colmeleon/Database.py:280-289 | A four-field row in front contributes its image and grey path in front. |
| Database.Ready | Colmeleon/Database.py:168-171 | The ready list holds exactly the first fields of the non-blank rows. |
| Database.Pending | Colmeleon/Database.py:177-179 | A file is pending exactly when it passes the extension check and its absolute path is not ready. |
| Database.CalculationTargets | Colmeleon/Database.py:164-199 | With a CSV the targets are the pending files. Without one they are every file that passes the extension check. |
| Database.PendingThenDone | Colmeleon/Database.py:177-185 | Once the rows for the pending files are appended, nothing is pending any more. |
| Database.IsComputed | Colmeleon/Database.py:126-131 | True exactly when some explored path ends in `histograms.csv`. |
| Text.Strip | Colmeleon/Image.py:19 | Python `strip` returns a slice of the input that starts and ends with non-white space, with only white space before and after it. |
| Text.SpaceAround | Colmeleon/Image.py:19 | A suffix after white space, cut before white space, is a slice of the text with only white space on either side: the witness for `Strip`'s contract. |
| Text.StripClean | Colmeleon/Image.py:19 | Stripping a string without white space at its ends changes nothing. |
| Text.IndexOf | Colmeleon/CLI.py:293 | `str.index` raises ValueError exactly when the character is missing, and otherwise finds its first occurrence. |
| Text.LastIndexOf | Colmeleon/Database.py:68 | `str.rindex` raises ValueError exactly when the character is missing, and otherwise finds its last occurrence. |
| Text.PySlice | Colmeleon/Database.py:68 | Python slicing: on valid bounds it is the plain slice. Otherwise the bounds are normalised by `SliceBound`, and the result is empty when the start is not before the stop, else the characters from start to stop. |
| Text.SliceBound | Colmeleon/Database.py:68 | A slice bound in range is kept; a negative one counts from the end; one past either end is clamped to it. |
| Text.SplitTerminated | Colmeleon/CLI.py:83-85 | Lines written each with a terminator split back into the same lines plus one empty piece. |
| Text.SplitAfterFirst | Colmeleon/CLI.py:85 | The first piece of `split` ends at the first separator. |
| Text.StrLessTransitive | Colmeleon/Algorithm.py:308 | Lexicographic order on paths is transitive. |
| Text.StrLessTotal | Colmeleon/Algorithm.py:308 | Any two different paths are ordered. |
| Text.ParseIntToString | Colmeleon/CLI.py:293 | `int(str(n)) == n`. |
| Text.NatToStringValue | Colmeleon/CLI.py:421 | The digits of `str(n)` denote `n`. |

## Left out
- File-system, CSV and pickle I/O: the model abstracts them.
  - `explore`'s walk, directory creation and `shutil.copy` are left out.
  - The catalog is a sequence of `(path, histogram)` pairs.
  - A CSV file is a sequence of rows.
  - `os.path.abspath` and the existence of a file are inputs.
- Image decoding and conversion through PIL and cv2 (`Image.to_grey`, HSV saturation, `Saver`): pixel arrays and saturation planes are inputs.
- matplotlib rendering: `plt.hist` is modelled only by its counts, with the uniform-bin rule stated above.
- The mixed Color×Grey branches of `intersection` (Colmeleon/Algorithm.py:136-177) reload images from disk; the model reports them as unsupported.
- `intersection2` is deprecated and rebuilds histograms from images, so it is not modelled.
- The `label_images` and `cluster` stubs are not modelled.
- argparse, `start`, `compute`, `parse_default_image`, `parse_default_database`, `parse_default_saver` and the message box of CLI.py build objects from outside the model.
  - The argparse namespace is an `args` map from attribute name to value.
- Algorithm.Jaccard: the `np.around` to four decimals is not applied, so 2/7 stands for 0.2857.
- Algorithm.EuclideanSquared: it states the squared distance. The `np.sqrt` and the rounding are floating-point steps outside the model.
- Algorithm.MatchScore: numpy gives inf or NaN on a zero pixel total; the model reports ZeroDivisionError.
- Algorithm.Jaccard: a zero denominator is reported as ZeroDivisionError, as Python raises it.
- Histograms.ColorAxes: a zero pixel total gives NaN in numpy, reported as ZeroDivisionError.
- Histograms.ColorAxes: the uint8 arithmetic of the axes is modelled modulo 256. The contract does not claim that each segment sums to 1.
- Histograms.HistogramHash: `int(res)` on numpy integers is taken as exact, so 64-bit overflow of the accumulated sum is not modelled.
- Algorithm.Retrieve: the incremental compare function is a parameter, so no sign is promised for its scores.
- Cli.SaveParams: the file writes and the printed message are left out. The method returns the path it would write and the text, the built-in default lines on a reset.
- Algorithm.MatchScore: the `function` argument of `match_value` is one of the two intersection variants; the program never passes another function.
- Algorithm.EuclideanSquared: the iteration order of a set operand is an input, because Python's set order depends on hashing.
- Images.ImagePath: `PIL.Image.open` is left out; only the path checks before it are modelled.
- Text.ParseInt: only ASCII digits are accepted, while Python's `int()` also accepts other Unicode decimal digits.
- Database.GreyEntries: the `grey_histograms` generator is a function over all rows, so the pairs it yields before an `IndexError` are not modelled.
- Text.Lower: it lower-cases ASCII letters only.
- Floating point in general: every score is an exact `real`.
- Integer widths: numpy counts are unbounded integers.

## Findings

| source | as written | input that shows it | evidently intended | confidence | as-written member | corrected member |
|---|---|---|---|---|---|---|
| Colmeleon/Algorithm.py:87-90 | On equal bin counts both `histo_min` and `histo_max` are the image histogram, so the model is never read | Grey image `[1]` against grey model `[0]`, one bin each: the intersection is `[1]` | The per-bin minimum of image and model, `[0]` | not executed | Algorithm.IntersectionEqualBinsExample | Algorithm.Intersection |
| Colmeleon/Algorithm.py:254-273 | `match_value` and `retrieval` run that default `intersection`, and every histogram has the same bin count (255 by default), so the match is the image's channel totals over the model's pixel total and is no percentage | Grey image `[2]` against grey model `[1]`, one bin each: the match is 200 | A percentage in [0, 100], here 100 | not executed | Algorithm.MatchScoreAsWrittenExample | Algorithm.MatchScoreBounds |
| Colmeleon/Algorithm.py:29 | The second conversion tests `isinstance(data1, np.ndarray)`; `data1` is already a set, so an ndarray `data2` stays unconverted and `len(data2)` counts duplicates | `jaccard_dist(np.array([0, 0]), np.array([0, 0]))` gives 0.5 | A collection is at distance 0 from itself | not executed | Algorithm.JaccardAsWrittenArraySelf | Algorithm.JaccardSelf |
| Colmeleon/Histogram.py:204 | `set_red` (and `set_green`, `set_blue`, `set_grey`) assign item 0 of the tuple `plt.hist` returns, which raises TypeError | Any call, for example `set_red([0])` | Replace that channel's counts and leave the others unchanged | not executed | Histograms.ColorHistogram.SetRedAsWritten | Histograms.ColorHistogram.SetRed |
| Colmeleon/Database.py:342-343 | The stem of `add` ends at `rindex(".") - 1`, dropping the last character of the base name | `/db/ab.png` and `/db/ac.png` both get the name `/a_hist`, so one histogram file overwrites the other | The stem up to the dot, `/ab` and `/ac`, as `_calculate_histogram` does | not executed | Database.AddStemCollision | Database.AddStem |
