# Figure clustering and caption linking, modelled in Dafny

This project models the geometric core of the `ImageExtraction` package. That package finds
figures on rendered PDF pages and attaches captions and surrounding text to them. The model
covers four parts:

- **Boxes and text blocks** (`geometry.dfy`, module `Geometry`): the `BBox` and `TextBlock`
  records, the bounding box of two boxes, and the distance between box centres.
- **Layout analysis** (`layout_analyzer.dfy`, module `LayoutAnalyzer`):
  - the element types and layout elements;
  - the closed-box overlap test;
  - `align_text`, which pairs each element with the stripped, space-joined texts of the blocks
    it overlaps;
  - the per-component rule of `detect`, which drops small regions and types the rest by aspect
    ratio.

  Python's `str.strip()` lives in `strings.dfy` (module `Strings`).
- **Figure clustering** (`figure_clusterer.dfy`, module `FigureClusterer`):
  - `FigureObject.merge`, the overlap ratio and the merge test;
  - `group`, which starts from one singleton figure per element. It then runs greedy passes
    until a pass merges nothing. The scan is defined by recursive functions:
    - `Grow`: the inner scan that grows `current`;
    - `Pass`: one pass with its `used_indices` set;
    - `Settle`: repeats passes until one merges nothing.

    `group` is kept as methods with loops, each proved equal to its function:
    - `Group`, the `while merged` loop;
    - `MergePass`, one pass over the figures;
    - `Absorb`, the inner loop.
- **Caption linking** (`caption_linker.dfy`, module `CaptionLinker`):
  - `attach`, kept as nested loops: the caption is the nearest block directly above or below
    the figure; the context is every block within the context threshold. The outer loop is
    `Attach`, and its body, the scan over the blocks, is `LinkFigure`;
  - `fetch_context`: a filter loop followed by a stable sort by distance;
  - `_find_block_by_text`;
  - the `CaptionedFigure` construction rule.

`wrappers.dfy` holds the `Option` type, which stands for Python's `None`.

Modelling choices:

- Coordinates and confidences are `real`.
- The sources compute centre distances with `** 0.5`. The model keeps the squared distance
  (`Geometry.CentreDistSq`) and compares squares:
  - `d <= t` becomes `WithinDistance(d2, t)`, that is `0 <= t && d2 <= t * t`;
  - the strict comparison `d1 < d2` becomes `d1 * d1 < d2 * d2`.

  `Geometry.WithinDistanceIff` and `Geometry.CloserIff` prove both replacements exact for
  non-negative distances. So the caption choice, the context filter and the sort order are
  the same as on the real distances.
- The `float('inf')` starting value of the caption distance in `attach` becomes `None`.
- `BBox` does not check `x0 <= x1` or `y0 <= y1`, following the frozen dataclass. Lemmas that
  need ordered corners say so with `WellFormed`. The overlap ratio is proved in [0, 1] for
  every pair of boxes, malformed or not.

Main invariants of `group`:

- The output figures together hold every input element exactly once: `Flatten` of the figures
  equals the input as a multiset.
- Every figure is *coherent*:
  - its box is the hull of its elements' boxes;
  - its confidence lies between the smallest and largest confidence among its elements.
- No pass adds figures. A pass that sets `merged` removes at least one, which is the
  termination measure.
- The loop ends with no pair `i < j` of figures passing the merge test.
- The result is the one the greedy scan order gives. Other groupings with the properties
  above are not allowed. `GreedyScanOrder` shows three point boxes for which the order
  matters.

## Model

| member | source | states |
|---|---|---|
| Geometry.Union | ImageExtraction/figure_clusterer.py:29-34 | the merged box `(min x0, min y0, max x1, max y1)` contains both boxes and is contained in every box that contains both; it is well-formed when either input is |
| Geometry.UnionUnique | ImageExtraction/figure_clusterer.py:28-34 | any box with those two properties equals the merged box, so the merged box is the unique smallest box containing both |
| Geometry.UnionAssociative | ImageExtraction/figure_clusterer.py:110 | absorbing boxes one after another gives the same box in any grouping, which keeps the grown figure's box equal to the hull of its elements |
| Geometry.UnionCommutative | ImageExtraction/figure_clusterer.py:30-33 | the merged box does not depend on the order of the two figures |
| Geometry.CentreDistSq | ImageExtraction/figure_clusterer.py:166-182 | the squared distance between box centres is non-negative, and 0 when the centres coincide |
| Geometry.CentreDistSqSymmetric | ImageExtraction/caption_linker.py:112-126 | the centre distance is symmetric in the two boxes |
| Geometry.WithinDistanceIff | ImageExtraction/figure_clusterer.py:137-139 | for a distance d >= 0, the squared test `WithinDistance(d * d, t)` holds exactly when `d <= t`, negative thresholds included |
| Geometry.CloserIff | ImageExtraction/caption_linker.py:68 | for distances d1, d2 >= 0, `d1 < d2` holds exactly when `d1 * d1 < d2 * d2` |
| Strings.Strip | ImageExtraction/layout_analyzer.py:147 | `strip()` returns a slice of its input with only whitespace (Python's `isspace` set) before and after it; the result neither starts nor ends with whitespace; it is empty exactly when the input is all whitespace |
| Strings.StripTrimmed | ImageExtraction/layout_analyzer.py:147 | a string with no whitespace at either end is returned unchanged |
| Strings.StripAppendWhitespace | ImageExtraction/layout_analyzer.py:145-147 | appending a whitespace character does not change what `strip()` returns |
| LayoutAnalyzer.BoxesOverlap | ImageExtraction/layout_analyzer.py:151-159 | boxes `_boxes_overlap` rejects share no point of their closed boxes, malformed boxes included |
| LayoutAnalyzer.BoxesOverlapSymmetric | ImageExtraction/layout_analyzer.py:151-159 | `_boxes_overlap` is symmetric |
| LayoutAnalyzer.BoxesOverlapIffCommonPoint | ImageExtraction/layout_analyzer.py:154-159 | for well-formed boxes, `_boxes_overlap` holds exactly when the closed boxes share a point, so boxes touching on an edge or a corner overlap |
| LayoutAnalyzer.AlignText | ImageExtraction/layout_analyzer.py:124-149 | one pair per element, in input order: the element unchanged, paired with the stripped concatenation of `text + " "` over the overlapping blocks in input order |
| LayoutAnalyzer.OverlappingTextsMembers | ImageExtraction/layout_analyzer.py:141-145 | a text is accumulated exactly when some block that overlaps the element carries it |
| LayoutAnalyzer.MatchedText | ImageExtraction/layout_analyzer.py:141-147 | the matched text neither starts nor ends with whitespace |
| LayoutAnalyzer.MatchedTextEmptyIff | ImageExtraction/layout_analyzer.py:141-147 | the matched text is `""` exactly when every overlapping block's text is whitespace, in particular when no block overlaps |
| LayoutAnalyzer.MatchedTextJoins | ImageExtraction/layout_analyzer.py:143-147 | when the overlapping texts are non-empty and have no surrounding whitespace, the matched text is those texts joined by single spaces |
| LayoutAnalyzer.ClassifyRegion | ImageExtraction/layout_analyzer.py:85-114 | a component is dropped exactly when `(x_max - x_min) * (y_max - y_min) < min_area`; a kept one gets the box `(x_min, y_min, x_max, y_max)`, well-formed for a well-formed component, and a confidence in [0, 1] |
| LayoutAnalyzer.ClassifyRegionByShape | ImageExtraction/layout_analyzer.py:96-114 | with width w and height h: TEXT (0.7) exactly when h > 0 and w > 3h; FIGURE (0.6) exactly when h > 0 and h < 2w and w < 2h; TABLE (0.5) in every other case, so a non-positive height, a ratio of at most 0.5 and a ratio in [2, 3] all give TABLE |
| LayoutAnalyzer.Emitted | ImageExtraction/layout_analyzer.py:76-120 | at most one element per component. Every element is the one the per-component rule gives for some component, with a confidence in [0, 1] |
| LayoutAnalyzer.Detect | ImageExtraction/layout_analyzer.py:75-122 | the loop over the components emits, in component order, exactly the elements the per-component rule keeps, and every emitted confidence lies in [0, 1] |
| LayoutAnalyzer.EmittedMonotone | ImageExtraction/layout_analyzer.py:86-88 | raising `min_area` never lets more elements through |
| FigureClusterer.Merge | ImageExtraction/figure_clusterer.py:19-46 | the merged figure's box contains both boxes and lies inside every box containing both; its elements are the first figure's followed by the second's, so the lengths add up; its confidence is the mean, and so lies between the two |
| FigureClusterer.OverlapRatio | ImageExtraction/figure_clusterer.py:143-164 | `_calculate_overlap` lies in [0, 1] for every pair of boxes |
| FigureClusterer.OverlapAreaBelowMin | ImageExtraction/figure_clusterer.py:151-163 | the intersection area is 0.0 or at most the smaller of the two box areas; it is 0.0 when either box has x0 > x1 or y0 > y1 |
| FigureClusterer.OverlapRatioSymmetric | ImageExtraction/figure_clusterer.py:150-164 | the overlap ratio is symmetric |
| FigureClusterer.OverlapRatioIdentical | ImageExtraction/figure_clusterer.py:159-164 | a well-formed box of positive area has ratio 1.0 with itself |
| FigureClusterer.OverlapRatioPositiveIff | ImageExtraction/figure_clusterer.py:150-164 | the ratio is positive exactly when the open interiors intersect; so it is 0.0 for disjoint or touching boxes and whenever either area is not positive |
| FigureClusterer.ShouldMergeAlways | ImageExtraction/figure_clusterer.py:131-141 | with an overlap threshold of at most 0 every pair merges, since the ratio is never negative. With a non-negative distance threshold, two boxes with the same centre always merge |
| FigureClusterer.ShouldMergeIff | ImageExtraction/figure_clusterer.py:121-141 | with the real centre distance d, `_should_merge` holds exactly when overlap >= `overlap_threshold` or d <= `distance_threshold`; either condition alone suffices |
| FigureClusterer.ShouldMergeSymmetric | ImageExtraction/figure_clusterer.py:131-139 | the merge test is symmetric in the two boxes |
| FigureClusterer.HullIsBoundingBox | ImageExtraction/figure_clusterer.py:79-86 | the hull of a figure's elements contains every element's box and lies inside every box that contains them all |
| FigureClusterer.MergeCoherent | ImageExtraction/figure_clusterer.py:108-110 | merging two coherent figures gives a coherent figure: the box is the hull of the concatenated elements and the mean confidence stays within the elements' range |
| FigureClusterer.FlattenSingletons | ImageExtraction/figure_clusterer.py:79-86 | the singleton figures hold the input elements, in order |
| FigureClusterer.Absorb | ImageExtraction/figure_clusterer.py:99-111 | the inner loop returns exactly what `Grow` gives: later indices are scanned in increasing order, and each unconsumed one that passes the merge test against the figure grown so far is merged in and consumed |
| FigureClusterer.GrowFrom | ImageExtraction/figure_clusterer.py:99-111 | the greedy scan consumes only later unconsumed indices, one per merge. The grown figure and the still-unconsumed figures hold the same elements as before. Coherence is kept. When nothing is absorbed, the figure is unchanged and no later unconsumed figure passes the merge test against it |
| FigureClusterer.GrowCounts | ImageExtraction/figure_clusterer.py:105-111 | the scan only adds consumed indices, and `merged` ends set exactly when it was set before or some index was consumed |
| FigureClusterer.MergePass | ImageExtraction/figure_clusterer.py:91-117 | one pass returns exactly what `PassOf` gives: figures are visited in order, consumed ones are skipped, and each visited figure is grown by the greedy scan and appended |
| FigureClusterer.PassOfOutcome | ImageExtraction/figure_clusterer.py:91-117 | a pass keeps the elements (as a multiset) and the coherence of the figures. It never adds figures. `merged` is set exactly when it removed some. A pass that merges nothing returns its input, and no pair i < j of that input passes the test. A pass over figures with no mergeable pair merges nothing |
| FigureClusterer.SettleOutcome | ImageExtraction/figure_clusterer.py:89-117 | repeating passes until one merges nothing keeps the elements and the coherence, adds no figures, and ends with no pair i < j passing the merge test |
| FigureClusterer.SettleSeparated | ImageExtraction/figure_clusterer.py:117 | figures with no mergeable pair settle on themselves, since their first pass merges nothing |
| FigureClusterer.SettleSingletons | ImageExtraction/figure_clusterer.py:79-117 | settling the singleton figures holds every element exactly once and keeps the figures coherent. It gives no more figures than elements and leaves no mergeable pair |
| FigureClusterer.Group | ImageExtraction/figure_clusterer.py:66-119 | `group` returns exactly `Settle` of the singleton figures, so the greedy scan order is fixed. It returns `[]` for `[]`. Its figures hold every input element exactly once and are coherent. There are no more figures than elements, and no pair i < j of figures passes the merge test. When no pair of input elements passes the test, the result is one singleton figure per element, in input order |
| FigureClusterer.GreedyScanOrder | ImageExtraction/figure_clusterer.py:95-117 | with distance threshold 10 and point boxes at x = 0, 8 and 16, `group` gives `[{0, 8}, {16}]`. The boxes at 8 and 16 also pass the merge test, but the scan consumes 8 first and the grown figure's centre is 12 away from 16 |
| FigureClusterer.GroupOutcomeOfOne | tests/ImageExtraction/test_figure_clusterer.py:18-34 | one element gives exactly one figure, with that element's box, that element alone and its confidence |
| FigureClusterer.GroupOutcomeOfMergeablePair | tests/ImageExtraction/test_figure_clusterer.py:59-108 | two elements that pass the merge test end in one figure holding both, whose box is the union of their boxes |
| FigureClusterer.GroupOutcomeMembers | ImageExtraction/figure_clusterer.py:113-114 | every element of every output figure is an input element |
| FigureClusterer.GroupOutcomeConfidence | ImageExtraction/figure_clusterer.py:39-40 | when every input confidence lies in [lo, hi], so does every output figure's confidence |
| FigureClusterer.GroupOutcomeSeparated | ImageExtraction/figure_clusterer.py:89-117 | no two distinct output figures pass the merge test, in either order |
| CaptionLinker.NewCaptionedFigure | ImageExtraction/caption_linker.py:19-21 | a missing `nearby_text` becomes the empty list; a given one, the figure and the caption are kept |
| CaptionLinker.HorizontalOverlap | ImageExtraction/caption_linker.py:139-146 | boxes whose x-ranges the test rejects share no x-coordinate |
| CaptionLinker.IsBelowOrAbove | ImageExtraction/caption_linker.py:128-152 | a block directly below or above the figure overlaps it horizontally, and its open y-range shares no point with the figure's |
| CaptionLinker.HorizontalOverlapIffCommonX | ImageExtraction/caption_linker.py:139-146 | for well-formed boxes, the horizontal test holds exactly when the closed x-ranges share a point, touching included |
| CaptionLinker.BelowOrAboveOutsideFigure | ImageExtraction/caption_linker.py:148-152 | a block directly below or above the figure shares no interior with it, so its overlap ratio with the figure is 0.0 |
| CaptionLinker.CaptionIndex | ImageExtraction/caption_linker.py:58-70 | the chosen caption index, when there is one, names a block of the list |
| CaptionLinker.CaptionText | ImageExtraction/caption_linker.py:58-70 | the caption is None exactly when no block is directly above or below the figure. Otherwise it is the text of the nearest, earliest such block |
| CaptionLinker.CaptionIndexIsNearest | ImageExtraction/caption_linker.py:58-70 | the caption is None exactly when no block is directly above or below the figure. Otherwise it is such a block at minimal centre distance, and every such block before it is strictly farther, so ties go to the first |
| CaptionLinker.NearestCaptionUnique | ImageExtraction/caption_linker.py:66-70 | at most one block is the nearest, earliest qualifying block |
| CaptionLinker.NearbyBlocks | ImageExtraction/caption_linker.py:72-74 | the context filter keeps no more blocks than it is given, and each kept block is an input block within the context threshold |
| CaptionLinker.NearbyTexts | ImageExtraction/caption_linker.py:72-74 | each context text is the text of an input block within the context threshold |
| CaptionLinker.NearbyBlocksMembers | ImageExtraction/caption_linker.py:73-74 | exactly the blocks within the context threshold, inclusive, are kept |
| CaptionLinker.NearbyBlocksConcat | tests/ImageExtraction/test_caption_linker.py:86-111 | the context filter works block by block, so the kept blocks stay in input order |
| CaptionLinker.Link | ImageExtraction/caption_linker.py:58-80 | the captioned figure carries the figure unchanged. Its caption is None exactly when no block is directly above or below; otherwise it is the text of such a block. It has at most one context text per block, each the text of a block within the context threshold |
| CaptionLinker.LinkIgnoresCaptionThreshold | ImageExtraction/caption_linker.py:38 | two linkers that differ only in `caption_distance_threshold` attach the same captions and context |
| CaptionLinker.Attach | ImageExtraction/caption_linker.py:41-82 | one captioned figure per input figure, in order. Each carries the figure unchanged, the text of the caption block that CaptionIndexIsNearest characterises, and the texts of the blocks within the context threshold, in input order |
| CaptionLinker.LinkFigure | ImageExtraction/caption_linker.py:57-80 | one scan of the blocks for one figure builds exactly the captioned figure `Link` describes: the running caption choice follows `CaptionIndex`, and the collected texts follow the context filter |
| CaptionLinker.InsertByKey | ImageExtraction/caption_linker.py:108 | one insertion step of the sort adds exactly the inserted element |
| CaptionLinker.SortByKey | ImageExtraction/caption_linker.py:108 | the sort is a permutation of its input |
| CaptionLinker.SortSorted | ImageExtraction/caption_linker.py:108 | the sort's output is in non-decreasing key order |
| CaptionLinker.SortStable | ImageExtraction/caption_linker.py:108 | the sort is stable: for each key value, the elements with that key keep their input order |
| CaptionLinker.FetchContext | ImageExtraction/caption_linker.py:84-110 | the result is a permutation of the blocks within `max_distance`, inclusive. It is in non-decreasing distance order, and blocks at equal distance keep their input order |
| CaptionLinker.FindBlockByText | ImageExtraction/caption_linker.py:154-160 | None exactly when no block has the query text; otherwise a block of the list with that text |
| CaptionLinker.FindBlockByTextFirst | ImageExtraction/caption_linker.py:157-159 | the block found is the first one whose text equals the query |

## Left out

- Page rendering, text extraction and the document lifecycle of `pdf_renderer.py`: these are
  calls into PyMuPDF. Only `BBox` and `TextBlock` are modelled.
- The pixel stage of `LayoutAnalyzer.detect`: image decoding, grayscale conversion, the
  brightness threshold and connected-component labelling are library numerics. `Detect`
  starts from the component bounds they would produce.
- `ocr_service.py`, `figure_extractor.py`, `bbox_visualizer.py` and `__init__.py`: OCR engine
  wrappers, image cropping and file output, drawing, and re-exports. None of them is part of
  this model.
- Floating point:
  - coordinates, confidences, ratios and means are exact reals, so IEEE rounding is not
    modelled;
  - a tie between two distances that rounding could split or merge is decided on exact
    values;
  - the square root in the distance is replaced by comparisons on squares.
- Geometry.CentreDistSq: states that coinciding centres give 0, but not the converse
  (0 only when the centres coincide). The converse needs a nonlinear step that the solver
  cannot close on its own, and no part of the model depends on it.
- Object identity and mutation:
  - `CaptionedFigure` and `FigureObject` are values, so `merge` cannot modify its inputs and
    `__post_init__` becomes a construction function;
  - the in-place `list.sort` in `fetch_context` is modelled as a pure stable insertion sort
    of the filtered list;
  - aliasing between Python lists is not modelled.
- Integer widths: the component bounds of `detect` are unbounded integers. Numpy's 64-bit
  overflow in the area product is not modelled.
- Argument checking: Python accepts any objects with the right attributes. The model's types
  stand in for those duck-typed inputs, and none of the sources' type hints is enforced at
  run time.
