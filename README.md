# Menu scanner layout core, in Dafny

This project models the layout logic of a menu-scanning web app. A photo of a
restaurant menu is read by OCR, and the words it finds are classified as
`title`, `price`, `price_modifier` or `description`. The client then:

- places every word on the displayed image;
- clusters the words into lines;
- cuts each line into coloured highlight blocks;
- segments the word stream into menu items (price modifier, title, prices,
  description) and frames each item;
- on a tap, finds the title under the finger and shows that item's dish card.

The server side of the app is modelled too:

- the image analysis endpoint turns the Vision service's pages into text
  blocks and sorts them into `titles`, `prices` and `descriptions` buckets,
  asking the text classification endpoint about each block and falling back
  to a length-and-digit rule when that call fails;
- the text classification endpoint coerces the language model's answer into
  one of three labels.

Modules, one per part of the program:

| module | file | what |
|---|---|---|
| `Wrappers` | wrappers.dfy | `Option`, `Result` |
| `Text` | text.dfy | JavaScript `trim`, `join`, ASCII `toLowerCase`, `/\d/`, UTF-16 `length` |
| `Words` | words.dfy | categories, OCR words, display rectangles, `getCategoryColor` |
| `Sorting` | sorting.dfy | the `a.k - b.k` sorts; the reading-order comparator |
| `LineClusterer` | lines.dfy | line clustering (imperative, against a fold) |
| `MenuSegmenter` | segmenter.dfy | `groupMenuItems` (imperative, against a fold) |
| `BlockMerger` | blocks.dfy | block merging of one line (imperative, against a fold) |
| `ItemFrames` | frames.dfy | the grey item frames |
| `HitTest` | hittest.dfy | `handleCanvasClick` and the dish card |
| `ClassifyText` | classify.dfy | api/classify-text.js |
| `VisionBlocks` | vision.dfy | flattening the Vision pages into text blocks (imperative) |
| `AnalyzeImage` | analyze.dfy | bucket dispatch and the endpoint's outcomes (imperative) |

Every loop of the source that builds a result is a `method` whose `ensures`
ties its result to a left fold (`Cluster`, `Run`, `MergeRun`, `Collect`,
`Pick`). The two drawing loops, over the items (src/App.tsx:796-819) and over
the lines (src/App.tsx:826), only draw; the model gives what each iteration
draws (`ItemFrames.ItemFrame`, `BlockMerger.MergeLine`). The properties
are proved as lemmas about those folds.

Some external inputs are parameters of the model:

- the OCR words and their categories;
- `window.devicePixelRatio`;
- the canvas's client rectangle;
- the Vision reply;
- the classification endpoint's outcome for the `i`-th block
  (`outcome: nat -> ClassifyOutcome`);
- the language model's reply.

## Model

| member | source | states |
|---|---|---|
| Words.CategoryOf | src/App.tsx:674 | an absent or empty category becomes `description`; any other string is kept, and a string none of the four labels is kept as unrecognized |
| Words.CategoryOfLabel | src/App.tsx:674 | every category is decoded back from its own label |
| Words.CategoryColor | src/App.tsx:225-239 | one colour per known category, distinct for title, price and modifier; description and every unknown label share the default colour |
| Words.ToWordRect | src/App.tsx:658-676 | the rectangle's left/right edges are the box's x0/x1 and its top/bottom edges y0/y1, scaled by the display size (normalized box) or by display/natural size (pixel box); it carries the word's index, text and category |
| Words.ToWordRects | src/App.tsx:658 | one rectangle per word, in order: rectangle `i` is word `i` placed on the display, with index `i`, its text and its category |
| Words.NormalizedAndPixelAgree | src/App.tsx:660-672 | a normalized box and the same box in natural pixels give the same display rectangle |
| Sorting.SortByKey | src/App.tsx:688 | the sorted rectangles are ordered by the key and are a permutation of the input |
| Sorting.SortByKeyStable | src/App.tsx:688 | the sort is stable: for every key, the rectangles with that key come out in their input order |
| Sorting.ReadingOrderHasCycle | src/App.tsx:729-733 | the reading-order comparator has a three-element cycle, so it is not an ordering |
| LineClusterer.FirstFit | src/App.tsx:692-701 | the line a rectangle joins is the first it fits; none before it fits |
| LineClusterer.GroupLines | src/App.tsx:687-706 | sorting by `y` and then clustering puts every rectangle in exactly one line, and each line is non-empty and in top-to-bottom order |
| LineClusterer.ClusterLines | src/App.tsx:690-706 | the loop computes the first-fit clustering `Cluster` of its input |
| LineClusterer.ClusterIsPartition | src/App.tsx:687-706 | the lines hold every rectangle exactly as often as the input; the word count is kept |
| LineClusterer.ClusterLinesNonEmpty | src/App.tsx:703-705 | every line is non-empty; there are no more lines than rectangles |
| LineClusterer.ClusterKeepsLinesSorted | src/App.tsx:688-699 | a y-sorted input gives y-sorted lines |
| LineClusterer.ZeroHeightRectsStayAlone | src/App.tsx:697 | in a stream of only zero-height rectangles, each opens its own line |
| MenuSegmenter.KeepTitled | src/App.tsx:768 | keeps exactly the items with a title |
| MenuSegmenter.TitledPositions | src/App.tsx:768 | the kept items sit at strictly increasing positions of the input, and those are exactly the titled positions, so the filter keeps creation order and each titled item once |
| MenuSegmenter.GroupMenuItems | src/App.tsx:724-769 | the loop computes `Segment` of its input, and every returned item has a title |
| MenuSegmenter.FirstAnchor | src/App.tsx:737-748 | the first title or price modifier of the stream |
| MenuSegmenter.ActiveIffAnchored | src/App.tsx:737-748 | an item is active exactly when a title or price modifier has been seen |
| MenuSegmenter.BucketsFollowInput | src/App.tsx:746-761 | bucket `c` of all emitted items, in order, is the input's words of category `c` from the first title or modifier on; the earlier prices and descriptions are the only words dropped |
| MenuSegmenter.SelectFromInput | src/App.tsx:752-761 | a selected word is an input word of that category |
| MenuSegmenter.SegmentDrawsFromInput | src/App.tsx:752-768 | every word in a returned item's bucket is an input word of that bucket's category |
| MenuSegmenter.EveryTitleKept | src/App.tsx:746-768 | every title word of the input is in the title of some returned item |
| MenuSegmenter.EmittedStep | src/App.tsx:737-761 | one step: a modifier (or a title after a description) pushes the active item and opens a fresh one; other words join the active item; prices and descriptions with no active item change nothing |
| MenuSegmenter.PriceModifierOpensItem | src/App.tsx:737-753 | a price modifier always closes the active item and opens one holding just that modifier |
| MenuSegmenter.TitleContinuation | src/App.tsx:737-748 | a title extends the active item's title unless that item has a description (or there is none), when it opens a new item |
| MenuSegmenter.OtherWordsNeverOpen | src/App.tsx:754-761 | prices, descriptions and unknown words never open or close an item |
| MenuSegmenter.EmittedItemsAnchored | src/App.tsx:737-765 | every emitted item has a title or a modifier, and at most one modifier |
| MenuSegmenter.TitleAcrossPriceExample | src/App.tsx:737-768 | title, price, title, description make one item whose title is both titles |
| MenuSegmenter.ConsecutiveModifiersExample | src/App.tsx:737-768 | two modifiers in a row, then title, price, price, description make one item holding only the second modifier |
| BlockMerger.MergeLine | src/App.tsx:833-850 | the blocks of a line are `MergeRun` of the line sorted by `x` |
| BlockMerger.MergeSorted | src/App.tsx:836-850 | the walk with a current block, pushed when a new one starts, computes `MergeRun` of the sorted line |
| BlockMerger.MergeRunKeepsWords | src/App.tsx:839-850 | the blocks, read left to right, give back the line |
| BlockMerger.MergeRunWellFormed | src/App.tsx:839-850 | blocks are non-empty and of one category; prices and unknown categories stay single words; merging runs are maximal |
| BlockMerger.MergeRunCount | src/App.tsx:839-850 | between one block and one per word |
| BlockMerger.PricesStaySeparate | src/App.tsx:840 | a line of prices is one block per price |
| BlockMerger.UniformLineIsOneBlock | src/App.tsx:840-843 | a line of one merging category is a single block |
| ItemFrames.MinOf | src/App.tsx:808-809 | `Math.min` of a non-empty list is a member and a lower bound |
| ItemFrames.MaxOf | src/App.tsx:810-811 | `Math.max` of a non-empty list is a member and an upper bound |
| ItemFrames.FrameOf | src/App.tsx:796-818 | the frame starts at a non-negative point and encloses every word with 8 units to spare; its left and top edges are tight; its width and height are the words' extent plus 16, also when clamped |
| ItemFrames.ItemFrame | src/App.tsx:798-805 | an item is framed exactly when it has words; the frame encloses all of them |
| ItemFrames.FrameFarEdges | src/App.tsx:814-818 | the width spans from the leftmost word's left edge to the rightmost word's right edge plus 16, clamped or not (same vertically); unclamped, the right and bottom edges are 8 units past some word |
| ItemFrames.EverySegmentedItemFramed | src/App.tsx:796-804 | every item the segmenter returns gets a frame |
| HitTest.Round | src/App.tsx:630 | `Math.round` is within a half of its argument |
| HitTest.CanvasScale | src/App.tsx:629 | the canvas scale is the whole part of a pixel ratio of 1 or more, and exactly 1 for any smaller (or missing) ratio |
| HitTest.CanvasPixels | src/App.tsx:630-631 | a canvas side is at least 1 pixel, and exactly size × scale for a whole display size |
| HitTest.CanvasSizeExact | src/App.tsx:629-631 | for whole display sizes the canvas is exactly the display size times the scale |
| HitTest.CanvasPoint | src/App.tsx:908-913 | the tap has canvas coordinates unless the canvas has zero client width or height |
| HitTest.CanvasPointScales | src/App.tsx:908-913 | the tap's canvas coordinates are its offset in the canvas scaled by canvas/client size |
| HitTest.HitBox | src/App.tsx:919-935 | a word has a hit box unless it is a pixel box and the image has no natural size |
| HitTest.HitBoxIsDrawnRectScaled | src/App.tsx:919-935 | the hit box is the word's display rectangle scaled by the factor |
| HitTest.FindClicked | src/App.tsx:916-938 | the first word that is a title and whose box holds the tap, edges included |
| HitTest.TapHitsWord | src/App.tsx:917-937 | a tap inside a title word's display rectangle hits that word once both are scaled alike |
| HitTest.ScaleKeepsInside | src/App.tsx:937 | scaling by a positive factor keeps a point inside a box |
| HitTest.TapFindsTitle | src/App.tsx:908-938 | with the canvas scale as the factor, a tap inside a title word finds that word or an earlier one |
| HitTest.MatchItem | src/App.tsx:942-948 | the first item with a title word of equal text, x0 and y0 |
| HitTest.Texts | src/App.tsx:957 | the texts of the words, in order |
| HitTest.Dish | src/App.tsx:952-959 | the card's modifier is absent exactly when the item has none; prices are the price texts in order; a one-word title or modifier is that word's text |
| HitTest.ClickWithFactor | src/App.tsx:902-965 | nothing without dims, words or items; a card exactly when the tap maps to canvas, hits a title and a matching item exists; the card is the dish of the first item whose title holds a word like the first title word the tap hits |
| HitTest.HandleCanvasClickAsWritten | src/App.tsx:902-965 | the handler as written (factor 2): no card without state; a card is the dish of the first item holding the first title word hit at factor 2 |
| HitTest.HandleCanvasClick | src/App.tsx:902-965 | the handler with the canvas's own scale: the same guarantees, with the hit boxes at the canvas scale |
| HitTest.AsWrittenAgreesAtDensityTwo | src/App.tsx:921-934 | at pixel ratio 2 the handler as written is the corrected one |
| HitTest.AsWrittenMissesAtDensityOne | src/App.tsx:921-937 | at pixel ratio 1 a tap on a title opens nothing as written, and opens its dish when corrected |
| HitTest.BackToWords | src/App.tsx:774-779 | maps each rectangle back to the OCR word it came from |
| HitTest.ToOcrItem | src/App.tsx:774-779 | every bucket is mapped back word by word |
| HitTest.ToOcrItems | src/App.tsx:774-779 | one stored item per segmented item |
| HitTest.SegmentIndicesValid | src/App.tsx:724-779 | every word of a segmented item points back to an existing OCR word |
| HitTest.TapOnTitleOpensDish | src/App.tsx:902-961 | when the stored items are the segmentation of the words, a tap inside any title word always opens a dish card, and it is the dish of an item whose title holds a word like that title word or an earlier title word under the tap |
| Text.Trim | api/classify-text.js:66 | `trim` never lengthens a text and leaves no whitespace at either end |
| Text.TrimIsInfix | api/classify-text.js:66 | the trimmed text is a contiguous piece of the input with only whitespace cut off either side |
| Text.TrimOfTrimmed | api/analyze-image-gpt.js:126-128 | trimming trimmed text changes nothing |
| Text.TrimEmptyIff | api/analyze-image-gpt.js:126 | a text trims to empty exactly when it is all whitespace |
| Text.Join | api/analyze-image-gpt.js:121 | `join` of no parts is empty, of one part is that part |
| Text.JoinAppend | api/analyze-image-gpt.js:121 | joining one more part appends one separator and that part |
| Text.ToLower | api/classify-text.js:66 | lower-casing maps every character and keeps the length |
| Text.Utf16Length | api/analyze-image-gpt.js:200 | `length` counts each character once or twice |
| ClassifyText.NormalizeAnswer | api/classify-text.js:66 | an absent answer stays absent; a present one is its trimmed text lower-cased, so it has no capitals and no whitespace at either end |
| ClassifyText.ValidateLabel | api/classify-text.js:71-72 | the label is one of `title`, `price`, `description`; a valid answer is kept, anything else is `description` |
| ClassifyText.HandleClassify | api/classify-text.js:2-80 | 405 for non-POST, 400 for missing or empty text before any model call, and a label from the closed set exactly when the model answered |
| ClassifyText.NormalizedLabelKept | api/classify-text.js:66-72 | an answer that is a label up to case and outer whitespace gives that label |
| ClassifyText.OtherAnswerIsDescription | api/classify-text.js:66-72 | an answer that is not a label up to case and outer whitespace gives `description` |
| ClassifyText.BlankAnswerIsDescription | api/classify-text.js:66-72 | a blank answer gives `description` |
| VisionBlocks.WordTexts | api/analyze-image-gpt.js:121 | text `i` is word `i`'s text, an absent one as empty |
| VisionBlocks.LineText | api/analyze-image-gpt.js:121 | no words give empty text, one word gives its own text |
| VisionBlocks.LineTextAppend | api/analyze-image-gpt.js:121 | each further word adds a single space and its text at the end, so the words are joined by single spaces in order |
| VisionBlocks.LineBlock | api/analyze-image-gpt.js:119-137 | a line gives nothing when it has no words or blank text, throws when it has text but no readable box, and otherwise gives a block whose text is the non-empty trimmed joined text |
| VisionBlocks.BlockCorners | api/analyze-image-gpt.js:129-134 | a block's corners are the line box's first and third vertices |
| VisionBlocks.LineConfidenceBounds | api/analyze-image-gpt.js:135 | the block confidence is the mean of the words' confidences (missing = 0), so it lies in [0,1] when they do |
| VisionBlocks.FlattenPages | api/analyze-image-gpt.js:112-143 | the page loop computes `Collect` of all lines in page, block, line order |
| VisionBlocks.FlattenBlocks | api/analyze-image-gpt.js:116-141 | the block loop continues the walk over the page's lines |
| VisionBlocks.FlattenLines | api/analyze-image-gpt.js:118-139 | the line loop continues the walk over the block's lines and stops at the first throw |
| VisionBlocks.ResumeFailure | api/analyze-image-gpt.js:252-259 | once a line has thrown, later lines change nothing |
| VisionBlocks.CollectFailsIff | api/analyze-image-gpt.js:124-134 | the walk throws exactly when some line throws |
| VisionBlocks.CollectedBlocks | api/analyze-image-gpt.js:114-143 | at most one block per line, each the block of some line |
| VisionBlocks.CollectedInOrder | api/analyze-image-gpt.js:114-143 | a finished walk yields exactly the blocks of the lines that have one, in line order |
| VisionBlocks.CollectedKeepsEveryBlock | api/analyze-image-gpt.js:114-143 | every line with a block contributes it to a finished walk |
| VisionBlocks.CollectedTextsTrimmed | api/analyze-image-gpt.js:126-128 | every block's text is non-empty and trimmed |
| AnalyzeImage.FallbackBucket | api/analyze-image-gpt.js:200-217 | price exactly for a digit and under 10 code units, description exactly from 30 code units; prices have under 10 characters, titles under 30, descriptions at least 15 |
| AnalyzeImage.FallbackOnShortTexts | api/analyze-image-gpt.js:200-206 | "450" is a price; "PIZZA" and "fresh basil" are titles |
| AnalyzeImage.BucketFor | api/analyze-image-gpt.js:182-217 | a failed or throwing call uses the fallback rule, the same on both paths; an answer gives a bucket exactly when it names one of the three, and that bucket |
| AnalyzeImage.ClassifyBlocks | api/analyze-image-gpt.js:160-219 | the loop's buckets are the blocks picked for each bucket, in input order |
| AnalyzeImage.PickMembers | api/analyze-image-gpt.js:186-217 | a block is in a bucket exactly when its outcome sends it there |
| AnalyzeImage.PickIndices | api/analyze-image-gpt.js:167-218 | each block in a bucket sits at an input position whose answer named that bucket, and the positions strictly increase, so input order is kept |
| AnalyzeImage.BucketCounts | api/analyze-image-gpt.js:160-218 | the three bucket sizes plus the blocks whose answer named no bucket add up to the input |
| AnalyzeImage.NothingDroppedWithoutStrayAnswer | api/analyze-image-gpt.js:186-196 | no block is dropped unless an answer named no bucket |
| AnalyzeImage.NoBlockLostThroughClassifier | api/analyze-image-gpt.js:171-218 | when the outcomes come from this repository's classification endpoint, every block lands in a bucket |
| AnalyzeImage.AnalyzeVisionData | api/analyze-image-gpt.js:105-250 | the endpoint after the Vision reply computes `AnalysisOf` |
| AnalyzeImage.AnalysisCounts | api/analyze-image-gpt.js:148-232 | buckets together hold at most `totalBlocks`; zero blocks means empty buckets from `yandex-vision`; `yandex-gpt` only with blocks |
| AnalyzeImage.AnalyzedTextsTrimmed | api/analyze-image-gpt.js:160-218 | every block in a bucket has non-empty, trimmed text |

## Design and code

Each bullet sets the behaviour a menu reader is meant to have against what
the code does. The model follows the code in each case:

- **Consecutive price modifiers.** Intended: `DOUBLE TRIPLE <title> ...` gives one item holding both modifiers. Code: every price modifier opens a new item, so `DOUBLE` ends up in an item with no title, and that item is filtered out (`MenuSegmenter.ConsecutiveModifiersExample`).
- **Fallback classification.** Intended: a short lower-case phrase such as `"fresh basil"` falls back to `description`. Code: every text under 30 code units becomes a title, unless it holds a digit and is under 10 code units (a price) (`AnalyzeImage.FallbackOnShortTexts`).
- **Classification requests.** Intended: one classification request per page, followed by a numeric-override filter and a title-validity filter. Code: one request per block, and the client applies no local correction; the only fallback is `description` for a missing category (src/App.tsx:220-222, 674).
- **Line clustering.** Intended: clustering by vertical midpoint, with a floor under zero heights, and lines re-sorted afterwards. Code: the top `y` is compared against 0.6 × the mean height, with no floor, and the lines stay in creation order.

## Left out

- React state, effects, the redraw debounce and the `isDrawing` guard: they sequence calls and hold no logic of their own.
- Canvas drawing calls, `setTransform`, and the `Math.round`/`max(0, …)` pixel snapping of the coloured blocks (src/App.tsx:853-878). The model gives the blocks, not their pixels. The canvas size does use `Math.round`.
- Logging (`console.*`, `addLog`, log shipping) and the debug dataset fields.
- `fetch`, Tesseract, the mock OCR path and image capture. Their results are parameters of the model.
- HTTP plumbing of api/analyze-image-gpt.js before the Vision reply is parsed: the method, image-size and configuration checks, the Vision request and its error statuses (lines 6-103). The model starts from the parsed reply.
- The prompt text and request body of api/classify-text.js, and the upstream call itself, which is the `GptReply` parameter.
- `MenuSegmenter.GroupMenuItems`: the sort at src/App.tsx:729-733 is not modelled. Its comparator is no ordering (`Sorting.ReadingOrderHasCycle`), so the segmenter takes its words already in reading order.
- `VisionBlocks.FlattenPages`: the single function with three nested loops is modelled as three methods, one per loop level. A throw in an inner loop is returned as a `Failure` and passed up.
- Floating point: coordinates, sizes and confidences are exact reals; rounding error, infinities and NaN are not modelled.
- `Text.ToLower`: lower-cases ASCII letters only. Non-ASCII letters never lower-case onto the labels compared against.
- `HitTest.Dish`: the joined title and description of items with several words are stated through `Text.Join`, not character by character.
- `VisionBlocks.LineBlock`: coordinates are copied whatever their JSON type. An element of `vertices` that is `null` is not modelled.
- Other repository files (api/analyze-image-vision.js, api/log.js, the test scripts and Playwright specs) are not part of this model.

## Findings

| source | as written | input that shows it | evidently intended | confidence | as-written member | corrected member |
|---|---|---|---|---|---|---|
| src/App.tsx:921-934 | hit boxes are display coordinates × 2 "for DPR", while the canvas is display size × `max(1, floor(devicePixelRatio))` (src/App.tsx:629-631) | pixel ratio 1, 100×100 image, title box (0.1,0.1)-(0.2,0.2), tap at (15,15): the tap is at canvas (15,15), the box at (20,20)-(40,40), so nothing opens | scale the hit boxes by the canvas's own pixel ratio | not executed | HitTest.HandleCanvasClickAsWritten, HitTest.AsWrittenMissesAtDensityOne | HitTest.HandleCanvasClick, HitTest.TapOnTitleOpensDish |
