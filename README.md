# Face comparison and synchronized image masking — a Dafny model

This project models the core of a face-comparison tool. Its web front end
compares the faces in two uploaded photographs. The upload page also lets the
user draw rectangles over the photographs and posts them with the form, but the
comparison route never reads them and never masks an image. Masking therefore
stands alone in the repository, and it is modelled here as a stand-alone module.

- **Image masking** (`image_masking.dfy`, module `ImageMasking`). Rectangles
  are given as JSON text with coordinates normalised to [0, 1].
  They are parsed, clamped to the unit square, and filtered to those with a
  positive area. A boolean mask is rasterised from them at the image's pixel
  size, and masked pixels are painted with a fill colour. Mask statistics are
  computed, and two rectangle lists are checked for agreement within a
  tolerance.
- **Face comparison** (`face_compare.dfy`, module `FaceCompare`, class
  `FaceComparator`). A picture is turned into a fixed plan of variations. Faces
  are searched for with an ordered ladder of strategies:
  1. HOG on every variation;
  2. HOG with two upsamplings;
  3. CNN, only when step 2 raised;
  4. a conservative cascade detector whose detections are filtered by aspect
     ratio.

  Every pair of embeddings is then compared. This gives a verdict, the best
  distance, a confidence percentage and the pairs within tolerance.
- **Web front end** (`app.dfy`, module `App`): the upload-name check and the
  confidence label shown with a result.
- `outcomes.dfy` (`Option`, and `Outcome` for a call that may raise) and
  `pystrings.dfy` (Python's substring test, `rsplit('.', 1)`, ASCII `lower()`
  and `str(int)`) are shared helpers.

Foreign calls are parameters of the model, and each but the distance may raise (`Raises`):

- `json.loads` is a function from text to an optional JSON value;
- the face library's image loading, face location, encoding and distance calls
  are the four fields of a `Recognizer` value;
- the OpenCV cascade classifier is a function held by the comparator.

Images are `array2` values. A mask is an `array2<bool>` of shape (height, width),
as numpy shapes it. Floats are modelled as reals.

## Model

| member | source | states |
|---|---|---|
| ImageMasking.ClampRect | src/image_masking.py:42-55 | x and y are clamped to [0, 1], and width and height to [0, 1 - x] and [0, 1 - y], so the clamped rectangle always lies inside the unit square |
| ImageMasking.RectStep | src/image_masking.py:38-59 | one loop iteration: a kept rectangle comes only from an object and lies inside the unit square; an object lacking one of the four keys is skipped; a number, boolean or null raises |
| ImageMasking.StringNeverKept | src/image_masking.py:38-39 | a string element (a character of an iterated string, or a key of an iterated object) never yields a rectangle |
| ImageMasking.Survivors | src/image_masking.py:38-59 | the loop over decoded elements raises or keeps at most as many rectangles as there are elements, each inside the unit square |
| ImageMasking.ParsedRectangles | src/image_masking.py:20-63 | every parsed rectangle lies inside the unit square, and a decoded list yields at most one rectangle per element |
| ImageMasking.ParseRectangleData | src/image_masking.py:20-63 | the loop's result equals the specification `ParsedRectangles`, and every returned rectangle lies inside the unit square |
| ImageMasking.FailureIsFinal | src/image_masking.py:38-63 | once an element raises, no later element can undo it: the whole parse is caught and yields nothing |
| ImageMasking.AnyFailureEmptiesAll | src/image_masking.py:38-63 | a single element that raises a TypeError or KeyError empties the entire result, whatever the other elements are |
| ImageMasking.SurvivorsAppend | src/image_masking.py:38-59 | the filter is compositional and order-preserving: the survivors of a concatenation are the survivors of each part in order, unless a part raises |
| ImageMasking.MissingKeySkipped | src/image_masking.py:39 | an object lacking one of x, y, width, height is skipped on its own: the result is as if it were absent |
| ImageMasking.NothingKeptYieldsNothing | src/image_masking.py:57-59 | when no element is kept (zero area after clamping, or skipped), the result is empty |
| ImageMasking.MalformedInputYieldsEmpty | src/image_masking.py:30-34 | empty text, text that does not decode, and a decoded value that is not a list all yield no rectangles |
| ImageMasking.BadElementEmptiesResult | src/image_masking.py:33-63 | a decoded list with a malformed element (say, a non-numeric coordinate) yields no rectangles |
| ImageMasking.InBoundsKeptUnchanged | src/image_masking.py:42-59 | a rectangle already inside the unit square with positive area passes clamping unchanged |
| ImageMasking.ReparseSurvivors | src/image_masking.py:37-60 | serialising parsed rectangles and parsing them again gives them back exactly |
| ImageMasking.ParseIsIdempotent | src/image_masking.py:20-63 | parsing is idempotent: the JSON of a parse result parses to the same result |
| ImageMasking.ClampingExamples | src/image_masking.py:42-58 | x = 0.8 with width 0.3 is clamped to width 0.2; a rectangle at (1, 1) has no area and is dropped |
| ImageMasking.PixelBox | src/image_masking.py:94-110 | the pixel block of any rectangle is non-empty and, on a non-empty image, lies within the image |
| ImageMasking.FillBox | src/image_masking.py:114 | drawing a pixel block sets exactly the in-image cells of the block and keeps every other cell |
| ImageMasking.CreateMaskFromRectangles | src/image_masking.py:65-119 | the mask has shape (height, width), and a pixel is set iff some rectangle's pixel block covers it |
| ImageMasking.EmptyListMasksNothing | src/image_masking.py:85-86 | no rectangles mask no pixel |
| ImageMasking.EveryRectangleMarksAPixel | src/image_masking.py:107-114 | on a non-empty image every rectangle, even a zero-size one, masks at least the top-left pixel of its block |
| ImageMasking.WholeImageRectangleCoversAll | src/image_masking.py:93-117 | the unit-square rectangle masks every pixel |
| ImageMasking.RasterExample | src/image_masking.py:100-114 | {0.2, 0.3, 0.4, 0.2} on a 200 x 150 image covers columns 40..119 and rows 45..74 |
| ImageMasking.CentredRasterExample | src/image_masking.py:100-114 | {0.25, 0.25, 0.5, 0.5} on a 200 x 150 image masks the centre and not the corner |
| ImageMasking.CopyPixels | src/image_masking.py:151 | the copy is a new array of the image's shape holding the same pixels |
| ImageMasking.PaintMasked | src/image_masking.py:152 | in place, every masked pixel takes the colour and every other pixel keeps its value |
| ImageMasking.ApplyMaskToImage | src/image_masking.py:121-154 | the result is a new image of the same shape; masked pixels take the fill colour (default black) and the others keep the image's pixel; the input is unchanged |
| ImageMasking.CreateMaskedImageFile | src/image_masking.py:156-184 | the returned image shows the fill colour exactly on the pixels covered by some rectangle and the original elsewhere; the output path is returned |
| ImageMasking.GetMaskStatistics | src/image_masking.py:186-210 | total = rows x columns; the masked count is the row-by-row count of true cells; masked + unmasked = total; both percentages are 0 on an empty mask, and otherwise each is its count over the total times 100, lies in [0, 100], and the two add up to 100 |
| ImageMasking.SettingOneCellCountsOneMore | src/image_masking.py:186-198 | setting one false cell of a mask raises the masked count by exactly one and lowers the unmasked count by one, so the count is the number of true cells |
| ImageMasking.UniformMaskStatistics | src/image_masking.py:186-210 | a clear mask counts no masked pixel; a full mask counts every pixel as masked |
| ImageMasking.ValidateRectanglesMatch | src/image_masking.py:212-237 | true iff the lists have equal length and every pair agrees on x, y, width and height within the tolerance |
| ImageMasking.MatchIsSymmetric | src/image_masking.py:212-237 | the agreement check is symmetric in its two lists |
| ImageMasking.MatchIsReflexive | src/image_masking.py:212-237 | with a non-negative tolerance every list agrees with itself |
| FaceCompare.FaceComparator.constructor | src/face_compare.py:20-24 | the comparator keeps the given tolerance (default 0.45) and cascade classifier |
| FaceCompare.ScaledSideBounds | src/face_compare.py:40-42 | a side scaled by 1200 / longest is at most 1200, and the longest side becomes exactly 1200 |
| FaceCompare.VariationPlan | src/face_compare.py:37-75 | a picture over 1200 pixels gives only "Original resized", with every side at most 1200 and the longest side exactly 1200; otherwise "Original", "Enhanced contrast", "Brightened" at full size and "Smaller" at half size; never empty |
| FaceCompare.FaceComparator.PreprocessImageVariations | src/face_compare.py:26-75 | raises iff loading the picture raises; otherwise returns the variation plan of the loaded picture |
| FaceCompare.CascadeFaces | src/face_compare.py:93-102 | every kept face has positive height and a width-to-height ratio within [0.8, 1.25]; no more faces than detections |
| FaceCompare.CascadeFacesMembership | src/face_compare.py:93-102 | a region is returned iff it is the (top, right, bottom, left) conversion of a detection whose ratio lies within [0.8, 1.25] |
| FaceCompare.CascadeFacesAppend | src/face_compare.py:94-100 | the filter keeps the detections' order |
| FaceCompare.FaceComparator.DetectWithOpenCvFallback | src/face_compare.py:77-104 | the loop returns the filtered, converted detections, or nothing when the classifier raises |
| FaceCompare.Sweep | src/face_compare.py:113-129 | a successful search yields non-empty encodings from an existing variation |
| FaceCompare.Fallback | src/face_compare.py:131-172 | the fallback ladder works on the last variation and never reports plain HOG; CNN decides only after HOG 2x raised; "no faces" only when the cascade's faces give nothing |
| FaceCompare.LastResort | src/face_compare.py:160-172 | the cascade step reports the cascade strategy on the last variation with non-empty encodings, and gives "no faces" iff it finds nothing |
| FaceCompare.Report | src/face_compare.py:122-172 | raises iff the search crashed; encodings come only from a successful search and are exactly its encodings; None comes only with "no faces" and its message |
| FaceCompare.EncodingsOf | src/face_compare.py:106-172 | a failing image load raises; returned encodings are never empty |
| FaceCompare.SweepShape | src/face_compare.py:113-131 | HOG runs on the variations in order; the first variation with faces or an exception decides; only when all are empty does the fallback ladder run |
| FaceCompare.FirstHogHitWins | src/face_compare.py:113-129 | HOG on variation i decides iff every earlier variation gave nothing and variation i gave faces (both directions) |
| FaceCompare.FallbackFollowsFullSweep | src/face_compare.py:131-172 | any strategy other than plain HOG, and "no faces", is reached only after HOG found nothing on every variation, and it concerns the last variation |
| FaceCompare.CnnOnlyAfterHog2xRaised | src/face_compare.py:131-157 | CNN decides iff HOG found nothing everywhere, HOG 2x raised on the last variation and CNN found faces there |
| FaceCompare.CascadeIsLastResort | src/face_compare.py:160-170 | the cascade detector decides iff HOG found nothing, HOG 2x did not succeed, CNN (run only after HOG 2x raised) found nothing, and the cascade's faces encode |
| FaceCompare.NoFaceMeansAllEmpty | src/face_compare.py:131-172 | "no faces" is returned iff every strategy that ran found nothing |
| FaceCompare.ReportMeaning | src/face_compare.py:122-172 | the call raises iff loading or an unguarded strategy raises; found encodings are non-empty and come with "Found N faces using S on V"; otherwise the encodings are None with the no-faces message |
| FaceCompare.FaceComparator.GetFaceEncodings | src/face_compare.py:106-172 | the loop and fallbacks return exactly what the strategy ladder specifies |
| FaceCompare.RowPairs | src/face_compare.py:208-211 | one face of the first image is compared with every face of the second, in order, with 1-based face numbers |
| FaceCompare.AllPairs | src/face_compare.py:207-211 | the comparison visits |faces1| x |faces2| pairs |
| FaceCompare.AllPairsMembership | src/face_compare.py:207-211 | a compared triple is present iff it is (i + 1, j + 1, distance of face i to face j) |
| FaceCompare.AllPairsRowMajor | src/face_compare.py:207-211 | the pairs come in strict row-major order |
| FaceCompare.WithinTolerance | src/face_compare.py:210-211 | the matches are at most as many as the pairs and each has a distance within the tolerance |
| FaceCompare.WithinToleranceMembership | src/face_compare.py:210-211 | a pair is a match iff it was compared and its distance is at most the tolerance |
| FaceCompare.WithinToleranceKeepsOrder | src/face_compare.py:210-211 | matches keep the comparison order |
| FaceCompare.Lowest | src/face_compare.py:204-213 | the best distance stays infinite iff there are no pairs |
| FaceCompare.LowestIsMinimum | src/face_compare.py:204-213 | the best distance is infinite iff nothing was compared; otherwise it is the minimum distance and some pair attains it |
| FaceCompare.MatchIffBestWithinTolerance | src/face_compare.py:210-215 | there is a match iff the best distance is finite and at most the tolerance |
| FaceCompare.Confidence | src/face_compare.py:216-220 | the confidence is never negative; with a positive tolerance it is positive iff the best distance is below the tolerance, and at most 100 for a non-negative distance |
| FaceCompare.Verdict | src/face_compare.py:203-220 | the verdict is a match iff the best distance is finite and within the tolerance; the best distance is infinite iff either image has no face; every reported match is within the tolerance |
| FaceCompare.ConfidenceAgreesWithMatch | src/face_compare.py:210-220 | positive confidence implies a match; a match has positive confidence unless the best distance equals the tolerance |
| FaceCompare.IdenticalFacesMatchFully | src/face_compare.py:203-220 | one face each at distance 0 gives a single match (1, 1, 0) with confidence 100 |
| FaceCompare.FaceComparator.CompareEncodings | src/face_compare.py:203-220 | the nested loops give the verdict, best distance, confidence and matches of the all-pairs specification |
| FaceCompare.FaceComparator.CompareFaces | src/face_compare.py:175-244 | raises iff analysing either image raises; fails with "detection failed" when either image has no face; otherwise gives the all-pairs verdict with its best distance and confidence |
| PyStrings.RSplitOnce | app.py:33 | without the separator the string is the only part; otherwise there are two parts, joined by the separator they give the string back, and the second part holds no separator |
| App.AllowedFile | app.py:27-38 | an accepted name contains a dot, has at least five characters and does not end in a dot |
| PyStrings.Lower | app.py:38 | lower-casing keeps the length and maps each character through ASCII lower-casing |
| PyStrings.Contains | app.py:89 | the substring test holds iff the pattern occurs at some position |
| App.NoDotRejected | app.py:29-30 | a name without a dot, the empty name included, is rejected |
| App.AllowedFileSplitsAtLastDot | app.py:27-38 | for an extension without dots, a name is accepted iff the part before the last dot is non-empty and the lower-cased extension is png, jpg, jpeg, gif or bmp (both directions) |
| App.EmptyPartRejected | app.py:37-38 | ".png"-style names and names ending in a dot are rejected |
| App.SplitGuardIsDead | app.py:33-35 | once a dot is present the split always gives two parts, so the length guard never fires |
| App.ExtensionCaseInsensitive | app.py:38 | extensions differing only in ASCII case are treated alike |
| App.UpperCaseExample | app.py:27-38 | "TEST.PNG" is accepted |
| App.DottedNameExample | app.py:27-38 | "archive.tar.jpeg" is accepted |
| App.UnknownExtensionExample | app.py:27-38 | "test.txt" is rejected |
| App.ConfidenceLabel | app.py:89 | the label is "High" iff the details contain "Distance: 0.", and "Medium" otherwise |

## Left out

- File and image I/O:
  - opening images and reading their size;
  - RGBA-to-RGB conversion;
  - saving the masked image.

  The masking operations take pixel arrays and sizes instead. `CreateMaskedImageFile` returns the path and the image it would save.
- ImageMasking.ApplyMaskToImage: requires the mask to have the image's shape. The source's NEAREST resize of a mismatched mask is not modelled, because it is PIL resampling.
- Pixel contents are not modelled:
  - Lanczos resizing, contrast and brightness enhancement;
  - face location, encoding and distance, which are foreign calls taken as parameters;
  - the cascade detector's scale, neighbour and size settings, which belong to the foreign detector.

  A variation records its label, derivation and size.
- FaceCompare.VariationPlan: the resize inside the contrast and brightness steps is not modelled. It runs only when the picture exceeds 1200 pixels, which that branch already excludes, so it is dead code.
- Preprocessing steps other than loading that may raise, such as PIL operations, are not modelled.
- FaceCompare.ScaledSideBounds: sides are computed over reals. Floating-point `1200 / longest * longest` can round to 1199.999…, so in the source the longest side may come out as 1199.
- Floats are modelled as reals:
  - NaN and Infinity JSON values are not modelled;
  - the distance is a total real-valued function, so a NaN distance is not modelled.
- FaceCompare.Confidence: with a zero tolerance the source divides numpy floats by zero. That yields -inf or NaN, and `max(0, ·)` turns either into 0, which is what the model returns.
- Console output is left out: progress prints, the summary printout, and the three-match preview.
- FaceCompare.FaceComparator.CompareFaces: the details are returned as the best distance and the confidence rather than as the formatted text "Distance: d.ddd, Confidence: c.c%". Float formatting is not modelled. App.ConfidenceLabel is stated over any details text.
- FaceCompare.FaceComparator.CompareFaces: a `face_distance` call that raises is not modelled. The distance is a total function, so an exception from it, which escapes `compare_faces` in the source, has no counterpart.
- PyStrings.Lower: ASCII only. Python's full Unicode lower-casing is not modelled.
- The Flask request handling, sessions, templates and upload folder of the web front end are not modelled, apart from the two pure decisions above.
