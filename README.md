# Closed-region detection and CTC decoding, modelled in Dafny

This project models the integer core of a PaddleOCR port for Windows ML. That core has four parts:

- **Border tracing** (`FindContours`, a translation of the Suzuki–Abe border follower). A 0/1 grid is padded with a zero frame. A raster scan finds border starts. Each border is followed with an 8-neighbour ring search and stamped with a new border id. Then the frame is cut off again.
- **Closed-region building** (`ClosedRegionBuilder.Build`):
  1. Build a mask from a bitmap's red channel.
  2. Run the border tracer over the mask.
  3. Scan in raster order, flood-filling every cell still 0 (`FindContour`, an explicit-stack 8-connected fill).
  4. Take the min/max bounding box of every region, and keep only the *thick* ones (opposite edges more than one pixel apart).
  5. Collapse boxes that contain one another, except boxes covering more than 90% of the bitmap in both directions.
- **Recognizer decoding.** This is the dictionary lookup `GetLabelByIndex`, the arg-max scan `MinMaxIndex`, and the greedy CTC collapse over the network's per-step scores.
- **Detector box padding.** Each detected box is grown by its height on every side, scaled back to the source image and clamped to it.

Modules:

- `Wrappers` holds Option and Result.
- `BorderTracing` models `src/Paddle/FindContours.cs`:
  - the tracer is a class `FindContours` over an `array2<int>` buffer;
  - reasoning is done on grid values `seq<seq<int>>`.
- `ClosedRegions` models `src/Paddle/ImageClosedRegionDetector.cs`:
  - the flood fill and the extraction loop work on an `array2<int>`;
  - the box computations work on sequences;
  - the builder is a class with the two lists as fields.
- `Recognizer` models the integer parts of `src/Paddle/PaddleRecognizer.cs`.
- `Detector` models lines 63-81 of `src/Paddle/PaddleDetector.cs`.

Inputs the model takes as parameters:

- The bitmap is a function `red(x, y)` giving the red channel of each pixel.
- Network scores are integers, and the 0.001 emission threshold is the parameter `threshold`.
- The detector's `Math.Ceiling(v * scaleRatio)` is an arbitrary function `scale` of the unscaled coordinate.

Notes on the code:

- `RasterScan` traces an outer border (its left neighbour is 0) with `clockwise = false` and a hole with `clockwise = true`.
- The first border id written is 2: `NBD` starts at 1 and is incremented before the trace.
- `FindNeighbor` is only ever called on a centre with all eight neighbours inside the padded grid, and the model requires that.

## Model

| member | source | states |
|---|---|---|
| BorderTracing.FindContours.constructor | src/Paddle/FindContours.cs:16-27 | A new tracer holds a padded empty 2 × 2 region with a zero frame, both border ids 1 and the border-type list `[" ", "in"]` |
| BorderTracing.FindContours.CopyToMap | src/Paddle/FindContours.cs:29-38 | The first rows × cols cells of the target become the tracer's region; its other cells are unchanged |
| BorderTracing.FindContours.MapLoader | src/Paddle/FindContours.cs:40-46 | The tracer adopts the given rows × cols grid padded by one zero cell on every side; the region is framed, both ids are 1 and the type list is kept |
| BorderTracing.FindContours.Reset | src/Paddle/FindContours.cs:48-53 | Pads the region by one cell and resets LNBD and NBD to 1 |
| BorderTracing.FindContours.Pad | src/Paddle/FindContours.cs:55-90 | The new region is the old one behind a zero margin of `padSize` cells, two margins larger in each dimension; ids and types unchanged |
| BorderTracing.FindContours.RmPad | src/Paddle/FindContours.cs:92-127 | The new region is the old one with `padSize` cells cut from every side |
| BorderTracing.UnpadPad | src/Paddle/FindContours.cs:55-127 | Cutting off a margin after adding it gives back the original grid |
| BorderTracing.PadGrid | src/Paddle/FindContours.cs:64-83 | The padded grid holds the original cells shifted by the margin and zeros everywhere in the margin |
| BorderTracing.UnpadGrid | src/Paddle/FindContours.cs:101-115 | The unpadded grid holds the cells of the old grid shifted back by the margin |
| BorderTracing.StartIndex | src/Paddle/FindContours.cs:148-155 | The index table gives the ring position of a neighbour of the centre, so the neighbour table at that position is the start pixel again |
| BorderTracing.IndexInvertsNeighbors | src/Paddle/FindContours.cs:136-155 | The index table and the neighbour table are inverse to each other |
| BorderTracing.RingCellInjective | src/Paddle/FindContours.cs:136-146 | The eight ring positions name eight different cells |
| BorderTracing.ProbeOrder | src/Paddle/FindContours.cs:157-159 | The probe sequence `(startInd + i·weight + 8) % 8` moves one ring step per iteration, ends back at the start index on the eighth step and visits no position twice |
| BorderTracing.ProbeShift | src/Paddle/FindContours.cs:157-159 | Two probe sequences that meet started a fixed number of ring steps apart |
| BorderTracing.FirstHit | src/Paddle/FindContours.cs:157-166 | The first probe step that sees a non-zero neighbour: every earlier probed neighbour is 0 |
| BorderTracing.Neighbor | src/Paddle/FindContours.cs:129-168 | The neighbour search returns a non-zero ring cell of the centre, and returns none exactly when all eight neighbours are 0 |
| BorderTracing.NeighborFromNonZero | src/Paddle/FindContours.cs:157-166 | When the start pixel is non-zero the search always finds something (at the latest after a full turn) |
| BorderTracing.NeighborInjective | src/Paddle/FindContours.cs:157-166 | Two non-zero start pixels around the same centre lead to the same found neighbour only if they are equal; this is what bounds the follower's loop |
| BorderTracing.FindContours.FindNeighbor | src/Paddle/FindContours.cs:129-168 | The loop over the ring returns exactly what the neighbour search specifies |
| BorderTracing.FramedInterior | src/Paddle/FindContours.cs:217-239 | In a region with a zero frame every non-zero cell has all eight neighbours inside the region, so the follower's reads stay in bounds |
| BorderTracing.FindContours.StampSeed | src/Paddle/FindContours.cs:177 | The seed cell becomes NBD, every other cell is unchanged, and the region keeps its zero frame |
| BorderTracing.FindContours.Follow | src/Paddle/FindContours.cs:179-211 | The follower's loop ends. `board` starts at the seed, and each later centre is exactly what FindNeighbor returns around the centre before it, scanning from the pixel that centre was entered from. No later centre is the seed. When the loop closes, the search around the last centre returns the seed; when the first search is empty, the board is empty |
| BorderTracing.FindContours.BoardFollow | src/Paddle/FindContours.cs:170-211 | Stamps NBD on the seed and on exactly the centres of the trace, and leaves every other cell unchanged. The trace is the chain of FindNeighbor results over the grid with the seed stamped (TracedBorder). It runs up to the centre whose search finds the seed again, or it is empty when the seed has no non-zero neighbour |
| BorderTracing.FollowStep | src/Paddle/FindContours.cs:183-201 | Each turn of the follower's loop visits a (centre, previous) state it has not visited before |
| BorderTracing.StepNotBack | src/Paddle/FindContours.cs:198-200 | The state a turn moves into is none of the states already on the trail |
| BorderTracing.RestampedZeros | src/Paddle/FindContours.cs:177-209 | Stamping with non-negative border ids makes no zero cell non-zero and no non-zero cell zero |
| BorderTracing.RestampedOne | src/Paddle/FindContours.cs:223-237 | With ids above 1, a cell still holding 1 held 1 before the scan |
| BorderTracing.RestampedUnpad | src/Paddle/FindContours.cs:242 | Cutting off the margin commutes with the stamping |
| BorderTracing.ScanLogSnoc | src/Paddle/FindContours.cs:217-240 | Border starts are logged in raster order |
| BorderTracing.FindContours.ScanStart | src/Paddle/FindContours.cs:223-237 | A start found on the partly stamped grid is a border start (outer when its left neighbour is 0, otherwise a hole with a right neighbour 0) of the grid the scan began with |
| BorderTracing.FindContours.NewBorder | src/Paddle/FindContours.cs:225-238 | One border start sets LNBD to the old NBD, increments NBD and appends the border type. The border is traced from the start pixel EntryOf(center, kind): the left neighbour, counter-clockwise, for "out"; the right neighbour, clockwise, for "in" (TracedBorder, as for BoardFollow). The new NBD is stamped on the start and on exactly the centres of the trace, and no other cell changes (BorderStamped) |
| BorderTracing.FindContours.TakeStart | src/Paddle/FindContours.cs:223-238 | A start holding 1 with a zero left neighbour is logged as "out", otherwise one with a zero right neighbour as "in". It is a border start of the grid as it stood (BorderStart). The returned trace is followed from the left neighbour counter-clockwise or from the right neighbour clockwise. The start and exactly the trace's centres now hold the new NBD, every other cell is unchanged (BorderStamped), and NBD grew by one |
| BorderTracing.FindContours.ScanCell | src/Paddle/FindContours.cs:220-238 | One cell of the scan (CellStep). A settled cell (not 1, or 1 with non-zero cells on both sides) changes nothing: same grid, same log. Any other cell is logged with its type (StartKind: "out" when its left neighbour is 0) and is a border start; its border is stamped with the new NBD from the start pixel and in the direction of that type, and nothing else changes |
| BorderTracing.FindContours.ScanStep | src/Paddle/FindContours.cs:220-238 | One cell of the scan, with the history and the completed part of the scan extended by what the cell did |
| BorderTracing.FindContours.ScanRow | src/Paddle/FindContours.cs:217-239 | One row of the scan. The history is extended by one border per start of the row (ScanHistory), every cell of the row passed over was settled when reached (ScanComplete), and the region is the history's last grid. No cell of the row still starts a border. LNBD is the NBD from before the row's last start, or 1 when the row has none |
| BorderTracing.FindContours.ScanRows | src/Paddle/FindContours.cs:217-240 | The loop over all rows of the padded region: the history holds one border per start, in scan order, and no start was passed over |
| BorderTracing.FindContours.FinishScan | src/Paddle/FindContours.cs:242 | Removing the padding after the scan leaves the unpadded grid restamped from the unpadded input, with no border start left and LNBD at 1 |
| BorderTracing.FindContours.RasterScan | src/Paddle/FindContours.cs:213-243 | The scan's history: grids[0] is the padded input and grids[k + 1] is grids[k] after the border from the k-th start, a border start of grids[k] of the logged type, got the id old NBD + k + 1, traced from the left neighbour counter-clockwise for "out" or from the right neighbour clockwise for "in" (ScanHistory). Every cell passed without a start was settled when reached (ScanComplete). The result is the last history grid unpadded; no cell still starts a border; one id and one type per start; the starts are in raster order and are border starts of the input; LNBD ends at 1 |
| BorderTracing.ScannedKept | src/Paddle/FindContours.cs:223-237 | Stamping ids above 1 onto non-zero cells keeps every settled cell settled: no 1 is written and no zero is overwritten |
| BorderTracing.ScannedUnpad | src/Paddle/FindContours.cs:242 | Once the whole padded grid is settled, the unpadded grid has no border start left |
| BorderTracing.EntryOf | src/Paddle/FindContours.cs:223-236 | The start pixel of a trace is the left neighbour of the start exactly for an outer border and the right neighbour exactly for a hole |
| BorderTracing.StartKind | src/Paddle/FindContours.cs:223-236 | A start is logged as "out" exactly when its left neighbour is 0, and as "in" otherwise |
| BorderTracing.HistoryTake | src/Paddle/FindContours.cs:225-237 | A logged start whose border is stamped with the next id extends the history by one border |
| BorderTracing.ScanGrow | src/Paddle/FindContours.cs:220-238 | Each cell step extends the history (by a border when a start is logged) and the completed part of the scan by one cell |
| BorderTracing.CompletePass | src/Paddle/FindContours.cs:220-238 | Passing over a settled cell extends the completed part of the scan |
| BorderTracing.CompleteTake | src/Paddle/FindContours.cs:223-237 | Logging a start ends one stretch of passed cells and begins the next after it |
| BorderTracing.CompleteRow | src/Paddle/FindContours.cs:217-239 | The end of a row moves the completed part of the scan on to the next row |
| BorderTracing.Region | src/Paddle/ImageClosedRegionDetector.cs:51-52 | The rows × cols region of a buffer as a grid value, cell by cell |
| ClosedRegions.Mask | src/Paddle/ImageClosedRegionDetector.cs:56-64 | The mask cell in row i, column j is 0 exactly when the red channel of pixel (x = j, y = i) is positive, and 1 otherwise |
| ClosedRegions.BuildMask | src/Paddle/ImageClosedRegionDetector.cs:56-64 | The filled buffer is that mask |
| ClosedRegions.TraceBorders | src/Paddle/ImageClosedRegionDetector.cs:66-72 | After MapLoader, RasterScan and CopyToMap, the copied grid has a 0 exactly where the mask has one |
| ClosedRegions.RestampedSameZeros | src/Paddle/ImageClosedRegionDetector.cs:66-72 | The traced grid and the mask have the same zero cells in both directions |
| ClosedRegions.PushesNeighbours | src/Paddle/ImageClosedRegionDetector.cs:202-218 | A popped in-grid point pushes exactly its in-grid 8-neighbours |
| ClosedRegions.FillStep | src/Paddle/ImageClosedRegionDetector.cs:193-219 | One pop of the fill either collects a new zero cell (marking it -1 and pushing its neighbours) or shrinks the stack, keeping the fill's invariant |
| ClosedRegions.FillDone | src/Paddle/ImageClosedRegionDetector.cs:191-220 | When the stack is empty, every zero cell adjacent to a collected cell has been collected |
| ClosedRegions.FillResult | src/Paddle/ImageClosedRegionDetector.cs:186-221 | A finished fill collects exactly the cells connected to the seed through zero cells |
| ClosedRegions.FindContour | src/Paddle/ImageClosedRegionDetector.cs:186-221 | The contour is exactly the 8-connected component of zero cells containing the seed (empty when the seed is not 0); the seed comes first and no cell repeats; exactly those cells become -1 and every other cell is unchanged |
| ClosedRegions.ConnectedWithin | src/Paddle/ImageClosedRegionDetector.cs:74-88 | More zero cells can only join components |
| ClosedRegions.Beside | src/Paddle/ImageClosedRegionDetector.cs:74-88 | A zero cell adjacent to an already extracted region belongs to the regions extracted so far |
| ClosedRegions.FillUnmarked | src/Paddle/ImageClosedRegionDetector.cs:78-84 | A fill on the partly marked grid finds the same component as on the unmarked grid, and none of its cells is in an earlier region |
| ClosedRegions.ExtractTake | src/Paddle/ImageClosedRegionDetector.cs:80-86 | Appending the fill from the next zero cell keeps the extracted regions disjoint, sorted by seed and complete up to that cell |
| ClosedRegions.ExtractAt | src/Paddle/ImageClosedRegionDetector.cs:78-86 | One cell of the loop: a zero cell adds its region, any other cell adds nothing |
| ClosedRegions.ExtractLine | src/Paddle/ImageClosedRegionDetector.cs:76-87 | One row of the loop keeps the extracted regions complete up to the next row |
| ClosedRegions.ExtractDone | src/Paddle/ImageClosedRegionDetector.cs:74-88 | After the last row the extracted regions are the components |
| ClosedRegions.ExtractRegions | src/Paddle/ImageClosedRegionDetector.cs:74-88 | The regions are exactly the 8-connected components of zero cells of the grid, each once, from its raster-first cell, in raster order, pairwise disjoint and covering every zero cell; their cells end up -1 |
| ClosedRegions.ComponentsSameZeros | src/Paddle/ImageClosedRegionDetector.cs:66-88 | The components of two grids with the same zero cells are the same |
| ClosedRegions.BoxOfBounds | src/Paddle/ImageClosedRegionDetector.cs:103-119 | The min/max fold from int.MaxValue/int.MinValue is the least rectangle holding every point, each edge passing through a point |
| ClosedRegions.BoundingBox | src/Paddle/ImageClosedRegionDetector.cs:103-119 | The loop computes that fold |
| ClosedRegions.CandidatesAre | src/Paddle/ImageClosedRegionDetector.cs:99-131 | The candidates are exactly the thick bounding boxes of the non-empty regions, no more candidates than regions |
| ClosedRegions.CandidateBoxes | src/Paddle/ImageClosedRegionDetector.cs:99-131 | The loop over the regions builds exactly the candidate list |
| ClosedRegions.Partner | src/Paddle/ImageClosedRegionDetector.cs:146-173 | The inner loop finds the highest position below i whose box is not oversized and contains, or lies in, box i, and reports -1 when there is none; every position it passes holds no such box |
| ClosedRegions.MergeDrops | src/Paddle/ImageClosedRegionDetector.cs:158-170 | A merge removes exactly one box: the partner's old box when box i contains it, box i otherwise |
| ClosedRegions.MergeSettled | src/Paddle/ImageClosedRegionDetector.cs:158-170 | A merge keeps the boxes after position i free of containment |
| ClosedRegions.MergeCounts | src/Paddle/ImageClosedRegionDetector.cs:158-170 | A merge removes a box that is not oversized, so the result is a sub-multiset of the input with every oversized box kept with its multiplicity |
| ClosedRegions.MergeCovers | src/Paddle/ImageClosedRegionDetector.cs:158-170 | After a merge every input box still lies in some box |
| ClosedRegions.SettleOne | src/Paddle/ImageClosedRegionDetector.cs:141-154 | An oversized box, or one with no partner below it, joins the settled boxes |
| ClosedRegions.CollapseAt | src/Paddle/ImageClosedRegionDetector.cs:138-173 | One pass of the outer loop never adds a box, keeps Keeps and settles position i |
| ClosedRegions.Reduce | src/Paddle/ImageClosedRegionDetector.cs:133-174 | The collapsed list has no more boxes than the candidates and is a sub-multiset of them; every oversized box keeps its multiplicity; every candidate lies in a kept box; and no two boxes that are not oversized, at different positions, contain one another |
| ClosedRegions.ClosedRegionBuilder.constructor | src/Paddle/ImageClosedRegionDetector.cs:37-41 | Both lists start empty |
| ClosedRegions.ClosedRegionBuilder.Build | src/Paddle/ImageClosedRegionDetector.cs:43-183 | `pointList` is the list of components of the bitmap's mask as ExtractRegions states it, and `boundingBoxes` the collapse of their candidate boxes as Reduce states it |
| Recognizer.LabelByIndex | src/Paddle/PaddleRecognizer.cs:198-210 | Succeeds exactly for 1 ≤ i ≤ labels.Count + 1, giving labels[i-1] or, past the end, a space; any other index is the exception |
| Recognizer.FirstMax | src/Paddle/PaddleRecognizer.cs:118-124 | The scan with a strict `>` ends on the first position of the largest score |
| Recognizer.FirstMin | src/Paddle/PaddleRecognizer.cs:118-130 | The scan with a strict `<` ends on the first position of the smallest score |
| Recognizer.FirstUnique | src/Paddle/PaddleRecognizer.cs:118-130 | The first maximum and the first minimum are unique |
| Recognizer.MinMaxIndex | src/Paddle/PaddleRecognizer.cs:113-131 | Returns the extreme scores (none for an empty span); writes position 1 of an index array only when it is non-null and longer than 1, leaving the first maximum or minimum there (the later write when both are one array); touches no other element |
| Recognizer.StepOf | src/Paddle/PaddleRecognizer.cs:86-88 | One step reads the first arg-max and its score from its slice; an empty slice leaves the index array's 0 and no peak |
| Recognizer.SliceInBounds | src/Paddle/PaddleRecognizer.cs:70-86 | The slice of step n of sample i, `[(n + i·charCount)·labelCount, +labelCount)`, lies inside an output of sampleCount·charCount·labelCount scores |
| Recognizer.Decode | src/Paddle/PaddleRecognizer.cs:84-96 | The greedy CTC collapse of a run of steps emits at most one label per step |
| Recognizer.DecodeFails | src/Paddle/PaddleRecognizer.cs:90-94 | Decoding throws exactly when some emitting step has an index past the dictionary and the space |
| Recognizer.RepeatCollapses | src/Paddle/PaddleRecognizer.cs:90-95 | A step repeating the previous step's index emits nothing |
| Recognizer.BlankSeparates | src/Paddle/PaddleRecognizer.cs:90-95 | Because `lastIndex` follows every step, a label held over two steps is written once, but the same label on both sides of a blank is written twice |
| Recognizer.ReadStep | src/Paddle/PaddleRecognizer.cs:86-88 | Reading the next step's slice with a fresh index array extends the steps by that slice's step |
| Recognizer.DecodeSample | src/Paddle/PaddleRecognizer.cs:80-98 | The per-sample loop returns the decoding of the sample's steps, with the sum of the emitted peaks as the score, or the lookup's exception |
| Recognizer.RestFails | src/Paddle/PaddleRecognizer.cs:84-96 | Once a prefix of the steps throws, the whole run throws the same |
| Recognizer.DecodeAll | src/Paddle/PaddleRecognizer.cs:76-101 | Succeeds exactly when every sample decodes, and then holds one text per sample, each that sample's decoding |
| Detector.Clamp | src/Paddle/PaddleDetector.cs:75-78 | Math.Clamp: the result lies in the range, equals the value inside it and the nearer bound outside it |
| Detector.Grown | src/Paddle/PaddleDetector.cs:65-73 | Growing by the box's height on all four sides widens it by two heights and heightens it to three |
| Detector.PaddedBounds | src/Paddle/PaddleDetector.cs:75-80 | Every padded box lies inside the source image with non-negative width and height, and each edge keeps its scaled value whenever that lies inside its clamp range |
| Detector.PaddedInside | src/Paddle/PaddleDetector.cs:70-80 | A box whose scaled edges all lie inside the source is exactly its scaled grown box |
| Detector.PaddedOutside | src/Paddle/PaddleDetector.cs:75-80 | A box whose scaled right edge falls before its left edge, or whose left edge lies past the image, collapses to width 0 |
| Detector.PadEachIs | src/Paddle/PaddleDetector.cs:63-81 | Padding every box keeps their number and replaces each by its own padded box |
| Detector.PadAll | src/Paddle/PaddleDetector.cs:63-81 | The array, whose length is unchanged, is replaced in place by every box padded |

## Left out

- Bitmap handling is not modelled: `Clone`, `ConvertFormat`, `LockBits`/`UnlockBits`, the unsafe span wrapper and `GetPixel`. The bitmap is the function `red(x, y)`.
- `GetClosedRegions` is not modelled; it converts the boxes to `System.Drawing.Rectangle`.
- Array and memory pools are not modelled (`ArrayPool`/`MemoryPool` renting and returning, `Dispose`). In the source, rented rows can be longer than asked for; the model allocates exact-size arrays. Pool hygiene is not modelled: the model allocates fresh arrays, so rows that `Pad` and `Build` both return to the pool do not arise.
- Console output (`Console.WriteLine` in `RasterScan`) is not modelled.
- Neural-network inference, model loading and tensor shapes are foreign calls; the model takes the output scores as a sequence.
- Floating-point work is not modelled: normalisation, resizing, `maxWidth`, the detector's scale ratio and `Math.Ceiling`, and the score average `score / sb.Length`. That average divides by zero when nothing is emitted.
- Dictionary loading (`ReadToEnd().Replace().Split()`) is file I/O; the dictionary is a parameter.
- `GetPoints` and `GetBoundingBoxes` only return the two fields of `ClosedRegionBuilder`; the model reads the fields directly.
- `Dispose` of every class is not modelled.
- BorderTracing.FindContours.RasterScan: NBD is an unbounded integer; 32-bit overflow of the border id is not modelled.
- ClosedRegions.Oversized: the 90% test `w > W·0.9` on doubles is modelled as `10·w > 9·W` on integers, the exact reading of the double comparison for image sizes.
- Recognizer.MinMaxIndex: scores are integers, so the double sentinels `double.MaxValue`/`double.MinValue` become None. A score equal to a sentinel, an infinity or NaN is not modelled.
- Recognizer.DecodeSample: the score is the integer sum of the emitted peaks; the floating-point average is not modelled. The threshold 0.001 is the parameter `threshold`.
- Detector.PadAll: the rounding-up multiplication by the scale ratio is an arbitrary function `scale`; 32-bit overflow of the scaled coordinates is not modelled.
- `Partner`: the inner `for j` loop of the reduction is written as a method of its own that returns the first matching j. The merge it leads to is done by its caller, as in the source's loop body.
