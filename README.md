# Sketch-to-plotter pipeline, modelled in Dafny

The repository turns a photo into a line drawing and then into G-code for a
CoreXY pen plotter. This project models and proves the two core stages.

**The sketch stage (`process_image_to_sketch`, modules/image_proc.py).**
- It thresholds a grey raster at 127 with an inverted binary threshold, so dark pixels become foreground 255.
- It takes the morphological skeleton: repeated erosion with the 3x3 cross, opening, saturating subtraction and a bitwise OR into the skeleton, until erosion leaves no foreground.
- It frames the skeleton with a 50-pixel background border and inverts it into black lines on white.

**The plotter stage (`image_to_gcode` and `to_corexy`, modules/gcode_utils.py).**
- A path is a start point, an arc length and its points at t = 0, 1/10, ..., 1.
- The stage takes the bounding box of the samples at t = 0 .. 9/10 of every path. It scales the box to 80 mm wide, or by 1 when the box has no width, and moves the box corner to the origin.
- Each point is mixed into motor coordinates (x + y, x - y).
- The program is the preamble `G21`, `G90`, `M3 S1000`, `G1 F3000`; then, for every path at least 2 long, `M5`, a `G0` to its start, `M3` and ten `G1` strokes; then `M5`, `G0 X0 Y0`.
- An empty path list is an error.

## Files

- `wrappers.dfy` (module `Wrappers`): `Option` and `Result`.
- `raster.dfy` (module `Raster`): 8-bit rasters and the image operators the sketch stage uses.
  - `Threshold`, `Erode` and `Dilate` with the 3x3 cross.
  - Saturating `Subtract`, `Or` (defined bit by bit) and `Invert`.
  - `CountNonZero`, and `Pad` with a constant background border.
- `image_proc.dfy` (module `ImageProc`): the skeleton loop, the border and inversion, and the stage.
  - The loop is a method whose state is tied to `ErodeN` and `SkeletonAfter`, two functions of the pass count.
- `gcode_utils.dfy` (module `GcodeUtils`): bounding box, scale, CoreXY mixing, the program and its text.
  - The emitting code is a set of methods proved equal to the specification functions `BoxSamples`, `FrameFor` and `ProgramIn`.
  - The layout of that program is proved separately.

Rasters are values: the source rebinds whole arrays on every pass rather than
writing pixels in place, so the loop keeps its rasters in local variables.
The G-code list is likewise a local sequence that the methods extend.

## Model

| member | source | states |
|---|---|---|
| Raster.Threshold | modules/image_proc.py:21 | the result is binary and has the input's shape; a pixel is foreground (255) exactly when its grey value is at most 127 |
| Raster.ThresholdPixel | modules/image_proc.py:21 | one grey value becomes 0 or 255, and 255 exactly when it is at most 127 |
| Raster.Zeros | modules/image_proc.py:24 | the all-background raster of the given height and width |
| Raster.Erode | modules/image_proc.py:25-28 | a pixel stays foreground exactly when it and each of its in-image cross neighbours is foreground; erosion never brightens a pixel and keeps a binary raster binary |
| Raster.ErodeAtLaw | modules/image_proc.py:25-28 | the minimum over the in-image cross is non-zero exactly when every pixel of the cross is |
| Raster.Dilate | modules/image_proc.py:25-29 | a pixel becomes foreground exactly when it or one of its in-image cross neighbours is foreground; dilation never darkens a pixel and keeps a binary raster binary |
| Raster.DilateAtLaw | modules/image_proc.py:25-29 | the maximum over the in-image cross is non-zero exactly when some pixel of the cross is |
| Raster.Subtract | modules/image_proc.py:30 | saturating subtraction: a pixel is non-zero exactly when the minuend exceeds the subtrahend there, and then it is their difference; the result is below and within the minuend and binary for binary operands |
| Raster.BitOr | modules/image_proc.py:31 | the bitwise OR of two naturals is zero exactly when both are zero |
| Raster.OrPixel | modules/image_proc.py:31 | the 8-bit OR is zero exactly when both operands are zero, and the OR of 0/255 values is 0 or 255 |
| Raster.BitOrIdempotent | modules/image_proc.py:31 | OR of a value with itself is that value |
| Raster.BitOrZero | modules/image_proc.py:31 | 0 is the identity of OR on either side |
| Raster.BitOrBelow | modules/image_proc.py:31 | OR of two values below 2^k stays below 2^k, so OR of pixels is a pixel |
| Raster.Or | modules/image_proc.py:31 | a pixel of the union is non-zero exactly when it is non-zero in either operand; shape and binary-ness are kept |
| Raster.Invert | modules/image_proc.py:49 | bitwise NOT keeps the shape and maps binary to binary |
| Raster.InvertInvolutive | modules/image_proc.py:49 | inverting twice gives back the raster |
| Raster.CountZeroIff | modules/image_proc.py:34 | the non-zero count is 0 exactly when every pixel is 0 |
| Raster.CountMonotone | modules/image_proc.py:34 | a raster whose foreground lies within another's has no larger count |
| Raster.CountAppend | modules/image_proc.py:34 | the count of stacked rasters is the sum of their counts |
| Raster.Pad | modules/image_proc.py:40-46 | the padded raster is 2p taller and wider, holds the input at offset (p, p), is background everywhere else and is binary when the input is |
| Raster.PadCount | modules/image_proc.py:40-46 | padding keeps the non-zero count |
| Raster.CropPad | modules/image_proc.py:40-46 | cropping the border that padding added gives back the raster: padding loses nothing |
| Raster.ErodeKeepsNoBackground | modules/image_proc.py:28 | eroding a raster without a zero pixel leaves no zero pixel |
| Raster.ErodeKeepsNeighbourZero | modules/image_proc.py:25-28 | a zero at a pixel or at one of its four cross neighbours makes the pixel zero after erosion |
| ImageProc.ErodeN | modules/image_proc.py:28-32 | the working raster after k passes is pixel-wise below the input, within its foreground, and binary when the input is |
| ImageProc.Residue | modules/image_proc.py:28-30 | one pass's residue lies within the working raster and is zero wherever the opening covers it |
| ImageProc.SkeletonAfter | modules/image_proc.py:24-31 | the skeleton after n passes has the input's shape, lies within its foreground, starts empty and stays binary |
| ImageProc.WorkingCountNonIncreasing | modules/image_proc.py:28-34 | the working raster's count never grows from one pass to the next |
| ImageProc.EmptyPersists | modules/image_proc.py:32-35 | once a pass leaves no foreground, no later pass does |
| ImageProc.ForegroundBeforeExit | modules/image_proc.py:34-35 | every pass before the exit pass leaves foreground |
| ImageProc.ExitPassUnique | modules/image_proc.py:27-35 | the loop can stop at one pass only |
| ImageProc.ErosionWidens | modules/image_proc.py:25-28 | one erosion widens a background diamond around a pixel by one |
| ImageProc.BackgroundSpreads | modules/image_proc.py:28-32 | after k passes every pixel within distance k of a background pixel is background |
| ImageProc.ExitGuaranteed | modules/image_proc.py:27-35 | with a background pixel (or no pixels), the working raster is empty after height + width - 2 passes, so the loop ends |
| ImageProc.NoBackgroundPersists | modules/image_proc.py:28-32 | erosion never creates a zero in a raster that has none |
| ImageProc.StallsWithoutBackground | modules/image_proc.py:27-35 | as written: without a background pixel, no pass ever empties the working raster, so the loop never exits |
| ImageProc.StalledOnlyWithoutBackground | modules/image_proc.py:27-35 | a working raster still non-empty after height + width - 2 passes means the input has no background |
| ImageProc.EmptiedOnlyWithBackground | modules/image_proc.py:34-35 | a pass that empties the working raster happens only for an input with a background pixel |
| ImageProc.DarkExactlyWhenNoBackground | modules/image_proc.py:21 | the threshold has no background pixel exactly when every grey value is at most 127 |
| ImageProc.ResidueOfLastLayer | modules/image_proc.py:28-30 | when erosion empties the working raster, its opening is empty and the residue covers the whole working raster |
| ImageProc.SkeletonKeepsLastLayer | modules/image_proc.py:27-35 | at the exit pass the skeleton contains the whole working raster of the pass before |
| ImageProc.SkeletonNonEmpty | modules/image_proc.py:27-35 | the skeleton of an input with foreground has foreground |
| ImageProc.RunPasses | modules/image_proc.py:24-35 | the loop is emptied exactly when the input has a background pixel, and then stops at the exit pass with the union of the residues; otherwise the guard stops it after height + width passes |
| ImageProc.SkeletonPass | modules/image_proc.py:28-33 | one pass of the loop body moves the state from pass k to pass k + 1 |
| ImageProc.Skeletonize | modules/image_proc.py:24-35 | fails exactly on inputs without background, after height + width passes; otherwise stops at the first pass that empties the working raster, returns the union of the residues of all earlier passes, contains the last working raster whole, and has foreground when the input has |
| ImageProc.SketchBitmap | modules/image_proc.py:40-49 | the bitmap is 100 pixels taller and wider than the skeleton and binary when the skeleton is |
| ImageProc.SketchBitmapLaw | modules/image_proc.py:40-49 | the 50-pixel frame is white (255) and each inner pixel is 255 minus the skeleton pixel, so skeleton lines are black |
| ImageProc.SketchKeepsLinePixels | modules/image_proc.py:40-49 | inverting the bitmap gives back the padded skeleton, whose count is the skeleton's count |
| ImageProc.ProcessImageToSketch | modules/image_proc.py:4-55 | an undecodable input fails; an all-dark image fails with a stall; every other image yields the encoder's outcome on the framed, inverted skeleton at the exit pass |
| GcodeUtils.ToCoreXY | modules/gcode_utils.py:68-71 | motor a + b is twice x and a - b is twice y |
| GcodeUtils.FromCoreXY | modules/gcode_utils.py:68-71 | the unmixing is a right inverse of the mixing |
| GcodeUtils.CoreXYRoundTrip | modules/gcode_utils.py:68-71 | mixing then unmixing gives back the pen position |
| GcodeUtils.CoreXYInjective | modules/gcode_utils.py:68-71 | distinct pen positions give distinct motor positions |
| GcodeUtils.BoxSamples | modules/gcode_utils.py:45-48 | 10 box points per path |
| GcodeUtils.BoxSampleAt | modules/gcode_utils.py:45-48 | box point 10k + i is path k's point at t = i/10, for i < 10 |
| GcodeUtils.BoxSampleOrigin | modules/gcode_utils.py:45-48 | every box point is the point of some path at some t < 1 |
| GcodeUtils.CollectBoxPoints | modules/gcode_utils.py:45-48 | the nested loop collects exactly the box points, path by path |
| GcodeUtils.Xs | modules/gcode_utils.py:52-56 | the x coordinates, in order |
| GcodeUtils.Ys | modules/gcode_utils.py:53 | the y coordinates, in order |
| GcodeUtils.MinOf | modules/gcode_utils.py:52-53 | the minimum is an element and is at most every element |
| GcodeUtils.MaxOf | modules/gcode_utils.py:56 | the maximum is an element and is at least every element |
| GcodeUtils.BoxWidth | modules/gcode_utils.py:56 | the box width is non-negative |
| GcodeUtils.ScaleFor | modules/gcode_utils.py:59-62 | the scale is positive; it is 1 for a box of no width and otherwise makes the box exactly 80 wide |
| GcodeUtils.ChooseFrame | modules/gcode_utils.py:52-62 | the corner and scale are those of the box of the collected points |
| GcodeUtils.NormaliseRoundTrip | modules/gcode_utils.py:87-104 | translating and scaling loses nothing: undoing it gives back the point |
| GcodeUtils.Place | modules/gcode_utils.py:87-107 | the motor position of a point unmixes to the point moved to the box corner and scaled |
| GcodeUtils.PointWithin | modules/gcode_utils.py:87-104 | a point inside the box lands at x in [0, 80] and y >= 0 |
| GcodeUtils.NormalisedBounds | modules/gcode_utils.py:52-104 | every box point lands at x in [0, 80] and y >= 0 |
| GcodeUtils.CornerReached | modules/gcode_utils.py:52-88 | the box's minimum x and minimum y land on 0 |
| GcodeUtils.FarEdgeReached | modules/gcode_utils.py:56-88 | when the box has width, its maximum x lands on 80 |
| GcodeUtils.EndPointOutsideWidth | modules/gcode_utils.py:47-104 | the box leaves out t = 1: for a straight path whose points at t = i/10 sit at x = 10i, the scale is 8/9 and the end point is drawn beyond x = 80 |
| GcodeUtils.Strokes | modules/gcode_utils.py:98-109 | one G1 stroke per point, to the point's mixed, normalised position, in order |
| GcodeUtils.Block | modules/gcode_utils.py:84-109 | a drawn path contributes 13 commands |
| GcodeUtils.BlockShape | modules/gcode_utils.py:84-109 | a block is pen up, rapid move to the start, pen down, then strokes to t = 1/10 .. 10/10 |
| GcodeUtils.LongPaths | modules/gcode_utils.py:80-81 | there are no more drawn paths than paths |
| GcodeUtils.LongPathsMembers | modules/gcode_utils.py:80-81 | a path is drawn exactly when it is in the list and at least 2 long |
| GcodeUtils.BlocksOfLongPaths | modules/gcode_utils.py:80-81 | short paths contribute nothing: the commands depend only on the drawn paths |
| GcodeUtils.BlocksLayout | modules/gcode_utils.py:80-109 | the commands for the paths are 13 per drawn path, and drawn path j's block sits at 13j .. 13j + 12 |
| GcodeUtils.LaidOutAppend | modules/gcode_utils.py:80-109 | appending a path's block to a laid-out command list keeps it laid out |
| GcodeUtils.ProgramLayout | modules/gcode_utils.py:74-112 | the program has 6 + 13 commands per drawn path: preamble, the blocks in input order at 4 + 13j, then pen up and home |
| GcodeUtils.AppendPath | modules/gcode_utils.py:80-109 | the loop body appends nothing for a short path, and the path's block otherwise |
| GcodeUtils.EmitProgram | modules/gcode_utils.py:74-112 | the emitted commands are the program for the paths in the given frame |
| GcodeUtils.Rendered | modules/gcode_utils.py:75-112 | one line per command, each the command's text |
| GcodeUtils.Render | modules/gcode_utils.py:75-112 | with a break-free number format each command renders to a single line |
| GcodeUtils.FirstBreak | modules/gcode_utils.py:114 | the first line break of a text |
| GcodeUtils.Lines | modules/gcode_utils.py:114 | cutting a text at its breaks gives at least one line, none containing a break |
| GcodeUtils.BreakAfterLine | modules/gcode_utils.py:114 | the first break after a break-free line is the one that ends it |
| GcodeUtils.LinesOfJoin | modules/gcode_utils.py:114 | cutting joined break-free lines gives back the lines |
| GcodeUtils.JoinOfLines | modules/gcode_utils.py:114 | joining a text's lines gives back the text |
| GcodeUtils.TextLines | modules/gcode_utils.py:114 | the program text has exactly one line per command |
| GcodeUtils.FramedLines | modules/gcode_utils.py:75-112 | the first four lines are G21, G90, M3 S1000, G1 F3000 and the last two are M5, G0 X0 Y0 |
| GcodeUtils.ProgramText | modules/gcode_utils.py:74-114 | the text has 6 + 13 lines per drawn path, starting with the preamble lines and ending with the postamble lines |
| GcodeUtils.ImageToGcode | modules/gcode_utils.py:42-114 | fails exactly on an empty path list; otherwise returns the text of the program in the frame of the paths' box |

Definitions without a contract of their own are characterised by the lemmas
above:
- `Normalise` by `NormaliseRoundTrip`, `PointWithin`, `NormalisedBounds`, `CornerReached` and `FarEdgeReached`.
- `FrameFor` and `FrameOf` by `ChooseFrame`, `NormalisedBounds`, `CornerReached` and `FarEdgeReached`.
- `IsShort`, `Contribution`, `Blocks`, `ProgramIn` and `Program` by `LongPathsMembers`, `BlocksOfLongPaths`, `BlocksLayout`, `ProgramLayout` and `ImageToGcode`.
- `Join` and `Text` by `LinesOfJoin`, `JoinOfLines`, `TextLines` and `ProgramText`.
- `CountNonZero` by `CountZeroIff`, `CountMonotone` and `CountAppend`.
- `ErodeAt` and `DilateAt` by `ErodeAtLaw` and `DilateAtLaw`.
- `IsExitPass` by `ExitPassUnique`, `ForegroundBeforeExit` and `EmptyPersists`.
- `EncodeOutcome` by `ProcessImageToSketch`.

## Left out

- Decoding, resizing to 512x512 and grey conversion (modules/image_proc.py:9-18) are image-library calls. The sketch stage receives the grey raster, or None for bytes that are not an image.
- BMP encoding (modules/image_proc.py:52-55) is the function parameter `encode`; its failure is `EncodeFailed`.
- The source returns `None` for both decode and encode failures. The model keeps them apart as `DecodeFailed` and `EncodeFailed`.
- Rasters may have any rectangular shape, not only 512x512; every property holds for all shapes.
- ImageProc.Skeletonize: the source loop has no bound. The model gives up after height + width passes and reports `SkeletonStalled`. It is proved that this happens exactly on the inputs on which the source loops forever (see Findings), so on every other input the results agree.
- Writing the BMP file, running potrace and parsing the SVG (modules/gcode_utils.py:15-40) are file I/O and external processes. The plotter stage receives the traced paths. Their error strings are not modelled.
- Curve evaluation (`path.point`, `path.length`, `path.start`) belongs to the SVG library. A path is given as its start, its length and its points at t = i/10.
- Text: the `:.2f` number formatting is the parameter `fmt`. Error results are the datatype `GcodeError` rather than message strings.
- The model builds the list of commands and renders it at the end; the source appends strings. The text is the same given `fmt`.
- GcodeUtils.ImageToGcode: the empty-point-list check (modules/gcode_utils.py:50) can never fire, since every path gives ten box points. The model states this as an assertion instead of a branch.
- Arithmetic is on exact reals; the rounding of floating point is not modelled.
- The parameter `output_filename` (modules/gcode_utils.py:6) is never used by the source and is not modelled.
- modules/ai_generator.py and app.py are not part of this model.

## Findings

| source | as written | input that shows it | evidently intended | confidence | as-written member | corrected member |
|---|---|---|---|---|---|---|
| modules/image_proc.py:27-35 | the skeleton loop runs until an erosion leaves no foreground, with no bound on the passes | a grey image whose every pixel is at most 127 (an all-black photo): the threshold is all foreground, erosion with out-of-image neighbours ignored keeps it all foreground, and the count never reaches 0 | stop, and report a failure, when no progress is possible; every image with a background pixel is empty after height + width - 2 passes | not executed | ImageProc.StallsWithoutBackground | ImageProc.Skeletonize |

The bounding box is taken over t = 0 .. 9/10 only (modules/gcode_utils.py:47),
while the strokes go to t = 1 (line 99). So a drawing can exceed the 80 mm
width the scale is chosen for. `GcodeUtils.EndPointOutsideWidth` shows a
straight path whose end point is drawn at x = 800/9. The model keeps the
source's sampling, and `NormalisedBounds` is stated for the box points.
