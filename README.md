# Bayer demosaicing and integer validation, modelled in Dafny

This project models the image core of the JLib library of the raw-reader
application, together with the integer validation rule of its WPF front end:

- **Border extension** (`ImageUtils.AddBorder` and the private `Border*`
  routines). The image is copied into the middle of a larger buffer. The
  margin is then filled under one of the `BorderType` policies: Constant,
  Replicate, Reflect, Wrap, Reflect101 or Isolated.
- **Convolution** (both `Convolve` overloads and `ConvolveOneUnit`). This is a
  kernel-weighted window sum without kernel flipping, i.e. a correlation. The
  strided overload writes only the cells of a lattice.
- **Buffer helpers**: `Copy2D` (both overloads), `Add`, `AddInPlace`, `Merge`
  (both overloads), `RoundAndConvert` and `FloorAndConvert`.
- **Demosaicing**: the four `GetChannels_*` methods (OpenCV, Imatest, LabVIEW,
  MATLAB), which turn a Bayer mosaic into red, green and blue planes. Also
  their dispatchers `BayerToBgr32_Dispatch` / `BayerToRgb48_Dispatch` and the
  public entry points `BayerToBgr32` / `BayerToRgb48`.
- **`IntegerRule.Validate`**: a blank input is accepted when `CanEmpty` is
  set. Otherwise the text must parse as a 32-bit integer within `Min .. Max`.

The source works on flat, row-major `width * height` buffers. The model uses
`array2` for them:

- `a[y, x]` is sample `y * width + x`;
- `Length0` is the height and `Length1` the width.

Specification functions see a buffer as `seq<seq<T>>` rows (`Border.Contents`).
`Demosaic.Flat` and the `Bgr32` / `Rgb48` layout lemmas connect the rows back
to the flat pixel order of the merged output buffers.

`double` arithmetic is modelled with `real`. A pixel is a `nat` bounded by the
type's maximum (`ByteMax` = 255, `UShortMax` = 65535). A conversion that throws
(`T.CreateChecked` out of range) becomes `None`.

Modules:

| module | role |
|---|---|
| `Options` | `Option` |
| `Grid` | integer and lattice lemmas |
| `BorderTypes` | `BorderType`; where each margin cell reads from; the doc-comment patterns |
| `Border` | `AddBorder` and the `Border*` methods |
| `Convolution` | `Convolve`, `ConvolveOneUnit` |
| `Buffers` | `Copy2D`, `Add`, `AddInPlace`, `Merge` |
| `Convert` | checked conversions |
| `Bayer` | patterns and the `Copy2D` split |
| `OpenCVDemosaic`, `ImatestDemosaic`, `LabVIEWDemosaic`, `MATLABDemosaic` | the four methods |
| `Demosaic` | dispatch and the public entry points |
| `IntegerRule` | the validation rule |

Each state-changing method is proved against a specification function:

- `AddBorder` returns `Extended`;
- `Convolve` returns `Correlate`;
- each `GetChannels` returns its module's `Channels`.

Lemmas then state what those functions promise, for example:

- the margin patterns of the `BorderType` doc comments;
- the interior is kept;
- `Merge` loses nothing;
- a flat-colour mosaic (every red sample one value, every green sample one,
  every blue sample one) comes back as three uniform planes of those values
  from the OpenCV, LabVIEW and MATLAB methods;
- formatted numbers parse back.

Three behaviours of the code are worth stating plainly:

- Reflect repeats the edge sample (`fedcba|abcdefgh`) and Reflect101 does not
  (`gfedcb|abcdefgh`), as the `BorderType` doc comments say
  (`BorderType.cs:19`, `BorderType.cs:29`) and the fill loops do
  (`ImageUtils.cs:203-253`, `ImageUtils.cs:396-446`).
- The LabVIEW method truncates the first and last columns without adding 0.5
  (`ImageUtils.cs:846-856`). In the second column it truncates green
  (`ImageUtils.cs:873`); only red and blue on green rows are rounded there.
- The Imatest method does not keep a flat-colour mosaic flat. Its isolated
  border counts the samples outside the image as zero
  (`ImageUtils.cs:757-759`), so the estimates along the edges are darker. On
  an RGGB mosaic the green value at the red corner sample is half the green
  value, rounded (`ImatestDemosaic.IsolatedCornerGreen`).

## Model

| member | source | states |
|---|---|---|
| BorderTypes.SourceCoord | JLib.Drawing/ImageUtils.cs:128-447 | under every copying policy, each margin cell reads an interior sample, and interior cells read themselves |
| BorderTypes.ReplicateClamps | JLib.Drawing/ImageUtils.cs:128-189 | Replicate reads the nearest interior sample (the clamp of the coordinate) |
| BorderTypes.ReflectMirrors | JLib.Drawing/ImageUtils.cs:191-254 | Reflect: margin cell `k` away from an edge copies the interior cell `k` away from that edge, edge sample included |
| BorderTypes.Reflect101Mirrors | JLib.Drawing/ImageUtils.cs:384-447 | Reflect101: margin cell `k` away from an edge copies interior cell `k + 1`, so the edge sample is not repeated |
| BorderTypes.Reflect101KeepsParity | JLib.Drawing/ImageUtils.cs:384-447 | Reflect101 maps a margin coordinate to a source coordinate of the same parity, so a 2 x 2 colour mosaic stays in phase |
| BorderTypes.WrapIsRing | JLib.Drawing/ImageUtils.cs:256-382 | Wrap reads coordinate `(x - t) mod n`, for margins of any thickness, also thicker than the image |
| BorderTypes.Line | JLib.Drawing/BorderType.cs:6-37 | one axis extended by `t` cells each side keeps the samples in its middle |
| BorderTypes.ConstantLine | JLib.Drawing/BorderType.cs:8-11 | `iiiiii|abcdefgh|iiiiiii`: both margins are the fill value |
| BorderTypes.ReplicateLine | JLib.Drawing/BorderType.cs:13-16 | `aaaaaa|abcdefgh|hhhhhhh`: the margins repeat the first and last sample |
| BorderTypes.ReflectLine | JLib.Drawing/BorderType.cs:18-21 | `fedcba|abcdefgh|hgfedcb`: the margins are the reversed outer `t` samples |
| BorderTypes.WrapLine | JLib.Drawing/BorderType.cs:23-26 | `cdefgh|abcdefgh|abcdefg`: the left margin is the tail, the right margin the head |
| BorderTypes.Reflect101Line | JLib.Drawing/BorderType.cs:28-31 | `gfedcb|abcdefgh|gfedcba`: the margins are the reversed samples next to the edge ones |
| BorderTypes.IsolatedLine | JLib.Drawing/BorderType.cs:33-36 | Isolated writes nothing outside the samples |
| BorderTypes.ReplicateDocComment | JLib.Drawing/BorderType.cs:13-16 | the doc comment's own example, `aaaaaa` and `hhhhhhh` around `abcdefgh` |
| BorderTypes.ReflectDocComment | JLib.Drawing/BorderType.cs:18-21 | the doc comment's example, `fedcba` and `hgfedcb` |
| BorderTypes.WrapDocComment | JLib.Drawing/BorderType.cs:23-26 | the doc comment's example, `cdefgh` and `abcdefg` |
| BorderTypes.Reflect101DocComment | JLib.Drawing/BorderType.cs:28-31 | the doc comment's example, `gfedcb` and `gfedcba` |
| Border.Extended | JLib.Drawing/ImageUtils.cs:15-39 | the bordered image is `(t + w + t)` x `(t + h + t)` and holds the image at offset `(t, t)` |
| Border.CropIsIdentity | JLib.Drawing/ImageUtils.cs:23-34 | cropping the interior out of a bordered image gives back the image, under every policy |
| Border.CopiedPixel | JLib.Drawing/ImageUtils.cs:128-447 | under a copying policy every bordered cell holds the image sample at the source coordinates of its row and its column |
| Border.SameSourceRows | JLib.Drawing/ImageUtils.cs:203-228 | two bordered rows with the same source row are equal |
| Border.SameSourceColumns | JLib.Drawing/ImageUtils.cs:229-254 | two bordered columns with the same source column are equal |
| Border.ExtendedRowIsLine | JLib.Drawing/ImageUtils.cs:41-78 | every image row, bordered, is that row extended as one axis under the same policy |
| Border.ExtendedColumnIsLine | JLib.Drawing/ImageUtils.cs:41-78 | every image column, over the full bordered height, is that column extended as one axis |
| Border.ConstantMargin | JLib.Drawing/ImageUtils.cs:80-126 | Constant: every margin cell, corners included, holds the fill value |
| Border.IsolatedMargin | JLib.Drawing/ImageUtils.cs:72-73 | Isolated: margin cells keep the buffer's default value |
| Border.ReplicateCorners | JLib.Drawing/ImageUtils.cs:163-188 | Replicate: each corner block holds the nearest corner sample |
| Border.ReflectRows | JLib.Drawing/ImageUtils.cs:203-228 | Reflect: top margin row `t - 1 - k` equals bordered row `t + k`, and likewise at the bottom |
| Border.ReflectColumns | JLib.Drawing/ImageUtils.cs:229-253 | Reflect: the same mirror for columns, over the full height |
| Border.Reflect101Rows | JLib.Drawing/ImageUtils.cs:396-421 | Reflect101: top margin row `t - 1 - k` equals row `t + 1 + k`, and likewise at the bottom |
| Border.Reflect101Columns | JLib.Drawing/ImageUtils.cs:422-446 | Reflect101: the same for columns, over the full height |
| Border.WrapRows | JLib.Drawing/ImageUtils.cs:268-320 | Wrap: top margin row `t - 1 - k` copies image row `h - 1 - k mod h`; bottom margin row `k` copies image row `k mod h` |
| Border.WrapColumns | JLib.Drawing/ImageUtils.cs:321-381 | Wrap: the same cycle for the left and right margin columns |
| Border.AddBorder | JLib.Drawing/ImageUtils.cs:15-39 | `AddBorder` returns a fresh buffer whose contents are exactly `Extended` of the image |
| Border.BorderedPadIsExtended | JLib.Drawing/ImageUtils.cs:23-36 | the padded copy, bordered in place, is the extended image |
| Border.Pad | JLib.Drawing/ImageUtils.cs:23-34 | the fresh buffer holds the image rows at offset `(t, t)` and defaults elsewhere |
| Border.CopyRow | JLib.Drawing/ImageUtils.cs:31 | `Array.Copy` of one row: that segment of the destination takes the row, nothing else changes |
| Border.Border | JLib.Drawing/ImageUtils.cs:41-78 | the dispatch leaves the interior unchanged and fills each margin cell as `Extended` prescribes |
| Border.BorderConstant | JLib.Drawing/ImageUtils.cs:80-126 | interior kept; every margin cell becomes the filling |
| Border.BorderReplicate | JLib.Drawing/ImageUtils.cs:128-189 | interior kept; margin cells become their clamped interior sample |
| Border.ReplicateTopBottom | JLib.Drawing/ImageUtils.cs:140-161 | the top and bottom bands of the interior columns take the first and last row |
| Border.ReplicateLeftRight | JLib.Drawing/ImageUtils.cs:163-188 | the side bands of every row, margins included, take the first and last column |
| Border.BorderReflect | JLib.Drawing/ImageUtils.cs:191-254 | interior kept; margin cells become their mirrored sample, edge sample included |
| Border.ReflectTopBottom | JLib.Drawing/ImageUtils.cs:203-227 | the top and bottom bands mirror the outer interior rows |
| Border.ReflectLeftRight | JLib.Drawing/ImageUtils.cs:229-253 | the side bands mirror the outer columns over the full height |
| Border.BorderReflect101 | JLib.Drawing/ImageUtils.cs:384-447 | interior kept; margin cells become their mirrored sample, edge sample excluded |
| Border.Reflect101TopBottom | JLib.Drawing/ImageUtils.cs:396-420 | the bands mirror the rows next to the edge rows |
| Border.Reflect101LeftRight | JLib.Drawing/ImageUtils.cs:422-446 | the side bands mirror the columns next to the edge columns |
| Border.BorderWrap | JLib.Drawing/ImageUtils.cs:256-382 | interior kept; margin cells become their sample on the ring |
| Border.WrapTop | JLib.Drawing/ImageUtils.cs:268-293 | the top band cycles upward through the image rows from the last; the cursor ends are returned |
| Border.WrapBottom | JLib.Drawing/ImageUtils.cs:295-319 | with the cursor ends swapped, the bottom band cycles downward from the first row |
| Border.WrapLeft | JLib.Drawing/ImageUtils.cs:321-350 | the left band cycles leftward through the columns from the last, on every row |
| Border.WrapRight | JLib.Drawing/ImageUtils.cs:352-381 | the right band cycles rightward from the first column, on every row |
| Convolution.Impulse | JLib.Drawing/ImageUtils.cs:1487-1514 | the unit-impulse kernel has the kernel's shape |
| Convolution.WindowImpulse | JLib.Drawing/ImageUtils.cs:1487-1514 | a window weighted by the impulse at `(cy, cx)` is that one source sample |
| Convolution.KernelSum | JLib.Drawing/ImageUtils.cs:1487-1514 | the sum of two kernels has their shape |
| Convolution.WindowLinear | JLib.Drawing/ImageUtils.cs:1487-1514 | the window sum is linear in the kernel |
| Convolution.WindowFlat | JLib.Drawing/ImageUtils.cs:1487-1514 | over a uniform window the sum is the value times the kernel's total weight |
| Convolution.WindowPeriodic | JLib.Drawing/ImageUtils.cs:1487-1514 | over a window that repeats a 2 x 2 block, the sum is each block value times the kernel's weight on that value's phase |
| Convolution.ConvolveOneUnit | JLib.Drawing/ImageUtils.cs:1487-1514 | the two nested loops compute the kernel-weighted window sum at the window's corner |
| Convolution.ConvolveInto | JLib.Drawing/ImageUtils.cs:1443-1485 | the strided overload writes the window sum into exactly the lattice cells `(startX + i*strideX, startY + j*strideY)` and leaves the others unchanged |
| Convolution.Correlate | JLib.Drawing/ImageUtils.cs:1413-1427 | the convenience overload's result has the image's shape |
| Convolution.Convolve | JLib.Drawing/ImageUtils.cs:1413-1427 | a fresh buffer holding `Correlate`: the window sum of the image bordered by `kernelSize / 2` under the given policy |
| Convolution.CorrelateImpulse | JLib.Drawing/ImageUtils.cs:1413-1427 | convolving with the centred impulse returns the image, under every policy |
| Convolution.CorrelateImpulseAt | JLib.Drawing/ImageUtils.cs:1413-1427 | one cell of the convolution with the centred impulse is the image sample there |
| Convolution.CorrelateLinear | JLib.Drawing/ImageUtils.cs:1413-1427 | convolution is linear in the kernel, cell by cell |
| Buffers.Copy2D | JLib.Drawing/ImageUtils.cs:1565-1590 | exactly the lattice cells take the source's value; every other cell is unchanged |
| Buffers.Copy2DConvert | JLib.Drawing/ImageUtils.cs:1592-1617 | as `Copy2D`, with each copied value widened to `double` |
| Buffers.Sum | JLib.Drawing/ImageUtils.cs:1528-1542 | the cell-wise sum has the operands' shape |
| Buffers.Add | JLib.Drawing/ImageUtils.cs:1528-1542 | `Add` returns a fresh buffer holding the cell-wise sum |
| Buffers.AddInPlace | JLib.Drawing/ImageUtils.cs:1551-1563 | the target becomes the sum of its old contents and the source and is returned |
| Buffers.Merged | JLib.Drawing/ImageUtils.cs:1619-1639 | the interleaved buffer holds `elementCount * channelCount` samples |
| Buffers.MergedAt | JLib.Drawing/ImageUtils.cs:1628-1636 | sample `i` of plane `c` sits at `i * channelCount + c` |
| Buffers.PlaneOfMerged | JLib.Drawing/ImageUtils.cs:1619-1639 | de-interleaving plane `c` of the merged buffer gives back plane `c` |
| Buffers.Merge | JLib.Drawing/ImageUtils.cs:1619-1639 | `Merge` returns a fresh buffer holding the pixel-interleaved planes |
| Buffers.CopyPixel | JLib.Drawing/ImageUtils.cs:1632-1635 | the inner loop of `Merge` writes one pixel's channel samples at their interleaved positions and leaves the rest of the buffer alone |
| Buffers.WithFilling | JLib.Drawing/ImageUtils.cs:1648-1670 | appending the filling plane adds one plane as long as the first |
| Buffers.MergeWithFilling | JLib.Drawing/ImageUtils.cs:1648-1670 | `Merge(filling, ...)` returns the planes interleaved with the filling as the last sample of each pixel |
| Buffers.FillingPlane | JLib.Drawing/ImageUtils.cs:1666 | the last sample of every merged pixel is the filling |
| Convert.Truncate | JLib.Drawing/ImageUtils.cs:1732 | truncation toward zero: the result is within one of the value, on the side of zero |
| Convert.CreateChecked | JLib.Drawing/ImageUtils.cs:1719 | a successful checked conversion fits the pixel type |
| Convert.CreateCheckedRange | JLib.Drawing/ImageUtils.cs:1719 | the conversion succeeds exactly on `(-1, max + 1)` and then yields the truncated value |
| Convert.CreateCheckedOfPixel | JLib.Drawing/ImageUtils.cs:1611 | a pixel widened to `double` converts back to itself |
| Convert.RoundsToNearest | JLib.Drawing/ImageUtils.cs:1719 | adding 0.5 before converting rounds to the nearest pixel, halves upward |
| Convert.Converted | JLib.Drawing/ImageUtils.cs:1713-1736 | a plane converts exactly when every cell does, and then each cell is its own conversion |
| Convert.ConvertedOfPixels | JLib.Drawing/ImageUtils.cs:1726-1736 | a plane of widened pixels converts back to the pixels |
| Convert.ConvertedUniform | JLib.Drawing/ImageUtils.cs:1713-1736 | a plane holding one pixel value everywhere converts back to a uniform plane of that value, truncated or rounded |
| Convert.ConvertPlane | JLib.Drawing/ImageUtils.cs:1713-1736 | the shared loop: it succeeds exactly when `Converted` does and then returns its value |
| Convert.RoundAndConvert | JLib.Drawing/ImageUtils.cs:1713-1724 | `RoundAndConvert` is `Converted` with 0.5 added, throwing when any cell does not fit |
| Convert.FloorAndConvert | JLib.Drawing/ImageUtils.cs:1726-1736 | `FloorAndConvert` is `Converted` with nothing added |
| Bayer.RedPhase | JLib.Drawing/ImageUtils.cs:607-637 | the red samples occupy one of the four 2 x 2 phases |
| Bayer.BluePhase | JLib.Drawing/ImageUtils.cs:607-637 | blue occupies a different phase from red |
| Bayer.PatternNames | JLib.Drawing/ImageUtils.cs:607-637 | each pattern's top-left 2 x 2 block spells its name, matching the `Copy2D` starts of each case |
| Bayer.GreenCheckerboard | JLib.Drawing/ImageUtils.cs:607-637 | green takes the two remaining phases, a checkerboard; red and blue alternate around it |
| Bayer.ColorPeriodic | JLib.Drawing/ImageUtils.cs:607-637 | the colour of a cell repeats with period 2 both ways |
| Bayer.MasksPartition | JLib.Drawing/ImageUtils.cs:603-637 | the three split planes add up to the mosaic; only the cell's own colour can be non-zero |
| Bayer.PhaseLattice | JLib.Drawing/ImageUtils.cs:610 | a stride-2 `Copy2D` from `(sx, sy)` touches exactly the cells of that phase |
| Bayer.Mask | JLib.Drawing/ImageUtils.cs:603-637 | a split plane has the mosaic's shape |
| Bayer.MaskByCells | JLib.Drawing/ImageUtils.cs:603-637 | a plane holding the sample where the colour matches and zero elsewhere is that colour's mask |
| Bayer.MaskPhaseConstant | JLib.Drawing/ImageUtils.cs:603-637 | the mask of one colour of a flat-colour mosaic is flat-colour too: that colour's value on its phases, zero on the others |
| Bayer.Reflect101PhaseConstant | JLib.Drawing/ImageUtils.cs:384-447 | a flat-colour mosaic extended with Reflect101 holds, in every margin cell, the value of the colour at its image position |
| Bayer.ReflectedCorrelation | JLib.Drawing/ImageUtils.cs:1413-1427 | on a flat-colour mosaic, the Reflect101 convolution at every cell, edges included, is the cell's 2 x 2 block weighed by the kernel's phase weights |
| Bayer.Split | JLib.Drawing/ImageUtils.cs:603-637 | the zeroed planes and the switch of `Copy2D` calls produce the three masks |
| Bayer.CopyPhases | JLib.Drawing/ImageUtils.cs:609-636 | the four `Copy2D` calls of one case, given the case's phases, produce the three masks |
| Bayer.CopyColor | JLib.Drawing/ImageUtils.cs:609-614 | the `Copy2D` calls of one colour, on a zeroed plane, produce that colour's mask |
| OpenCVDemosaic.KernelFor | JLib.Drawing/ImageUtils.cs:639-650 | each plane's kernel is 3 x 3 |
| OpenCVDemosaic.KernelPhaseSums | JLib.Drawing/ImageUtils.cs:639-650 | over a repeating 2 x 2 block, `kernelRB` weighs every phase by one; `kernelG` weighs the centre's phase by one and each straight neighbour's by one half |
| OpenCVDemosaic.PhaseConstantCorrelation | JLib.Drawing/ImageUtils.cs:652-654 | on a flat-colour mosaic, the convolved mask of each colour is that colour's value at every cell |
| OpenCVDemosaic.PhaseConstantMosaic | JLib.Drawing/ImageUtils.cs:597-700 | a flat-colour mosaic that fits the pixel type comes back as three uniform planes of its colours' values |
| OpenCVDemosaic.EdgeFixed | JLib.Drawing/ImageUtils.cs:659-697 | the fix-up keeps the plane's shape |
| OpenCVDemosaic.EdgeFixedShape | JLib.Drawing/ImageUtils.cs:659-697 | the fix-up keeps the inside; the outer columns equal their neighbours; for width ≥ 3 the outer rows do too; for width 2 everything is column 1 |
| OpenCVDemosaic.EdgeFixedIdempotent | JLib.Drawing/ImageUtils.cs:659-697 | fixing the edges twice changes nothing more |
| OpenCVDemosaic.CopyRowSegment | JLib.Drawing/ImageUtils.cs:659-683 | `Buffer.BlockCopy` of a row segment: those cells take the source row's values, nothing else changes |
| OpenCVDemosaic.FixEdges | JLib.Drawing/ImageUtils.cs:659-697 | the plane becomes `EdgeFixed` of its old contents |
| OpenCVDemosaic.CopyEdgeColumns | JLib.Drawing/ImageUtils.cs:685-697 | in every row column 0 takes column 1 and column `w - 1` takes column `w - 2` |
| OpenCVDemosaic.Plane | JLib.Drawing/ImageUtils.cs:652-697 | the convolved, edge-fixed plane keeps the mosaic's shape |
| OpenCVDemosaic.GetChannels | JLib.Drawing/ImageUtils.cs:597-700 | `GetChannels_OpenCV` succeeds exactly when `Channels` does and returns its planes |
| OpenCVDemosaic.ConvolveAndRound | JLib.Drawing/ImageUtils.cs:652-699 | one plane: convolve with a reflected border, fix the edges, round |
| ImatestDemosaic.FirstPass | JLib.Drawing/ImageUtils.cs:744-759 | the first pass with an isolated border keeps the shape |
| ImatestDemosaic.SecondPass | JLib.Drawing/ImageUtils.cs:761-772 | the cross pass plus the first pass keeps the shape |
| ImatestDemosaic.Plane | JLib.Drawing/ImageUtils.cs:744-772 | each plane before rounding keeps the shape |
| ImatestDemosaic.SecondPassIsOneKernel | JLib.Drawing/ImageUtils.cs:761-772 | the second pass equals one pass of the cross kernel plus the centre impulse |
| ImatestDemosaic.GetChannels | JLib.Drawing/ImageUtils.cs:702-775 | `GetChannels_Imatest` succeeds exactly when `Channels` does and returns its planes |
| ImatestDemosaic.PlaneAndRound | JLib.Drawing/ImageUtils.cs:757-774 | one plane: first pass, second pass for red and blue, rounding |
| ImatestDemosaic.CrossPass | JLib.Drawing/ImageUtils.cs:768-772 | `Convolve` then `AddInPlace` yields `SecondPass` of the first pass |
| ImatestDemosaic.GreenCorner | JLib.Drawing/ImageUtils.cs:744-759 | on an RGGB flat-colour mosaic, the green estimate at the corner sample is half the green value: two of its four neighbours are the isolated border's zeros |
| ImatestDemosaic.IsolatedCornerGreen | JLib.Drawing/ImageUtils.cs:702-775 | the returned green at that corner is the green value halved and rounded, so for green values of 2 or more the result is not the three uniform planes |
| LabVIEWDemosaic.Plane | JLib.Drawing/ImageUtils.cs:825-840 | the bilinear planes keep the mosaic's shape |
| LabVIEWDemosaic.IsGreenToggle | JLib.Drawing/ImageUtils.cs:787-822 | the flag `isG`, toggled once per row, says whether column 1 of that row is green |
| LabVIEWDemosaic.Rounded | JLib.Drawing/ImageUtils.cs:842-886 | the three conversion loops keep the plane's shape |
| LabVIEWDemosaic.RoundedCell | JLib.Drawing/ImageUtils.cs:842-886 | each cell is the checked conversion of its sample plus its column's bias |
| LabVIEWDemosaic.RoundedCells | JLib.Drawing/ImageUtils.cs:842-886 | the loops succeed exactly when every cell converts with its bias, and then give those conversions |
| LabVIEWDemosaic.LoopsConvert | JLib.Drawing/ImageUtils.cs:842-886 | when every cell converts, no conversion in the three loops throws |
| LabVIEWDemosaic.CellsConvert | JLib.Drawing/ImageUtils.cs:842-886 | conversely, loops that succeed mean every cell converts with its bias |
| LabVIEWDemosaic.RoundedColumns | JLib.Drawing/ImageUtils.cs:842-886 | columns 2 to `w - 2` are rounded; columns 0 and `w - 1` are truncated; green in column 1 is truncated |
| LabVIEWDemosaic.GetChannels | JLib.Drawing/ImageUtils.cs:777-887 | `GetChannels_LabVIEW` succeeds exactly when `Channels` does and returns its planes |
| LabVIEWDemosaic.RoundPlane | JLib.Drawing/ImageUtils.cs:842-886 | the three loops on one plane succeed exactly when `Rounded` does and return its value |
| LabVIEWDemosaic.RoundedByCells | JLib.Drawing/ImageUtils.cs:846-884 | a buffer filled by the three loops is `Rounded` of the plane |
| LabVIEWDemosaic.ConvertOuterColumns | JLib.Drawing/ImageUtils.cs:846-856 | the first loop truncates columns 0 and `w - 1` and fails exactly when one of them does not fit |
| LabVIEWDemosaic.ConvertSecondColumn | JLib.Drawing/ImageUtils.cs:858-874 | the second loop converts column 1, adding 0.5 to red and blue on the rows where it is green |
| LabVIEWDemosaic.ConvertSecondColumnCell | JLib.Drawing/ImageUtils.cs:860-873 | one row of the second loop, given the toggled flag |
| LabVIEWDemosaic.ConvertInnerColumns | JLib.Drawing/ImageUtils.cs:876-884 | the third loop rounds columns 2 to `w - 2` |
| LabVIEWDemosaic.RoundedUniform | JLib.Drawing/ImageUtils.cs:842-886 | a plane holding one pixel value everywhere comes out of the three loops as that value, truncated or rounded |
| LabVIEWDemosaic.PhaseConstantMosaic | JLib.Drawing/ImageUtils.cs:777-887 | a flat-colour mosaic that fits the pixel type comes back as three uniform planes of its colours' values |
| MATLABDemosaic.Weights | JLib.Drawing/ImageUtils.cs:901-932 | each kernel is 5 x 5, with the source's weights |
| MATLABDemosaic.Steps | JLib.Drawing/ImageUtils.cs:934-1392 | each case makes eight strided convolution calls, all starting at a phase `< 2` |
| MATLABDemosaic.KeepsOwnSamples | JLib.Drawing/ImageUtils.cs:936-1392 | a cell escapes interpolation exactly in the plane of its own colour |
| MATLABDemosaic.StepsFollowRule | JLib.Drawing/ImageUtils.cs:934-1392 | in every case, the last call writing each plane at each phase uses the gradient-corrected kernel for that phase: green at red and blue, RB1 along the row, RB2 along the column, RB3 diagonally |
| MATLABDemosaic.StepsDisjoint | JLib.Drawing/ImageUtils.cs:934-1392 | no two calls of a case write the same plane at the same phase |
| MATLABDemosaic.Source | JLib.Drawing/ImageUtils.cs:895 | the mosaic with a two-cell Reflect101 border |
| MATLABDemosaic.Plane | JLib.Drawing/ImageUtils.cs:897-1392 | each plane before truncation keeps the shape |
| MATLABDemosaic.OwnSamplesSurvive | JLib.Drawing/ImageUtils.cs:889-1395 | the returned planes carry every mosaic sample unchanged in its own colour's plane |
| MATLABDemosaic.KernelsNormalised | JLib.Drawing/ImageUtils.cs:901-932 | every kernel's weights sum to one |
| MATLABDemosaic.FlatPlane | JLib.Drawing/ImageUtils.cs:889-1392 | a uniform mosaic gives the same value in every plane cell before truncation |
| MATLABDemosaic.FlatMosaic | JLib.Drawing/ImageUtils.cs:889-1395 | a uniform mosaic that fits the pixel type comes back unchanged in all three planes |
| MATLABDemosaic.KernelPhaseSums | JLib.Drawing/ImageUtils.cs:901-932 | over a repeating 2 x 2 block, each kernel's weights per phase: green averages the straight neighbours; RB1 and RB2 take the neighbour along the row or column and cancel the centre's colour; RB3 takes the diagonal |
| MATLABDemosaic.EstimateWeighs | JLib.Drawing/ImageUtils.cs:934-1392 | where the rule picks a kernel, that kernel weighs the block of a flat-colour mosaic to the missing colour's value |
| MATLABDemosaic.PhaseConstantPlane | JLib.Drawing/ImageUtils.cs:889-1392 | on a flat-colour mosaic every plane cell before truncation is that plane's colour value, edges included |
| MATLABDemosaic.PhaseConstantMosaic | JLib.Drawing/ImageUtils.cs:889-1395 | a flat-colour mosaic that fits the pixel type comes back as three uniform planes of its colours' values |
| MATLABDemosaic.GetChannels | JLib.Drawing/ImageUtils.cs:889-1395 | `GetChannels_MATLAB` succeeds exactly when `Channels` does and returns its planes |
| MATLABDemosaic.PlaneAndFloor | JLib.Drawing/ImageUtils.cs:897-1394 | one plane: own samples, its convolution calls, truncation |
| MATLABDemosaic.CopyOwnSamples | JLib.Drawing/ImageUtils.cs:937-940 | the `Copy2D` calls put each sample of colour `c` into plane `c` and leave the other cells |
| MATLABDemosaic.RunSteps | JLib.Drawing/ImageUtils.cs:942-1047 | running a case's calls in order leaves in each cell what the last call writing it computed |
| MATLABDemosaic.RunStep | JLib.Drawing/ImageUtils.cs:942-954 | one strided 5 x 5 call writes its phase of its plane and nothing else |
| MATLABDemosaic.PlaneByCells | JLib.Drawing/ImageUtils.cs:897-1392 | a plane holding the estimates cell by cell is `Plane` |
| Demosaic.Channels | JLib.Drawing/ImageUtils.cs:566-573 | each method's planes keep the mosaic's shape |
| Demosaic.GetChannels | JLib.Drawing/ImageUtils.cs:566-573 | the `method switch` returns the chosen method's planes |
| Demosaic.Flat | JLib.Drawing/ImageUtils.cs:603-605 | a plane as a flat buffer holds `w * h` samples |
| Demosaic.FlatAt | JLib.Drawing/ImageUtils.cs:603-605 | sample `(y, x)` sits at `y * w + x` |
| Demosaic.Bgr32 | JLib.Drawing/ImageUtils.cs:574 | the BGRA buffer holds four samples per pixel |
| Demosaic.Bgr32Layout | JLib.Drawing/ImageUtils.cs:574 | pixel `(y, x)` is blue, green, red, 255 from offset `4 * (y * w + x)` |
| Demosaic.MergeBgr32 | JLib.Drawing/ImageUtils.cs:574 | `Merge(byte.MaxValue, B, G, R)` returns `Bgr32` of the planes |
| Demosaic.BayerToBgr32Dispatch | JLib.Drawing/ImageUtils.cs:559-576 | succeeds exactly when the method's conversion does and returns `Bgr32` of its planes |
| Demosaic.BayerToBgr32 | JLib.Drawing/ImageUtils.cs:500-524 | an 8-bit mosaic of positive size becomes the BGRA buffer of the chosen method's planes |
| Demosaic.Shifted | JLib.Drawing/ImageUtils.cs:553 | `<<= 6` on a `ushort` stays within 16 bits |
| Demosaic.ShiftKeepsTenBits | JLib.Drawing/ImageUtils.cs:553 | the shift keeps the low ten bits, moved to the top: `(v mod 1024) * 64`; exact for 10-bit samples |
| Demosaic.ShiftedImage | JLib.Drawing/ImageUtils.cs:549-554 | the shifted mosaic keeps its shape |
| Demosaic.ShiftSamples | JLib.Drawing/ImageUtils.cs:549-554 | `Clone` then the shift loop gives a fresh buffer of `ShiftedImage`; the input is untouched |
| Demosaic.Rgb48 | JLib.Drawing/ImageUtils.cs:593 | the RGB buffer holds three samples per pixel |
| Demosaic.Rgb48Layout | JLib.Drawing/ImageUtils.cs:593 | pixel `(y, x)` is red, green, blue from offset `3 * (y * w + x)` |
| Demosaic.MergeRgb48 | JLib.Drawing/ImageUtils.cs:593 | `Merge(R, G, B)` returns `Rgb48` of the planes |
| Demosaic.BayerToRgb48Dispatch | JLib.Drawing/ImageUtils.cs:578-595 | succeeds exactly when the method's conversion does and returns `Rgb48` of its planes |
| Demosaic.BayerToRgb48 | JLib.Drawing/ImageUtils.cs:526-557 | a 16-bit mosaic, shifted left six bits, becomes the RGB buffer of the chosen method's planes |
| IntegerRule.TrimStart | JLib.Wpf/Rule/IntegerRule.cs:35 | `int.TryParse` skips leading white space: the result is a suffix that starts with a non-blank |
| IntegerRule.TrimEnd | JLib.Wpf/Rule/IntegerRule.cs:35 | and trailing white space: a prefix that ends with a non-blank |
| IntegerRule.ParseTrimmed | JLib.Wpf/Rule/IntegerRule.cs:35 | a parsed value lies within 32 bits |
| IntegerRule.TryParse | JLib.Wpf/Rule/IntegerRule.cs:35 | `int.TryParse` yields only 32-bit values |
| IntegerRule.ShowNat | JLib.Wpf/Rule/IntegerRule.cs:32 | a formatted number is a non-empty run of digits |
| IntegerRule.DigitsOfShowNat | JLib.Wpf/Rule/IntegerRule.cs:32-35 | the digits of a formatted natural read back as that natural |
| IntegerRule.TrimShow | JLib.Wpf/Rule/IntegerRule.cs:32-35 | a formatted number has no white space to trim |
| IntegerRule.ParseShow | JLib.Wpf/Rule/IntegerRule.cs:32-35 | every 32-bit integer, formatted, parses back to itself |
| IntegerRule.ShowNotBlank | JLib.Wpf/Rule/IntegerRule.cs:25 | a formatted number is never blank, so it reaches the parse |
| IntegerRule.TrimStartPadded | JLib.Wpf/Rule/IntegerRule.cs:35 | a leading blank is skipped |
| IntegerRule.TrimEndPadded | JLib.Wpf/Rule/IntegerRule.cs:35 | a trailing blank is dropped |
| IntegerRule.TrimStartAppend | JLib.Wpf/Rule/IntegerRule.cs:35 | skipping leading blanks keeps a trailing blank unless the text is all blank |
| IntegerRule.TrimPadded | JLib.Wpf/Rule/IntegerRule.cs:35 | a blank on either side does not change the trimmed text |
| IntegerRule.ParseIgnoresPadding | JLib.Wpf/Rule/IntegerRule.cs:35 | a blank on either side does not change what the text parses to |
| IntegerRule.Validate | JLib.Wpf/Rule/IntegerRule.cs:21-41 | the result is valid exactly when it is `ValidResult`; an invalid one carries the range message with `Min` and `Max` |
| IntegerRule.BlankInput | JLib.Wpf/Rule/IntegerRule.cs:25-33 | a null or blank input is valid exactly when `CanEmpty` is set |
| IntegerRule.UnparsableInput | JLib.Wpf/Rule/IntegerRule.cs:35-38 | text that is not blank and does not parse is invalid |
| IntegerRule.NumberInput | JLib.Wpf/Rule/IntegerRule.cs:35-40 | a formatted 32-bit number is valid exactly when `Min <= n <= Max`, both bounds inclusive |
| IntegerRule.ValidExactly | JLib.Wpf/Rule/IntegerRule.cs:21-41 | valid exactly when blank and allowed, or when not blank and parsing to a number within the bounds |

## Left out

- File input (`ReadBayerRawData_8Bpp` / `_10Bpp`): it reads files from disk. The WPF window, view model and application class are user interface only.
- The `#if false` block (`Round`, `RoundAndConvertToByteArray`, `RoundAndConvertToUshortArray`): it is not compiled.
- IEEE `double` rounding: sums and products are exact `real`s. A result that lands within rounding error of a conversion boundary can convert differently in the library.
- The `NotSupportedException` defaults of the `BorderType` and `DemosaicMethod` switches: the datatypes have no other values.
- `Debug.Assert` checks are `requires` clauses: positive size, matching lengths, a pattern and method in range.
- Size preconditions: `Demosaic.SizeSupported` and `BorderTypes.Supported` are `requires` clauses. They cover the sizes for which the source reads only inside the image (two samples each way for the one-cell reflected border, three for the MATLAB method's two-cell border). For smaller images the source reads margin cells or indexes out of range, and the model does not describe that behaviour.
- Buffers.Copy2D, Buffers.Copy2DConvert, Convolution.ConvolveInto: require positive strides. The source has no guard: with a zero `strideX` or `strideY` the loops (`ImageUtils.cs:1578`, `ImageUtils.cs:1582`, `ImageUtils.cs:1464`, `ImageUtils.cs:1469`) never end. The model does not describe that hang. Every call inside the library passes strides of 1 or 2.
- Buffers.Merge, Buffers.MergeWithFilling: require (`Buffers.Planes`) every plane to be at least as long as the first. The source reads `channels[idxChannel][idxElement]` (`ImageUtils.cs:1634`, `ImageUtils.cs:1663`) and throws `IndexOutOfRangeException` when a later plane is shorter. The model does not describe that exception. Every call inside the library passes planes of equal length.
- Buffers.Add, Buffers.AddInPlace: modelled at `double` only. Their integer instantiations wrap modulo 2^8 or 2^16 on overflow and are not modelled; the library adds only `double` planes (`ImageUtils.cs:769`, `ImageUtils.cs:772`).
- Generic pixel types: `T` is `nat` with a maximum (`byte` or `ushort`). `double.CreateChecked` of a pixel is exact.
- Buffer identity: the model's buffers are separate `array2`s. The source's flat arrays are not aliased either.
- Plane order: the OpenCV, Imatest, MATLAB and LabVIEW methods are modelled plane by plane. The source convolves all three planes and then rounds all three. The planes do not share buffers, so only the order of the (side-effect free) conversions differs. The first failing conversion throws in either order.
- Demosaic.ShiftSamples: uses a two-dimensional loop over `(y, x)` instead of the source's single flat loop. It visits the same cells in the same row-major order.
- Demosaic.Flat: the flat row-major layout is a conversion of values, not a reinterpretation of the same memory.
- IntegerRule.TryParse: follows the invariant culture with the integer number style. It accepts white space, an optional `+` or `-` and ASCII digits. Culture-specific signs and trailing NUL characters, which .NET also accepts, are not modelled. Like .NET, it rejects digits outside `0` to `9`.
- IntegerRule.Validate: the `cultureInfo` argument is ignored, as in the source. The error content is a `string`, where the source has an `object`. A value that is not a string, for which the source's cast throws `InvalidCastException`, is not modelled: the input is a string or null. The message formats `Min` and `Max` culture-invariantly, where the source uses the current culture.
