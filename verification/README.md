# KFMovieMaker core, modelled in Dafny

KFMovieMaker is an After Effects plug-in that turns the `.kfb` snapshots written by Kalles
Fraktaler into a zoom movie. This project models the logic at its core:

- the data path from a `.kfb` snapshot to the colour of one output pixel:
  - decoding the snapshot file;
  - the two-cell padded iteration and smooth planes;
  - the bicubic and bilinear samplers;
  - the 3x3 distance matrix;
  - blending the active and the next snapshot;
  - palette selection;
  - the KFR colouring and KFR distance styles at 8, 16 and 32 bits per channel;
- the small state machines around that path:
  - the four-slot snapshot cache;
  - the cached-image parameter key;
  - the `.kfr` settings parser;
  - the descending snapshot list;
  - the sequence-data lifecycle (flatten, unflatten, resetup, file name);
  - the parameter-position table and its readers;
  - the pre-render rectangle and the cached-image drawing.

Modelling choices:

- Doubles and floats are `real`.
- The transcendental functions (`sqrt`, `cbrt`, `ln`, `exp`) are fields of a `MathLib` record given as a parameter. So are:
  - the IEEE bit-pattern decoding of the smooth fractions (`f32`);
  - the stream extraction of a `double` (`readDouble`);
  - the file system (`FileSystem`);
  - host allocation and drawing (`allocates`, `generate`).
- Planes are flat row-major `seq<int>` / `seq<real>` over the padded grid.
- State changes are record-to-record functions.
- Every operation that throws in the source returns a `Result` error here.
- Where the source is evidently wrong, two definitions sit side by side:
  - a member that follows the code as written (suffix `AsWritten`, or a counterexample lemma);
  - a corrected member that the rest of the model uses.

  The "Findings" table lists them.

Modules, one per concern of the source:

| module | file | models |
|---|---|---|
| `Common` | common.dfy | `Result`/`Option`, bytes, colours, floor/ceil/trunc/round/fmod on reals, `MathLib` |
| `KfbGrid` | kfb_grid.dfy | `KFBData.h`: padding size, indexing, clamped index, unclamped reads, `getIterationCount` |
| `KfbFile` | kfb_file.dfy | `KFBData::ReadKFBFile`: header checks, transposed iteration read, palette, smooth plane |
| `KfbEncode` | kfb_encode.dfy | a writer for the `.kfb` layout, used to state the decoder's round trip |
| `Padding` | padding.dfy | the two extrapolation passes of `ReadKFBFile` |
| `Interpolate` | interpolate.dfy | `biCubicStep`, `biCubicIterpolation`, `BiLinearIterpolation`, `calculateIterationCountBiCubic`, `calculateIterationCountBiLinearNoPad`, `clamp`, `clampToLong` |
| `DistanceMatrix` | distance_matrix.dfy | `getDistanceMatrix` and its edge mirroring |
| `FrameBlend` | frame_blend.dfy | `GetBlendedPixelValue`, `GetBlendedDistanceMatrix` |
| `PixelColour` | pixel_colour.dfy | `doModifier`, `GetColours`, `roundTo8Bit`/`roundTo16Bit`, `SetInsideColour*` |
| `KfrColouring` | kfr_colouring.dfy | `Render_KFRColouring::Render8/16/32` |
| `KfrDistance` | kfr_distance.dfy | `doDistance`, `RenderCommon`, `Render_KFRDistance::Render8/16/32` |
| `KfrParser` | kfr_parser.dfy | `LocalSequenceData::readKFRfile` over a model of `istringstream` extraction |
| `KfbList` | kfb_list.dfy | `LocalSequenceData::getKFBlist` (extension test and descending sort) |
| `FrameSlots` | frame_slots.dfy | `SetupActiveKFB`, `LoadKFB`, `DeleteKFBData` |
| `LocalSequence` | local_sequence.dfy | `SetupFileData`, `clear`, `getKFBStats` |
| `CacheParams` | cache_params.dfy | `saveCachedParameters`, `isCacheInvalid` |
| `Sequence` | sequence_data.dfy | `SequenceData`: setup, flatten, unflatten, resetup, `Validate`, `SetFileName`, size getters |
| `Parameters` | parameters.dfy | `ParameterSetup`, `useParam`, `AddDropDown` choice count, the `read*Param` readers |
| `ParameterEvents` | parameter_events.dfy | the parameter table as registered, `FileSelectButtonClicked`, `ParameterChanged` |
| `SmartRender` | smart_render.dfy | `SmartPreRender`, `selectPixelRenderFunction*`, the key-frame split of `SmartRender`, `makeKFBCachedImage`, `DoCachedImages` |

## Model

| member | source | states |
|---|---|---|
| KfbGrid.DataSize | KF-AE/KFBData.h:57 | the iteration block holds exactly width x height 4-byte integers |
| KfbGrid.MakeIndex | KF-AE/KFBData.h:76 | a padded-plane cell always has an index inside the padded array |
| KfbGrid.MakeIndexRoundTrip | KF-AE/KFBData.h:76 | the index is row-major: dividing by the padded width recovers the row, the remainder the column |
| KfbGrid.MakeIndexInjective | KF-AE/KFBData.h:76 | two cells share an index exactly when they are the same cell |
| KfbGrid.MakeIndexSurjective | KF-AE/KFBData.h:76 | every array index is the index of some cell of the padded plane |
| KfbGrid.Clamp | KF-AE/KFBData.cpp:409-412 | the result lies in [lo, hi]; it is the value when inside, otherwise the nearer bound |
| KfbGrid.CalcIndexAndClamp | KF-AE/KFBData.h:78-82 | for any coordinates the index is in the array; on each axis it names the coordinate when that is in [0,width-1] (or [0,height-1]) and the nearer bound otherwise, so every result lies in the logical range of the padded plane |
| KfbGrid.GetIterationCount | KF-AE/KFBData.cpp:356-361 | the iteration count at pixel (x, y) is the padded cell of the pixel clamped to [-2,width-3] x [-2,height-3], so the last two loaded columns and rows are never returned |
| KfbGrid.GetIterationCountSmooth | KF-AE/KFBData.cpp:367-372 | the smooth count uses the same clamp: the pixel clamped to [-2,width-3] x [-2,height-3] |
| KfbGrid.ClampedIndex | KF-AE/KFBData.h:78-82 | the clamped index is the index of the cell clamped on each axis to the logical size |
| KfbGrid.GetIterationCountInRange | KF-AE/KFBData.cpp:356-372 | for -2 <= x <= width-3 (and the same for y) `getIterationCount` and `getIterationCountSmooth` return the loaded cell (x+2, y+2) |
| KfbGrid.GetIterationCountRightEdge | KF-AE/KFBData.cpp:356-361 | in the last column the read returns the value two columns to the left: the clamp to width-1 lands on padded column width-1, which is loaded pixel width-3 |
| KfbGrid.GetIterationCountMissesLoadedCell | KF-AE/KFBData.cpp:356-361 | a 3x3 snapshot whose loaded cell (2,0) holds 18, where the read returns 16 |
| KfbGrid.GetIterationCountEdge | KF-AE/KFBData.cpp:356-361 | corrected read: every loaded pixel is returned exactly |
| KfbGrid.GetIterationCountEdgeNearest | KF-AE/KFBData.cpp:356-361 | corrected read: coordinates outside the image read the nearest edge pixel |
| KfbFile.Le32 | KF-AE/KFBData.cpp:120-123 | four little-endian bytes give an unsigned 32-bit value |
| KfbFile.ToInt32 | KF-AE/KFBData.cpp:127-133 | reinterpreting an unsigned word as `int` gives a value in the signed range congruent to it modulo 2^32 |
| KfbFile.IterPos | KF-AE/KFBData.cpp:127-133 | the file offset of pixel (x, y) in the column-major iteration block lies inside that block |
| KfbFile.SmoothPos | KF-AE/KFBData.cpp:151-159 | the offset of a pixel's smooth fraction lies after the maximum-iteration word and inside the file |
| KfbFile.Palette | KF-AE/KFBData.cpp:140-144 | palette entry i is the three bytes at 3i after the count, in red, green, blue order |
| KfbFile.RawIterPlane | KF-AE/KFBData.cpp:127-133 | the decoded plane has one entry per padded cell |
| KfbFile.RawSmoothPlane | KF-AE/KFBData.cpp:151-159 | the smooth plane has one entry per padded cell |
| KfbFile.ReadKfbFile | KF-AE/KFBData.cpp:108-219 | an unopenable file, a bad "KFB" tag, a header size other than the expected one and more than 1024 colours are errors; the decode succeeds exactly on well-formed files and yields a valid snapshot of the expected size |
| KfbFile.ReadKfbFileCells | KF-AE/KFBData.cpp:127-159 | every loaded cell (x+2, y+2) holds the file's column-major word x*height+y, its smooth value is iteration + 1 - fraction, and palette, colour division and maximum iterations are the file's |
| KfbEncode.DecodeEncodeU32 | KF-AE/KFBData.cpp:120-123 | writing a word little-endian and reading it back gives the word |
| KfbEncode.FromInt32 | KF-AE/KFBData.cpp:127-133 | every signed 32-bit value has an unsigned bit pattern that reads back as it |
| KfbEncode.ColumnMajorAt | KF-AE/KFBData.cpp:127-133 | the writer puts pixel (x, y) at word x*height+y, as the reader's x-outer, y-inner loop expects |
| KfbEncode.EncodeKfb | KF-AE/KFBData.cpp:108-159 | an encoded snapshot has exactly the length the reader consumes |
| KfbEncode.EncodedHeader | KF-AE/KFBData.cpp:114-123 | an encoded file carries the "KFB" tag and the width and height |
| KfbEncode.EncodedTailHeader | KF-AE/KFBData.cpp:137-147 | the colour division, colour count and maximum iteration words read back as written |
| KfbEncode.EncodedIter | KF-AE/KFBData.cpp:127-133 | each pixel's iteration word reads back as written |
| KfbEncode.EncodedFraction | KF-AE/KFBData.cpp:151-159 | each pixel's fraction word reads back as written |
| KfbEncode.EncodedPalette | KF-AE/KFBData.cpp:140-144 | the palette reads back as written |
| KfbEncode.ReadEncodedKfb | KF-AE/KFBData.cpp:108-159 | round trip: decoding an encoded snapshot succeeds and returns its iterations, smooth values (iteration + 1 - fraction), palette, colour division and maximum iterations |
| Padding.IntExtrapolate | KF-AE/KFBData.cpp:164-189 | a padding value is never negative, and is edge + k*(edge - inner) when that is not negative |
| Padding.RealExtrapolate | KF-AE/KFBData.cpp:192-217 | the same on the smooth plane |
| Padding.IntExtrapolateExample | KF-AE/KFBData.cpp:164-176 | edges 10,7 extrapolate to 13 and 16; 7,10 to 4 and 1; 2,5 to 0 and 0 |
| Padding.PadColumnsFromCell | KF-AE/KFBData.cpp:164-176 | after the column passes from x on, each cell of a column >= x is that column's extrapolated cell and every other cell is unchanged |
| Padding.PadRowsFromCell | KF-AE/KFBData.cpp:177-189 | after the row passes from y on, each cell of a row >= y is that row's extrapolated cell and every other cell is unchanged |
| Padding.PadCell | KF-AE/KFBData.cpp:164-189 | the padded plane is the row pass applied to the result of the column pass |
| Padding.Pad | KF-AE/KFBData.cpp:164-217 | padding keeps the plane's size and never changes a loaded cell |
| Padding.PassesKeepLoaded | KF-AE/KFBData.cpp:164-189 | neither the column pass nor the row pass changes a loaded cell |
| Padding.PadBorderExtrapolated | KF-AE/KFBData.cpp:164-189 | every border cell is an output of the extrapolation |
| Padding.PadIntPlane | KF-AE/KFBData.cpp:164-189 | the padded iteration plane keeps every loaded cell and has no negative border cell |
| Padding.PadRealPlane | KF-AE/KFBData.cpp:192-217 | the padded smooth plane keeps every loaded cell and has no negative border cell |
| Padding.PadClosedForm | KF-AE/KFBData.cpp:164-176 | the two cells above and the two below a loaded column are extrapolated from that column's two outermost loaded cells |
| Padding.PadCornerFromPaddedRow | KF-AE/KFBData.cpp:164-189 | a corner is extrapolated from already-extrapolated border cells, because the left/right pass runs last |
| Padding.PadIgnoresOldBorder | KF-AE/KFBData.cpp:164-189 | the padded plane depends only on the loaded cells, not on what the border held before |
| Interpolate.ClampToLong | KF-AE/KFBData.cpp:416-419 | the result is in [0, max]; below 1 it is 0, at or above max it is max, in between it is the floor |
| Interpolate.Frac | KF-AE/KFBData.cpp:226-252 | the fractional part is in [0,1) and is 0 exactly at integral coordinates |
| Interpolate.LerpBetween | KF-AE/Render.cpp:395 | a mix with weight in [0,1] lies between its ends and equals them at weights 0 and 1 |
| Interpolate.LerpSwap | KF-AE/Render.cpp:395 | mixing b with a at 1-w equals mixing a with b at w |
| Interpolate.BiCubicStep | KF-AE/KFBData.cpp:437-443 | the cubic step passes through v1 at offset 0 and v2 at offset 1, and four equal values give that value |
| Interpolate.BiCubicStepLinear | KF-AE/KFBData.cpp:437-443 | the step reproduces equally spaced samples of a straight line exactly, and constants |
| Interpolate.BiCubicStepMirror | KF-AE/KFBData.cpp:437-443 | reversing the four values and the offset gives the same value |
| Interpolate.BiCubicInterpolation | KF-AE/KFBData.cpp:456-465 | at integral coordinates the 4x4 interpolation returns the base cell v[1][1]; a constant window interpolates to that constant everywhere |
| Interpolate.BiLinearInterpolation | KF-AE/KFBData.cpp:381-403 | the kernel with its integral shortcuts equals a mix across x by the fractional part, then down y; the result lies between the smallest and largest corner, and is the upper-left corner at integral coordinates |
| Interpolate.AxisMixIsLerp | KF-AE/KFBData.cpp:382-391 | the one-axis mix with weights ceil-v and v-floor, skipped at integral v, is the mix by the fractional part |
| Interpolate.FlatSmoothInPlane | KF-AE/KFBData.h:84 | on cells of the padded plane the unchecked flat read is the cell's value |
| Interpolate.BiCubicBase | KF-AE/KFBData.cpp:227-232 | the clamped base cell always lies in [0,width-1] x [0,height-1] of the padded plane |
| Interpolate.FlatWindow | KF-AE/KFBData.cpp:242-247 | the sixteen reads around the base cell form a 4x4 window |
| Interpolate.BiCubicSmoothFlag | KF-AE/KFBData.cpp:235-250 | away from integral coordinates the `smooth` flag makes no difference: both branches read the smooth plane |
| Interpolate.BiCubicWindowAbovePlane | KF-AE/KFBData.cpp:242-247 | on a one-row snapshot the window's first read lies before the start of the array |
| Interpolate.BiCubicMissesRightEdge | KF-AE/KFBData.cpp:231-238 | a 3x3 snapshot whose loaded cell (2,0) holds 18, where the bicubic sample at (2,0) returns 16 |
| Interpolate.CalculateBiCubic | KF-AE/KFBData.cpp:226-252 | at an integral pixel in [-2,width-3] x [-2,height-3] it returns that pixel's cell from the plane the flag selects; between grid points, once the base cell is off the first padded row and column, it interpolates the true 4x4 neighbourhood of the base cell |
| Interpolate.BiCubicBaseAxis | KF-AE/KFBData.cpp:231-232 | on one axis, a pixel coordinate in [-2, n-2) has the padded cell of its floor as the base, so for -1 <= x < width-2 the base is off the first padded column |
| Interpolate.FlatWindowInside | KF-AE/KFBData.cpp:242-247 | away from the first row and column the source's unchecked window is the checked neighbourhood |
| Interpolate.Window | KF-AE/KFBData.cpp:242-247 | in bounds, window entry (i, j) is the smooth cell (xl+i-1, yl+j-1) |
| Interpolate.CalculateBiCubicEdge | KF-AE/KFBData.cpp:226-252 | corrected sampler: at an integral loaded pixel it returns that pixel's smooth or iteration value, as the flag selects |
| Interpolate.BiCubicEdgeNearest | KF-AE/KFBData.cpp:226-252 | corrected sampler: points outside the image sample the nearest edge |
| Interpolate.BiCubicEdgeConstant | KF-AE/KFBData.cpp:226-252 | corrected sampler: a constant smooth plane samples to that constant everywhere |
| Interpolate.BiCubicAgreesInside | KF-AE/KFBData.cpp:226-252 | for 0 <= x < width-2 and 0 <= y < height-2 the sampler as written stays in the array and equals the corrected one |
| Interpolate.BiCubicEdgeBetween | KF-AE/KFBData.cpp:226-252 | corrected sampler: inside the loaded rectangle, between grid points, it interpolates the 4x4 neighbourhood of the point's own cell |
| Interpolate.FlatWindowIsWindow | KF-AE/KFBData.cpp:242-247 | away from the first row and column the flat reads are the plane's cells |
| Interpolate.BiLinearBase | KF-AE/KFBData.cpp:271-272 | the clamped base of the unpadded bilinear read is a cell of the padded plane |
| Interpolate.BiLinearReads | KF-AE/KFBData.cpp:280-283 | when the lower-right read is in the array, all four reads are |
| Interpolate.BiLinearNoPad | KF-AE/KFBData.cpp:268-287 | at an integral cell of the padded plane it returns that cell; strictly inside the plane it is the bilinear mix of the four cells around the point and lies between the smallest and largest of them |
| Interpolate.BiLinearBaseInside | KF-AE/KFBData.cpp:271-272 | a point inside the plane keeps its floor as the base cell |
| Interpolate.BiLinearCellsInPlane | KF-AE/KFBData.cpp:280-283 | short of the last column and row the four unchecked reads are the four neighbouring cells |
| Interpolate.CounterexampleTiny | KF-AE/KFBData.cpp:268-287 | a valid 1x1 snapshot used to exhibit the row wrap |
| Interpolate.BiLinearWrapsRow | KF-AE/KFBData.cpp:268-287 | at x = 4.5 on a 1x1 snapshot the unpadded read mixes the last column with the first cell of the next row (14.5, not the edge value 14) |
| Interpolate.BiLinearEdgeIntegral | KF-AE/KFBData.cpp:268-287 | corrected read: at a cell of the padded plane it returns that cell's smooth value |
| Interpolate.BiLinearEdgeNearest | KF-AE/KFBData.cpp:268-287 | corrected read: outside the padded plane it returns the value at the nearest edge point |
| Interpolate.BiLinearAgreesInside | KF-AE/KFBData.cpp:268-287 | strictly inside the padded plane the read as written stays in the array and equals the corrected one |
| Interpolate.BiLinearEdgeConvex | KF-AE/KFBData.cpp:268-287 | the corrected read lies between the smallest and largest of the four cells around the clamped point |
| DistanceMatrix.GetDistanceMatrix | KF-AE/KFBData.cpp:293-349 | the centre entry is the sample at the point; minimal mode leaves the corners as they were |
| DistanceMatrix.MirroredEdges | KF-AE/KFBData.cpp:317-347 | with a step above one cell that leaves the plane on the left or right, the two outer columns end equal, and likewise the rows at the top or bottom; corners follow outside minimal mode |
| DistanceMatrix.MirrorEqualises | KF-AE/KFBData.cpp:317-347 | the four mirror steps, applied in the source's order, leave each side the step leaves equal to its opposite side |
| DistanceMatrix.CentreSample | KF-AE/KFBData.cpp:296-306 | the centre entry depends only on the point: neither the step, nor minimal mode, nor the previous matrix changes it |
| DistanceMatrix.DistanceMatrixSamples | KF-AE/KFBData.cpp:296-313 | when nothing is mirrored each entry is the sample one step away in its direction, clamped to the plane; corners only outside minimal mode |
| DistanceMatrix.Blend | KF-AE/Render.cpp:360-362 | each entry of the result is the linear mix of the two matching entries by the weight |
| DistanceMatrix.BlendBetween | KF-AE/Render.cpp:360-362 | for a weight in [0,1] every entry of the mix lies between the two matching entries |
| DistanceMatrix.BlendEnds | KF-AE/Render.cpp:360-362 | weight 0 gives the first matrix and weight 1 the second; mixing a matrix with itself gives it back |
| FrameBlend.LocationOffset | KF-AE/Render.cpp:375-380 | a pixel's snapshot location lies at its scaled offset from the centre divided by the zoom |
| FrameBlend.LocationIdentity | KF-AE/Render.cpp:375-380 | with scale factors 1 and zoom 1 the location is the pixel itself |
| FrameBlend.LocationFixesCentre | KF-AE/Render.cpp:375-380 | the centre maps to the centre at every zoom |
| FrameBlend.GetBlendedPixelValue | KF-AE/Render.cpp:373-399 | the active sample unless there is a next snapshot, the key-frame percent exceeds 0.01, the next zoom is positive and the next location lies in [0,width-1] x [0,height-1]; then the mix of the two samples by the percent |
| FrameBlend.BlendedBetween | KF-AE/Render.cpp:392-396 | a blended value lies between the two samples, and equals them when they agree |
| FrameBlend.BlendedConstant | KF-AE/Render.cpp:373-399 | when both snapshots' smooth planes are one constant, the blended value is that constant |
| FrameBlend.GetBlendedDistanceMatrix | KF-AE/Render.cpp:341-366 | the active matrix unless the same gate opens, with the narrower window [1,width-2] x [1,height-2]; then the element-wise mix of the active and next matrices by the key-frame percent, every entry between the two matching entries when the percent is at most 1 |
| FrameBlend.DistanceWindowInsidePixelWindow | KF-AE/Render.cpp:352-390 | whenever the distance matrix blends the pixel value blends too, but not conversely (a location at the origin) |
| FrameBlend.NoBlendWhenInactive | KF-AE/Render.cpp:352-387 | without a next snapshot, at a percent of at most 0.01 or a non-positive next zoom, both blends return the active snapshot's result |
| PixelColour.DoModifier | KF-AE/Render.cpp:323-336 | linear and unknown modifiers are the identity; the cube root clamps its argument at 0 and the logarithm at 1 |
| PixelColour.ModifierNonNegative | KF-AE/Render.cpp:323-336 | the cube-root and logarithm modifiers never give a negative value, and no modifier makes a non-negative count negative |
| PixelColour.ModifierMonotone | KF-AE/Render.cpp:323-336 | with non-decreasing library functions every modifier keeps the order of counts |
| PixelColour.PaletteSize | KF-AE/Render.cpp:499-500 | an empty palette counts as one colour; any other count is used as is |
| PixelColour.ToULong | KF-AE/Render.cpp:502 | a negative value converted to unsigned long wraps by 2^32 |
| PixelColour.GetColours | KF-AE/Render.cpp:498-509 | the low index is below the palette size, the high index is the next one wrapping to 0, the colours are the palette's entries at them, and the weight is in [0,1) |
| PixelColour.GetColoursOfCount | KF-AE/Render.cpp:498-509 | the weight is the count's fractional part; for non-negative counts the low index is the floor modulo the palette size |
| PixelColour.GetColoursNegative | KF-AE/Render.cpp:501-505 | a negative remainder is caught by the clamp: low is the last entry and high wraps to 0 |
| PixelColour.RoundTo8Bit | KF-AE/Render.cpp:448-454 | the result is in [0,255] and is the rounded value when that is in range |
| PixelColour.RoundTo16Bit | KF-AE/Render.cpp:459-465 | the result is in [0,0x8000] and is the rounded value when that is in range |
| PixelColour.RoundNearest | KF-AE/Render.cpp:448-465 | within range the result is within half a step of the input |
| PixelColour.RoundToBitsMonotone | KF-AE/Render.cpp:448-465 | both conversions keep order |
| PixelColour.SetInsideColour8 | KF-AE/Render.cpp:468-474 | the pixel is opaque and carries the inside colour |
| PixelColour.SetInsideColour16 | KF-AE/Render.cpp:476-483 | the pixel is opaque at 16 bits, every channel is in [0,0x8000], and each channel is within half a step of the inside colour times 0x8000/255 |
| PixelColour.To16Ends | KF-AE/Render.cpp:477-481 | scaling to 16 bits sends 0 to 0 and 255 to white (0x8000) |
| PixelColour.To16Monotone | KF-AE/Render.cpp:477-481 | scaling to 16 bits keeps order |
| PixelColour.SetInsideColour32 | KF-AE/Render.cpp:485-492 | the pixel is opaque at 32 bits and each channel is the 8-bit channel over 255 |
| PixelColour.MixChannel | KF-AE/Render-KFRColouring.cpp:44-46 | a channel mix with weight in [0,1) lies between the two entries, is the low entry at weight 0 and the entry itself when both agree |
| KfrColouring.ColourIndexMonotone | KF-AE/Render-KFRColouring.cpp:33-36 | with a positive division, modifier, division and offset keep the order of non-negative counts |
| KfrColouring.Render8 | KF-AE/Render-KFRColouring.cpp:23-54 | inside pixels get the inside colour; otherwise the pixel is opaque and each channel lies between the two picked palette entries |
| KfrColouring.Render8OnEntry | KF-AE/Render-KFRColouring.cpp:23-54 | an integral palette position shows the low entry unmixed |
| KfrColouring.Mix16Between | KF-AE/Render-KFRColouring.cpp:80-87 | a 16-bit channel lies between the two entries scaled to 16 bits |
| KfrColouring.Render16 | KF-AE/Render-KFRColouring.cpp:59-89 | inside pixels get the 16-bit inside colour; otherwise opaque, channels in [0,0x8000] and between the scaled entries |
| KfrColouring.Mix32 | KF-AE/Render-KFRColouring.cpp:114-116 | a 32-bit channel is in [0,1] and lies between the two palette entries divided by 255 |
| KfrColouring.Render32 | KF-AE/Render-KFRColouring.cpp:94-123 | inside pixels get the 32-bit inside colour; otherwise opaque, and each channel lies between the two palette entries it mixes, divided by 255 |
| KfrColouring.Render16OnEntry | KF-AE/Render-KFRColouring.cpp:59-89 | an integral palette position shows the low entry scaled to 16 bits |
| KfrColouring.Render32OnEntry | KF-AE/Render-KFRColouring.cpp:94-123 | an integral palette position shows the low entry over 255 |
| KfrColouring.DepthsAgreeOnEntry | KF-AE/Render-KFRColouring.cpp:23-123 | on a palette entry the three depths show the same colour: the 16-bit pixel is the 8-bit one scaled, the 32-bit one is it over 255 |
| KfrDistance.DoDistance | KF-AE/Render-KFRDistance.cpp:38-49 | the distance is never negative and is 0 exactly when the four neighbours used equal the centre |
| KfrDistance.DistanceIgnoresLevel | KF-AE/Render-KFRDistance.cpp:38-49 | raising every entry by one amount keeps the distance, and the right column and lower-middle entry are never read |
| KfrDistance.Capped | KF-AE/Render-KFRDistance.cpp:74 | the value is capped at 1024 |
| KfrDistance.Clamped | KF-AE/Render-KFRDistance.cpp:76 | a positive distance clamp caps the value; otherwise it passes through |
| KfrDistance.RenderCommon | KF-AE/Render-KFRDistance.cpp:56-79 | inside pixels give -1; otherwise the value is at most clamp + offset, and at most 1024 / division + offset |
| KfrDistance.MarkerOnlyInside | KF-AE/Render-KFRDistance.cpp:56-79 | with a positive division and a non-negative offset, outside values are non-negative, so -1 appears exactly for inside pixels |
| KfrDistance.RenderCommonMonotone | KF-AE/Render-KFRDistance.cpp:71-77 | a larger distance never gives a smaller colour position |
| KfrDistance.FlatAtOffset | KF-AE/Render-KFRDistance.cpp:71-77 | with the linear modifier a flat neighbourhood sits at the colour offset |
| KfrDistance.Mixed | KF-AE/Render-KFRDistance.cpp:97-99 | each mixed channel lies between the two palette entries |
| KfrDistance.Render8 | KF-AE/Render-KFRDistance.cpp:84-117 | the marker gives the inside colour; otherwise the pixel is opaque and, without slopes, each channel lies between the picked entries |
| KfrDistance.Mixed32 | KF-AE/Render-KFRDistance.cpp:179-187 | the 32-bit channel is the colouring style's 32-bit mix |
| KfrDistance.Render16AsWritten | KF-AE/Render-KFRDistance.cpp:122-161 | the marker gives the inside colour; otherwise opaque, and without slopes each channel lies between the two entries scaled by the integer quotient white16 / white8 (128) and rounded |
| KfrDistance.WhiteFallsShortAsWritten | KF-AE/Render-KFRDistance.cpp:151-157 | a white palette entry renders as 32640, not white (32768) |
| KfrDistance.Render16 | KF-AE/Render-KFRDistance.cpp:122-161 | corrected: the marker gives the inside colour; otherwise opaque and, without slopes, each channel lies between the entries scaled to 16 bits |
| KfrDistance.WhiteReachesWhite16 | KF-AE/Render-KFRDistance.cpp:151-157 | corrected: a white palette entry renders as 16-bit white |
| KfrDistance.Render32 | KF-AE/Render-KFRDistance.cpp:166-199 | the marker gives the inside colour; otherwise opaque, no negative channel, and without slopes each channel is the mix over 255 |
| KfrParser.SkipSpace | KF-AE/LocalSequenceData.cpp:90 | the first non-space position at or after p |
| KfrParser.ReadWord | KF-AE/LocalSequenceData.cpp:89-90 | a word holds no white space; a stream that is not good only sets fail |
| KfrParser.ReadInt | KF-AE/LocalSequenceData.cpp:98 | an `int` extraction gives a value in the 32-bit range and consumes input when it succeeds |
| KfrParser.ReadColour | KF-AE/LocalSequenceData.cpp:96-102 | one pass reads a triple; a colour is stored only while the stream is not at its end |
| KfrParser.Loop | KF-AE/LocalSequenceData.cpp:94-104 | the colour loop keeps the entries before its start, stores at most 1024, and leaves the entries at and after the final count unchanged |
| KfrParser.StuckLoopNeverEnds | KF-AE/LocalSequenceData.cpp:95-103 | once extraction has failed without reaching the end, the loop as written never ends, whatever the fuel |
| KfrParser.LoopAsWrittenAgrees | KF-AE/LocalSequenceData.cpp:94-104 | whenever the loop as written ends, it ends with the corrected loop's palette |
| KfrParser.Colours | KF-AE/LocalSequenceData.cpp:94-104 | the `Colors:` loop with `ReadColour` has the loop's bounds and keeps the other entries |
| KfrParser.Lines | KF-AE/LocalSequenceData.cpp:86-87 | the file splits into at least one line, none holding a newline |
| KfrParser.JoinLines | KF-AE/LocalSequenceData.cpp:86-87 | joining the lines with newlines gives back the text |
| KfrParser.LinesJoin | KF-AE/LocalSequenceData.cpp:86-87 | splitting joined newline-free lines gives back the lines |
| KfrParser.IterDivValue | KF-AE/LocalSequenceData.cpp:92 | a stream already at its end, or holding only white space, leaves the division as it was (the extraction's sentry fails); otherwise a failed number stores 0 and a read one stores that number |
| KfrParser.ParseLine | KF-AE/LocalSequenceData.cpp:88-105 | a line that is not an `IterDiv:` header followed by something other than white space keeps the division, and one that is stores the number read after the header (0 when none can be read); a line without a `Colors:` header keeps the palette and its count |
| KfrParser.BareIterDivLine | KF-AE/LocalSequenceData.cpp:90-92 | the line "IterDiv: \t" changes nothing |
| KfrParser.BareIterDivKeeps | KF-AE/LocalSequenceData.cpp:81-109 | the one-line file "IterDiv: \t" leaves every setting as it was |
| KfrParser.ParseLines | KF-AE/LocalSequenceData.cpp:86-107 | without a `Colors:` line the palette is unchanged; without an `IterDiv:` line that has something after its header the division is unchanged |
| KfrParser.ReadKfr | KF-AE/LocalSequenceData.cpp:81-109 | an unopenable file is an error; otherwise a file without a `Colors:` line keeps the palette and its count, and one without an `IterDiv:` line that has something after its header keeps the division |
| KfrParser.ReadKfrAsWritten | KF-AE/LocalSequenceData.cpp:81-109 | whenever the reader as written finishes, its result is the corrected reader's, so a bare `IterDiv:` line keeps the division there too |
| KfrParser.NonNumericEntry | KF-AE/LocalSequenceData.cpp:98 | in "Colors: x" the first extraction fails without reaching the end |
| KfrParser.NonNumericFileAsWritten | KF-AE/LocalSequenceData.cpp:95-103 | the one-line file "Colors: x" never finishes parsing as written |
| KfrParser.NonNumericFile | KF-AE/LocalSequenceData.cpp:95-104 | corrected: the same file parses to a palette of zero colours |
| KfrParser.Decimal | KF-AE/LocalSequenceData.cpp:98 | the decimal spelling of n is a digit run whose value is n |
| KfrParser.ReadTriple | KF-AE/LocalSequenceData.cpp:96-101 | the text "b,g,r," read after white space stores RGB(r, g, b) |
| KfrParser.ColoursOfTriples | KF-AE/LocalSequenceData.cpp:94-104 | a run of triples stores exactly those colours, in order, and counts them |
| KfrParser.ColourLineRoundTrip | KF-AE/LocalSequenceData.cpp:92-105 | round trip: the line "Colors: " followed by a palette's triples parses to that palette, leaving the division and the later entries alone |
| KfrParser.ColourFileRoundTrip | KF-AE/LocalSequenceData.cpp:81-109 | the same for a file made of that one line |
| KfbList.FileName | KF-AE/LocalSequenceData.cpp:119 | the file name is the path's suffix after the last separator and holds no separator |
| KfbList.LastDot | KF-AE/LocalSequenceData.cpp:119 | the position of the last dot, or -1 |
| KfbList.IsKfbIff | KF-AE/LocalSequenceData.cpp:119 | a path has extension ".kfb" exactly when its file name is longer than four characters and ends in ".kfb" |
| KfbList.NamedKfb | KF-AE/LocalSequenceData.cpp:117-121 | a directory entry counts exactly when its name ends in ".kfb" after at least one character |
| KfbList.KfbEntries | KF-AE/LocalSequenceData.cpp:118-122 | exactly the entries with extension ".kfb" are kept |
| KfbList.LexTotal | KF-AE/LocalSequenceData.cpp:123 | string order is total |
| KfbList.LexTrans | KF-AE/LocalSequenceData.cpp:123 | string order is transitive |
| KfbList.LexAntisym | KF-AE/LocalSequenceData.cpp:123 | string order is antisymmetric |
| KfbList.Insert | KF-AE/LocalSequenceData.cpp:123 | inserting into a descending list keeps it descending and adds exactly the element |
| KfbList.SortDescending | KF-AE/LocalSequenceData.cpp:123 | the result is descending and a permutation of the input |
| KfbList.GetKfbList | KF-AE/LocalSequenceData.cpp:115-124 | the list is descending, a permutation of the ".kfb" entries, and holds exactly those entries |
| KfbList.DescendingUnique | KF-AE/LocalSequenceData.cpp:123 | two descending permutations of one multiset are equal, so the list is fully determined |
| FrameSlots.LoadKfb | KF-AE/LocalSequenceData.cpp:247-253 | an index outside the list is an error; otherwise the frame holds file `files[k]`'s decoded data or its read error |
| FrameSlots.LoadInto | KF-AE/LocalSequenceData.cpp:181-184 | a load records the index, places the frame on success and leaves the slots alone on failure |
| FrameSlots.ActiveStep | KF-AE/LocalSequenceData.cpp:159-186 | afterwards the active slot is numbered k; k is loaded exactly when no slot (after rotation) holds it; the next slot is untouched; consistency is kept |
| FrameSlots.NextStep | KF-AE/LocalSequenceData.cpp:188-205 | afterwards the next slot is numbered k when k is a file index, and nothing happens otherwise; the active slot is untouched |
| FrameSlots.ThirdStep | KF-AE/LocalSequenceData.cpp:207-220 | the mercator third slot step keeps active and next and keeps consistency |
| FrameSlots.FourthStep | KF-AE/LocalSequenceData.cpp:222-229 | the fourth slot step keeps consistency exactly when it labels the slot with the index it loaded |
| FrameSlots.SetupActiveKfbAsWritten | KF-AE/LocalSequenceData.cpp:154-231 | not ready: nothing changes |
| FrameSlots.SetupMislabelsFourth | KF-AE/LocalSequenceData.cpp:222-229 | in mercator mode with four files, key frame 0 leaves the fourth slot numbered 2 holding file 3 |
| FrameSlots.SetupActiveKfb | KF-AE/LocalSequenceData.cpp:154-231 | corrected: nothing when not ready; otherwise active is k and next is k+1 when that is a file; k is loaded only when no slot holds it; all loads are k..k+3; slot numbers keep naming their files |
| FrameSlots.SetupRotates | KF-AE/LocalSequenceData.cpp:160-166 | without mercator a change of key frame moves the old active to fourth and the old fourth to third |
| FrameSlots.SetupAgreesWithoutMercator | KF-AE/LocalSequenceData.cpp:207-229 | without mercator the code as written and the corrected code agree |
| FrameSlots.DeleteKfbData | KF-AE/LocalSequenceData.cpp:233-242 | all four slots are emptied, which is consistent with any file list |
| LocalSequence.Clear | KF-AE/LocalSequenceData.cpp:62-76 | not ready, no names, size 0, active and next emptied, third and fourth kept, colours black, count and division kept |
| LocalSequence.ClearAll | KF-AE/LocalSequenceData.cpp:62-76 | corrected clear: also empties the third and fourth slots |
| LocalSequence.ReadInt32Into | KF-AE/LocalSequenceData.cpp:147-148 | a read with four bytes left gives the file's word; at the end the field keeps its value |
| LocalSequence.GetKfbStats | KF-AE/LocalSequenceData.cpp:129-149 | no files: nothing; a missing or unreadable first file or a bad tag is an error that changes nothing; otherwise width and height are the header's words and nothing else changes |
| LocalSequence.StatsMatchDecoder | KF-AE/LocalSequenceData.cpp:129-149 | the size read from the header is the size the full decoder accepts |
| LocalSequence.SetupFileDataWith | KF-AE/LocalSequenceData.cpp:44-55 | an empty name leaves the data cleared and not ready; ready exactly when everything succeeded with nonzero width and height; a missing file is the first error; the settings and the list come from the file and its directory |
| LocalSequence.SetupFileDataAsWritten | KF-AE/LocalSequenceData.cpp:44-55 | as written, the third and fourth slots survive a change of file |
| LocalSequence.SetupFileData | KF-AE/LocalSequenceData.cpp:44-55 | corrected: the same, and the slots are consistent with the new file list |
| LocalSequence.StaleFrameReused | KF-AE/LocalSequenceData.cpp:62-76 | after loading another file, key frame 0 is served from the old file's third slot without a load |
| LocalSequence.ReloadThenActivate | KF-AE/LocalSequenceData.cpp:44-55 | corrected: after loading a file and activating a key frame, the active data is that file list's entry k |
| CacheParams.Save | KF-AE/LocalSequenceData.h:113-131 | saving changes only the saved copy; right after it the cache is invalid exactly while sampling |
| CacheParams.IsCacheInvalid | KF-AE/LocalSequenceData.h:134-155 | the cache is invalid exactly while sampling or when a tracked parameter differs from its saved copy |
| CacheParams.FreshCacheInvalid | KF-AE/LocalSequenceData.h:54-55 | a new object reports an invalid cache, since the saved scale factors start at 0 and the current ones at 1 |
| CacheParams.TrackedChangeInvalidates | KF-AE/LocalSequenceData.h:136-153 | changing any tracked parameter after a save invalidates the cache |
| CacheParams.TrackedExamples | KF-AE/LocalSequenceData.h:136-153 | in particular the modifier, the colour offset and the x scale factor |
| CacheParams.UntrackedChangeKeepsVerdict | KF-AE/LocalSequenceData.h:60-79 | changing untracked values (key-frame percent, zooms, scaling mode, slope angle components) never changes the verdict |
| Sequence.GetSequenceData | KF-AE/SequenceData.cpp:118-123 | the data is returned exactly when its "MT" tag is intact |
| Sequence.CString | KF-AE/SequenceData.cpp:154-155 | the stored string is the buffer's prefix before the first NUL |
| Sequence.StoreRoundTrip | KF-AE/SequenceData.cpp:154-155 | round trip: a name stored into the buffer reads back as itself |
| Sequence.SetFileName | KF-AE/SequenceData.cpp:145-160 | a name of 260 or more characters changes nothing; otherwise it is stored and NUL-terminated; unflat data then reloads from that name |
| Sequence.Validate | KF-AE/SequenceData.cpp:130-139 | data that validates has local data with snapshots, a nonzero size, and a nonempty name of an existing file |
| Sequence.SetFileNameThenValidate | KF-AE/SequenceData.cpp:145-160 | after a new name the data is valid exactly when loading that name made it ready; a missing file is reported and never valid |
| Sequence.Flatten | KF-AE/SequenceData.cpp:60-81 | a damaged tag is an error; otherwise the result is flat without local data; flat data is unchanged; the name is kept |
| Sequence.Unflatten | KF-AE/SequenceData.cpp:166-186 | unflat data is unchanged; a failed allocation reports out of memory; otherwise the data is unflat with fresh local data loaded from the stored name |
| Sequence.Resetup | KF-AE/SequenceData.cpp:87-104 | with the host's memory, resetup ends unflat with local data freshly loaded from the stored name |
| Sequence.ResetupRoundTrip | KF-AE/SequenceData.cpp:87-104 | resetup of data already freshly loaded from its name gives it back |
| Sequence.ResetupForgetsLoaded | KF-AE/SequenceData.cpp:87-104 | the local data before a resetup makes no difference to its result |
| Sequence.SequenceSetup | KF-AE/SequenceData.cpp:35-54 | setup succeeds exactly when every allocation does, giving unflat data with an empty name that is not valid and has size 0 |
| Sequence.GetWidth | KF-AE/SequenceData.cpp:191-195 | nonzero exactly when local data exists and is ready, and then the snapshot width |
| Sequence.GetHeight | KF-AE/SequenceData.cpp:199-203 | nonzero exactly when local data exists and is ready, and then the snapshot height |
| Parameters.Reset | KF-AE/Paramaters.cpp:31-32 | every table entry is 0 and the counter is 1 |
| Parameters.UseParam | KF-AE/Paramaters.cpp:57-62 | the ID gets the current counter, the counter goes up by one, and no other entry changes |
| Parameters.RegisterCounts | KF-AE/Paramaters.cpp:35-50 | the counter goes up by one per registration |
| Parameters.RegisterKeeps | KF-AE/Paramaters.cpp:57-62 | an ID not registered keeps its entry |
| Parameters.RegisteredAt | KF-AE/Paramaters.cpp:57-62 | a registered ID holds the position of its last registration |
| Parameters.DistinctRunPositions | KF-AE/Paramaters.cpp:31-50 | distinct registrations from a reset table give positions 1, 2, 3, ... in order and leave the rest at 0 |
| Parameters.RegisterInjective | KF-AE/Paramaters.cpp:57-62 | from a reset table, no two registered IDs share a position |
| Parameters.ParameterSetup | KF-AE/Paramaters.cpp:26-52 | the table is valid and the reported count is one more than the registrations |
| Parameters.Checkout | KF-AE/Paramaters.cpp:263-319 | a read fails exactly when the ID is at position 0, and otherwise reads the host at the ID's position |
| Parameters.ReadFloatSlider | KF-AE/Paramaters.cpp:263-272 | fails exactly for an unregistered ID, else the slider at its position |
| Parameters.ReadList | KF-AE/Paramaters.cpp:278-287 | fails exactly for an unregistered ID, else the popup at its position |
| Parameters.ReadCheckBox | KF-AE/Paramaters.cpp:293-302 | fails exactly for an unregistered ID, else true exactly when the stored value is nonzero |
| Parameters.ReadColour | KF-AE/Paramaters.cpp:307-319 | fails exactly for an unregistered ID, else the colour at its position |
| Parameters.ReadsRegistered | KF-AE/Paramaters.cpp:263-319 | every ID the setup registers can be read |
| Parameters.ChoiceCount | KF-AE/Paramaters.cpp:167-168 | the choice count is one more than the `|` characters before the NUL, so at least 1 |
| Parameters.ChoicesSplit | KF-AE/Paramaters.cpp:167-168 | joining two choice lists with `|` adds their counts |
| ParameterEvents.SetupMovesGroupStart | KF-AE/Paramaters.cpp:38-45 | as written the colour group start ends at position 11 and the group end is never registered |
| ParameterEvents.SetupLosesPositionFour | KF-AE/Paramaters.cpp:38-50 | as written no ID holds position 4 although 14 were added |
| ParameterEvents.SetupPositions | KF-AE/Paramaters.cpp:26-52 | corrected: each parameter gets the position of its registration and the count is 15 |
| ParameterEvents.SetupIsOneToOne | KF-AE/Paramaters.cpp:26-52 | corrected: every position is held and no two IDs share one |
| ParameterEvents.RenderReadsRegistered | KF-AE/Render.cpp:281-291 | every parameter the renderer reads is registered in both versions, so none of those reads throws |
| ParameterEvents.ButtonPositionIsItsId | KF-AE/Paramaters.cpp:101 | the file button's position equals its ID, the only position the change handler compares against |
| ParameterEvents.FileSelectButtonClicked | KF-AE/Paramaters.cpp:71-93 | an empty name changes nothing; a damaged tag is an error; after a load a valid sequence sets the key-frame maximum to files - 1 and the colour division from the settings; otherwise the maximum becomes 1 |
| ParameterEvents.ParameterChanged | KF-AE/Paramaters.cpp:99-112 | only the file button acts, and it forces a re-render |
| SmartRender.SmartPreRenderAsWritten | KF-AE/Render.cpp:35-60 | invalid data gives empty rectangles; valid data reports the snapshot frame as the largest |
| SmartRender.PreRenderDropsVisiblePixels | KF-AE/Render.cpp:51 | for a 100x50 frame, a request containing pixel (60, 0) yields no rectangle |
| SmartRender.SmartPreRender | KF-AE/Render.cpp:35-60 | corrected: the result holds exactly the requested pixels inside the frame, and lies within [0,w] x [0,h] |
| SmartRender.PreRenderAgreesWhenSquare | KF-AE/Render.cpp:51 | for square frames the two versions agree |
| SmartRender.SelectPixelRenderFunction | KF-AE/Render.cpp:82-119 | methods 1, 2 and 4 are accepted at every depth, 1 giving KFR colouring and 2 KFR distance; any other method is an error |
| SmartRender.SelectionIndependentOfDepth | KF-AE/Render.cpp:82-119 | the choice does not depend on the bit depth |
| SmartRender.NonZeroDivision | KF-AE/Render.cpp:283-284 | a zero colour division is replaced, any other kept |
| SmartRender.SplitKeyFrame | KF-AE/Render.cpp:281-297 | the key frame, capped at the last file, is the active frame plus a percent in [0,1) |
| SmartRender.SplitSelectsFile | KF-AE/Render.cpp:281-298 | a non-negative key frame selects an existing file |
| SmartRender.ZoomsHalve | KF-AE/Render.cpp:296-297 | the active zoom is twice the next zoom |
| SmartRender.MakeCachedImage | KF-AE/Render.cpp:159-200 | a failed allocation returns at once; otherwise the image is drawn once with the blend off, the three render values are restored, a drawing error drops the active cache, and the cache is then valid unless sampling |
| SmartRender.CacheActive | KF-AE/Render.cpp:243-246 | the active image is built only when not cached, and is cached afterwards on success |
| SmartRender.DoCachedImages | KF-AE/Render.cpp:231-264 | at most two drawings, both without blending; on success both shown snapshots are cached; the active and next snapshots are restored |
| SmartRender.DrawOrder | KF-AE/Render.cpp:243-254 | with two drawings the active snapshot is drawn first, then the next one |
| SmartRender.CachedImagesReused | KF-AE/Render.cpp:231-264 | with a valid cache and both images cached nothing is redrawn |
| SmartRender.BuiltCacheValid | KF-AE/Render.cpp:231-264 | after a successful build the cache is valid unless sampling |
| SmartRender.CacheDrawingDoesNotBlend | KF-AE/Render.cpp:187-196 | in the state a cached image is drawn in, both blends return the active snapshot at zoom 1 |

## Left out

- Floating point: `double` and `float` are real numbers. The `static_cast<float>` narrowings and float rounding of the source are not modelled.
- `long`/`int` overflow in index arithmetic and in the `exp`/`log` zoom factors is not modelled; the zoom factors come from an abstract `MathLib`.
- `Padding.IntExtrapolate`: the 32-bit `int` overflow of `edge + diff` and `edge + diff*2` (possible once the difference of two iteration counts exceeds 2^30 in size) is not modelled; counts are unbounded integers here.
- `Interpolate.CalculateBiCubic`: the precondition `BiCubicReadsInArray` excludes the non-integral points at which the source reads before the start of the padded array: every point of a snapshot one pixel high, every point with y below -1 (both put the base cell in padded row 0), and the points whose base cell is column 0 of padded row 1 (x below -1, y in [-1,0)). Those reads are undefined behaviour in the source, so the model promises nothing for them.
- `Interpolate.BiLinearNoPad`: the precondition `BiLinearReadsInArray` excludes the inputs on which the source's lower-right read, one row and one column past the base cell, lies past the end of the array. That read is undefined behaviour in the source, so the model promises nothing for it.
- `activeZoomScale` must be nonzero: the model requires it, while the source divides by it unchecked.
- Host I/O is a parameter, and there is no concurrency: AE entry points and suites, handle allocation and locking, world creation, `transform_world`, pixel iteration, file dialogs.
- The `thread_local` host reference and the per-pixel parallel iteration are also not modelled.
- The file system is a `FileSystem` record of functions: `fs::exists`, `ifstream` and `directory_iterator`.
- `ScaleAroundCentre` compositing and `GenerateImage` are an abstract `generate` outcome, since both are host calls.
- `NonSmartRender`, `SetToBlack8` and `SetToBlack16` are host-only paths that write black.
- Other colour styles (angle, panels, log steps, wave, dark/light wave) are not part of this model. `selectPixelRenderFunction*` returns only a style tag for method 4.
- `getDistanceIntraFrame` and `doSlopes` are not part of this model: the distance matrix is an input to `KfrDistance`, and the slope branch is a parameter.
- `KfbFile.ReadKfbFile`: a truncated file is an error in the model. The source's `istream::read` leaves the remaining memory as it was.
- `LocalSequence.GetKfbStats`: a file shorter than 3 bytes fails the tag check in the model. The source compares uninitialised bytes.
- `KfbFile.ReadKfbFile`: uninitialised padded memory is an explicit `junk` input plane. It only matters for one-pixel-wide or one-pixel-high snapshots.
- `KfrDistance.Render16` states that channels lie between the two entries scaled to 16 bits, rather than equality with the colouring style's 16-bit mix.
- `PixelColour.DoModifier`: `std::pow(x, 1/3)` is the library's cube root, and `sqrt` of a negative count is left to the library.
- `ParameterEvents.FileSelectButtonClicked`: the null `local` dereference at Paramaters.cpp:87 is not modelled. Valid sequence data here always has local data when unflat.
- `Sequence.Resetup`: the debug message and the `SequenceSetdown` no-op are not modelled.
- `AddButton`, `AddSlider`, `AddCheckBox`, `AddGroupStart`, `AddGroupEnd`, `AddColourPicker`: their host descriptors are not modelled; only their `useParam` registration is.
- `FrameBlend.GetBlendedPixelValue` samples both snapshots with the corrected `CalculateBiCubicEdge`, whereas the source calls `calculateIterationCountBiCubic` as written. The two agree for 0 <= x < width-2 and 0 <= y < height-2 (`Interpolate.BiCubicAgreesInside`). In the last two loaded columns and rows, and beyond them, the model returns the value at the nearest edge point, while the source's clamp on padded coordinates reads cells up to two columns or rows short of the edge. At the left and top the two differ as well: for pixel coordinates in [-2,0) the source reads the extrapolated padding cells, whereas the corrected sampler clamps to pixel 0 and returns the edge value.
- `FrameBlend.Sample` is the corrected sampler in the same way; it is not the source's as-written read in the last two columns and rows.
- `DistanceMatrix.GetDistanceMatrix` reads the plane with the corrected `BiLinearEdge`, whereas the source calls `calculateIterationCountBiLinearNoPad`. The two agree strictly inside the padded plane (`Interpolate.BiLinearAgreesInside`). In the last padded column and row, and beyond them, the source mixes in a cell of the next row; the model uses the nearest edge point.
- `FrameBlend.GetBlendedDistanceMatrix` builds on `DistanceMatrix.GetDistanceMatrix`, so it inherits the same divergence at the right and bottom edges.
- `KfrParser.ReadKfr`: `IterDiv:` uses an abstract `double` extraction (`readDouble`) once the stream holds something other than white space; only the sentry's failure on an empty remainder is modelled concretely. `int` extraction is modelled digit by digit, with the sign and the 32-bit range check.

## Findings

| source | as written | input that shows it | evidently intended | confidence | as-written member | corrected member |
|---|---|---|---|---|---|---|
| KF-AE/KFBData.h:78-82 | `getIterationCount` clamps padded coordinates to width-1, so the two rightmost loaded columns read padding | 3x3 snapshot, pixel (2,0): loaded value 18, read 16 | clamp to the loaded pixels, reading the nearest edge pixel | high, not executed | KfbGrid.GetIterationCountMissesLoadedCell | KfbGrid.GetIterationCountEdge |
| KF-AE/KFBData.cpp:231-232 | the bicubic base cell is clamped to width-1 on padded coordinates, so integral points in the last two columns read the wrong cell | 3x3 snapshot, (2.0, 0.0): smooth 18, sampled 16 | the base cell of the loaded pixel, with the nearest edge outside | high, not executed | Interpolate.BiCubicMissesRightEdge | Interpolate.CalculateBiCubicEdge |
| KF-AE/KFBData.cpp:271-283 | fractional x above memWidth-1 is clamped only to memWidth-1, so `ur` is read from the next row | 1x1 snapshot at (4.5, 2.0): read 14.5, edge value 14 | the nearest edge pixel, as the comment promises | high, not executed | Interpolate.BiLinearWrapsRow | Interpolate.BiLinearEdge |
| KF-AE/LocalSequenceData.cpp:95-103 | a non-numeric token sets failbit without eof, so the `Colors:` loop never ends | the line "Colors: x" | stop the loop when an extraction fails | high, not executed | KfrParser.NonNumericFileAsWritten | KfrParser.NonNumericFile |
| KF-AE/LocalSequenceData.cpp:227 | the fourth slot is numbered `keyFrame3` while holding `keyFrame4`'s data | mercator, four files, key frame 0: slot 4 numbered 2, holds file 3 | `fourthFrameNumber = keyFrame4` | high, not executed | FrameSlots.SetupMislabelsFourth | FrameSlots.SetupActiveKfb |
| KF-AE/LocalSequenceData.cpp:62-76 | `clear` keeps the third and fourth slots, so after a new file a stale frame is shown | third slot holds key frame 0 of the old file; load a new file; activate 0 | clear all four slots, as `DeleteKFBData` does | medium, not executed | LocalSequence.StaleFrameReused | LocalSequence.ReloadThenActivate |
| KF-AE/Render.cpp:51 | the disjointness test compares `top` with `w` and `left` with `h` | 100x50 frame, request left 60, right 80, top 0, bottom 10 | compare `left` with `w` and `top` with `h` | high, not executed | SmartRender.PreRenderDropsVisiblePixels | SmartRender.SmartPreRender |
| KF-AE/Render-KFRDistance.cpp:151 | `white16 / white8` is integer division (128), so white becomes 32640 | a pixel between two white palette entries, no slopes | the real quotient, as `SetInsideColour16` uses | high, not executed | KfrDistance.WhiteFallsShortAsWritten | KfrDistance.WhiteReachesWhite16 |
| KF-AE/Paramaters.cpp:45 | the colour group is closed by registering `topic_start_colour` again | the setup as written | register `topic_end_colour` | high, not executed | ParameterEvents.SetupLosesPositionFour | ParameterEvents.SetupIsOneToOne |
