# ridge-changemap core, modelled in Dafny

`ridge-changemap` builds an urban-damage map from three inputs:

- ridge lines extracted from SAR imagery;
- a pre-event amplitude image;
- a post-event amplitude image.

For every segment of every ridge line it computes a *change coefficient*
from the local square ratio of the pre- and post-event amplitudes. That
ratio is calibrated against the mean square ratio over the whole image.
The program then renders the segments in a damage palette, either as
stroked vector lines (PDF or PNG) or as a raster mask with one pixel per
segment midpoint.

The project models:

- the `ChangeMap` object of `ridge-changemap-map.c`: the square ratio, the
  Kahan-summed calibration, the setters and `change_map_get_line`;
- the two exporters of `ridge-changemap-export.c`: the palette
  interpolation and the background colour, the coordinate conversion, the
  stroke sequence of the line renderer and the pixel stores of the mask
  renderer;
- three parts of the driver `ridge-changemap.c`: the classification filter
  of `ridges_load_check`, `guess_output_format`, and the order of calls in
  `main` with its fall-back to PDF;
- the records of `ridge-changemap.h`. `ChangeMap`, `ChangeMapLine`,
  `OutputFormat` and `OutputOptions` become immutable datatypes in
  `changemap_types.dfy`.

Conventions:

- Every `g_assert`, `g_error` and `exit` of the modelled code becomes a
  `Failure` of the `Result` type, with these exceptions:
  - The normality check on the change coefficient at
    ridge-changemap-map.c:210. The line query and everything built on it
    use the corrected coefficient instead (see Findings and "Left out").
  - The segment bound at ridge-changemap-map.c:233 is the `requires` of
    `ChangeMapObject.GetPixel`. Every caller passes a segment below the
    line's count.
  - The NULL-pointer asserts are ruled out by typing, because a Dafny value
    is never null. They are at ridge-changemap-map.c:115-116, 137-138,
    152-153, 176 and 232, ridge-changemap-export.c:112-113 and 193-194,
    and ridge-changemap.c:89-91. The asserts that the ridges and both
    images are set (ridge-changemap-map.c:177-179) are the `NotReady`
    failure.
  - The cairo status, allocation and write failures
    (ridge-changemap-export.c:160-164, 168-172, 201 and 242-250) belong to
    the I/O that is not modelled.

  Each error has its own constructor in `ChangeMapTypes.Error`.
- Doubles and floats are exact reals. Raster samples are `Finite(v)` or
  `NonFinite`.
- A stale calibration (`NAN` in the C code) is `None`.
- The cairo surface of the line renderer is the list of drawing operations
  issued.
- The mask renderer's surface is its byte buffer. Each store is the
  4-byte little-endian word `memcpy` leaves there.

Files:

| file | module | content |
|---|---|---|
| `common.dfy` | `Common` | `Option`, `Result`, byte and word types |
| `changemap_types.dfy` | `ChangeMapTypes` | data declarations of the header and of the ridge data |
| `ratio.dfy` | `Ratio` | square ratio, calibration, change coefficient |
| `changemap.dfy` | `ChangeMapObject` | the `ChangeMap` API |
| `palette.dfy` | `Palette` | damage palette and background colour |
| `pixel_buffer.dfy` | `PixelBuffer` | RGB24 buffer layout, word packing, store semantics |
| `export.dfy` | `Export` | `export_ridge_lines` and `export_ridge_mask` |
| `cli.dfy` | `Cli` | classification filter, format guessing, `main` |

Notes on what the code does:

- Ridge coordinates are fixed point scaled by 128. `convert_coords`
  divides by 128.0. `change_map_line_get_pixel` adds two endpoints and
  shifts right by 8, which is the floor of their midpoint in pixels (a
  shift by 8 of a single coordinate would be a scale of 256).
- `change_map_set_nan` only requires the new value to be a normal number
  unless it equals the current one. Any non-zero real is accepted, and a
  negative value too.
- For a change value above the last palette stop, the search loop leaves
  both endpoints at that stop. The fraction's denominator is then 0 and its
  numerator positive, so the fraction is +∞ and each channel is NaN
  (∞ · 0 where the stop's channel is 0, ∞ − ∞ otherwise). The model yields no colour (`None`) there rather than inventing one.
  Change coefficients are always below 1, so the exporters never reach
  this case.
- `export_ridge_mask` inspects the output format only after drawing. A
  `FORMAT_NONE` option therefore fails after every line has been fetched.
  `export_ridge_lines` fails before drawing.

## Model

| member | source | states |
|---|---|---|
| Ratio.Substitute | ridge-changemap-map.c:40-43 | A normal sample (finite and non-zero) is kept as it is. Any other sample, zero or non-finite, is replaced by the NaN substitute. |
| Ratio.PixelRatio | ridge-changemap-map.c:40-48 | square_ratio at one pixel: the ratio is defined exactly when 1 + pre and 1 + post are both non-zero, where pre and post are the substituted samples. A defined ratio is positive, and times (1 + post)² it equals (1 + pre)², (as Ratio.SquareRatioScales states for the amplitude pair). Equal samples give a ratio of exactly 1. |
| Ratio.SquareRatio | ridge-changemap-map.c:37-49 | The ratio is defined exactly when 1 + pre and 1 + post are both non-zero. Otherwise the normal-and-positive assertions fail. A defined ratio is positive, and it is exactly 1 when both amplitudes agree. |
| Ratio.SquareRatioScales | ridge-changemap-map.c:44-45 | A defined ratio times (1 + post)² equals (1 + pre)². The ratio is the square of the amplitude quotient. |
| Ratio.RatioGrowsAsPostShrinks | ridge-changemap-map.c:44-45 | With the pre-event amplitude fixed, a smaller post-event amplitude (with 1 + post still positive) gives a strictly larger ratio. |
| Ratio.Calibration | ridge-changemap-map.c:51-82 | The calibration succeeds exactly when three things hold: both rasters cover the image, every pixel's ratio is defined, and the image is non-empty. An empty image gives 0 / 0, which is not normal. The value is positive, and times height × width it gives the sum of all pixel ratios. |
| Ratio.Cells | ridge-changemap-map.c:67 | The pixel count, taken row by row, is positive exactly when both dimensions are. |
| Ratio.CellsIsProduct | ridge-changemap-map.c:67 | The row-by-row pixel count equals height × width. |
| Ratio.Mean | ridge-changemap-map.c:80 | The mean times the count gives back the sum. A positive sum has a positive mean. |
| Ratio.Recalibrate | ridge-changemap-map.c:51-82 | The row-major double loop with Kahan-compensated summation returns exactly the calibration, including every failure case. |
| Ratio.SumRow | ridge-changemap-map.c:71-77 | The inner loop fails exactly when some ratio in the row is undefined. Otherwise it adds the row's ratios to the running sum and leaves the compensation term at 0. |
| Ratio.GridSumOfUnitRatios | ridge-changemap-map.c:70-78 | When every ratio is 1, the sum over the first i rows is the number of pixels in them. |
| Ratio.RowSumOfUnitRatios | ridge-changemap-map.c:71-77 | When every ratio is 1, the sum over the first j pixels of a row is j. |
| Ratio.UnitRatio | ridge-changemap-map.c:40-47 | If the pre and post images are identical, every pixel's ratio is exactly 1. |
| Ratio.CalibrationOfIdenticalRasters | ridge-changemap-map.c:64-81 | If the pre and post images are identical, the calibration is exactly 1. |
| Ratio.ChangeCoefficient | ridge-changemap-map.c:208-211 | The coefficient 1 − calibration / ratio is below 1. It is zero exactly when the ratio equals the calibration, and positive exactly when the ratio exceeds it. |
| Ratio.ChangeGrowsWithRatio | ridge-changemap-map.c:208-209 | A larger local ratio gives a strictly larger change coefficient. |
| Ratio.ChangeCoefficientAsWritten | ridge-changemap-map.c:208-210 | The as-written normality check fails exactly when the ratio equals the calibration. Otherwise it yields the corrected coefficient. |
| Ratio.IdenticalRastersAbortAsWritten | ridge-changemap-map.c:208-210 | With identical pre and post images, every pixel's ratio is defined. The as-written check rejects that pixel's coefficient, while the corrected coefficient is 0. |
| ChangeMapObject.ChangeMapNew | ridge-changemap-map.c:88-102 | A new map has no ridge data or images, NaN substitute 0, size −1 × −1 and a stale calibration, and it satisfies the object invariant. |
| ChangeMapObject.SetRidgeData | ridge-changemap-map.c:111-132 | The ridge data is accepted exactly when it is line data with both image-size keys. Other data fails with NotLineData, and missing size keys with MissingImageSize. On success the map takes the data and its size, the calibration becomes stale and nothing else changes. |
| ChangeMapObject.SetPreImage | ridge-changemap-map.c:134-147 | The image is accepted exactly when its size equals the recorded size. Otherwise the call fails with a size mismatch. On success only the pre image and the stale calibration change. |
| ChangeMapObject.SetPostImage | ridge-changemap-map.c:149-162 | The same as SetPreImage, for the post image. |
| ChangeMapObject.SetNan | ridge-changemap-map.c:164-171 | Setting the current value changes nothing and keeps the calibration. Any other value fails exactly when it is 0, the one non-normal real. On success the map takes the value and the calibration becomes stale. |
| ChangeMapObject.GetPixel | ridge-changemap-map.c:227-243 | A segment's pixel row, times 256, is at most the sum of the segment's two endpoint rows and more than that sum minus 256. The same holds for the column. |
| ChangeMapObject.ShiftIsFloor | ridge-changemap-map.c:235-239 | Shifting right by 8 is the floor of the division by 256. |
| ChangeMapObject.PixelInsideImage | ridge-changemap-map.c:235-239 | If both endpoints of a segment lie inside the image in fixed point, the segment's pixel lies inside the image. |
| ChangeMapObject.PointsInsideImage | ridge-changemap-map.c:202-206 | A line whose points all lie inside the image has every segment pixel inside it, so the pixel assertions of the segment loop hold for it. |
| ChangeMapObject.CopyCoords | ridge-changemap-map.c:185-199 | A line of Np ≥ 1 points gives n_segments = Np − 1. Both coordinate arrays have n_segments + 1 entries, the header's invariant. Entry k holds point k's row and column. |
| ChangeMapObject.CopyLine | ridge-changemap-map.c:194-199 | The point-copy loop fills both coordinate arrays exactly as CopyCoords describes. |
| ChangeMapObject.SegmentChanges | ridge-changemap-map.c:201-212 | The segment loop fails with PixelOutOfRange exactly when some segment's pixel lies outside the image. Otherwise segment k gets the change coefficient of the ratio at its pixel. |
| ChangeMapObject.LineRecord | ridge-changemap-map.c:185-212 | The record of an accepted line satisfies the length invariant of `ChangeMapLine` in ridge-changemap.h:34-38: n_segments + 1 coordinates in each array and one change value per segment. Its coordinates copy the line point for point. Every segment pixel lies inside the image. Every change is below 1, and zero exactly where the ratio at the segment's pixel equals the calibration. |
| ChangeMapObject.CurrentCalibration | ridge-changemap-map.c:182 | A cached calibration is used as it is, and by the object invariant it equals a fresh calibration. A stale one is recomputed. |
| ChangeMapObject.GetLineSpec | ridge-changemap-map.c:173-215 | The query fails with NotReady unless ridge data and both images are set, and with IndexOutOfRange for an index past the last line. It also fails when the calibration fails, when the line is empty, or when a segment's pixel lies outside the image. On success it returns the line's record and a map whose calibration is cached and otherwise unchanged. |
| ChangeMapObject.GetLine | ridge-changemap-map.c:173-215 | The imperative query, with its copy and segment loops, returns exactly what GetLineSpec describes. |
| Palette.PaletteWellFormed | ridge-changemap-export.c:61-67 | The table's stops strictly increase from 0 to 1 and end in the NaN sentinel. |
| Palette.FindEnd | ridge-changemap-export.c:75-79 | Searching from stop i, for a value within the table's range, returns the first stop at or above the value. |
| Palette.EndStop | ridge-changemap-export.c:72-79 | The interval end is a stop after the first one, at or above the clamped change value. Every stop from 1 up to it lies below the clamped change value. |
| Palette.EndStopAt | ridge-changemap-export.c:75-79 | If stop i − 1 < d ≤ stop i, with d clamped at 0, the end stop is i. |
| Palette.EndStopExactly | ridge-changemap-export.c:72-79 | The end stop is i exactly when the clamped d is at most stop i and, for i > 1, above stop i − 1. Stop 1 also takes every value at or below stop 0, because the search starts at stop 1. |
| Palette.Fraction | ridge-changemap-export.c:80 | Within the table's range, the interpolation fraction lies in [0, 1]. |
| Palette.DamageColour | ridge-changemap-export.c:69-86 | A colour exists exactly when the clamped change value is at most the last stop. Each channel lies between the two stops' channels, scaled to [0, 1]. |
| Palette.DamageColourAtStop | ridge-changemap-export.c:74-83 | At a stop's own value the colour is exactly that stop's colour. |
| Palette.DamageColourAtZero | ridge-changemap-export.c:72-83 | Any change value at or below 0 is clamped and gets the first stop's colour. |
| Palette.DamageColourHalfway | ridge-changemap-export.c:80-83 | Halfway between two stops, each channel is the average of theirs. |
| Palette.DamageColourBeyondLastStop | ridge-changemap-export.c:75-80 | Above the last stop the search runs off the table and no colour is defined. |
| Palette.BlendBetween | ridge-changemap-export.c:81-83 | For a fraction in [0, 1] the blended channel lies between the two end channels and inside [0, 1]. |
| Palette.FindSentinel | ridge-changemap-export.c:93 | The scan stops at the first entry without a stop value. |
| Palette.BackgroundColour | ridge-changemap-export.c:88-95 | The background is the sentinel entry's colour, scaled to [0, 1]. |
| PixelBuffer.OffsetInBuffer | ridge-changemap-export.c:232 | The 4 bytes at a pixel's offset lie inside the surface buffer. |
| PixelBuffer.OffsetsDisjoint | ridge-changemap-export.c:232-233 | Two distinct pixels' 4-byte slots do not overlap. |
| PixelBuffer.WordRoundTrip | ridge-changemap-export.c:226-233 | A 32-bit word written as little-endian bytes reads back as the same word. |
| PixelBuffer.PackRgb | ridge-changemap-export.c:229-231 | The packed word is below 2^24, and its bytes 2, 1 and 0 are red, green and blue. |
| PixelBuffer.PackedBytes | ridge-changemap-export.c:229-233 | In memory the packed word is the bytes blue, green, red, 0. |
| PixelBuffer.WriteWord | ridge-changemap-export.c:233 | The copy changes only the 4 bytes at the offset and keeps the buffer's length. |
| PixelBuffer.ReadAfterWriteSame | ridge-changemap-export.c:233 | Reading at the offset just written gives the written word. |
| PixelBuffer.ReadAfterWriteOther | ridge-changemap-export.c:233 | A write leaves every non-overlapping word as it was. |
| PixelBuffer.ApplyWritesSnoc | ridge-changemap-export.c:212-236 | Applying one more store is one more memcpy on the buffer reached so far. |
| PixelBuffer.ReadAfterWrites | ridge-changemap-export.c:212-236 | After a sequence of stores, every pixel holds the last word stored to it, or its original word if none was. |
| PixelBuffer.LastWriteAppend | ridge-changemap-export.c:212-236 | For two consecutive store sequences, a pixel's last store is its last store in the second sequence, else in the first. |
| PixelBuffer.Background | ridge-changemap-export.c:206-207 | After the background paint, every pixel of the surface holds the background word. |
| Export.ConvertCoords | ridge-changemap-export.c:97-102 | Device x is the column and device y the row, each divided by the fixed-point scale 128. |
| Export.PixelIsFloorOfMidpoint | ridge-changemap-map.c:235-239 | The pixel a segment is sampled at is the floor of the midpoint of the stroke the line renderer draws for it. |
| Export.SegmentColour | ridge-changemap-export.c:145 | Every change coefficient (below 1) has a damage colour, inside the unit cube. |
| Export.BackgroundRgb | ridge-changemap-export.c:135-136 | The background paint is white. |
| Export.LineColours | ridge-changemap-export.c:142-145 | Each segment of a record gets the damage colour of its own change value. |
| Export.AllStrokesShape | ridge-changemap-export.c:140-153 | The renderer draws one stroke per segment, each in a colour inside the unit cube. |
| Export.QueryStep | ridge-changemap-export.c:140-141 | Query i, made on the map the earlier queries left, succeeds exactly when lines 0..i are all accepted. It then returns line i's record and the map with the calibration cached. |
| Export.FetchLine | ridge-changemap-export.c:141 | A failed line query means the map cannot be exported in full. A successful one returns line i's record. |
| Export.StrokeSegments | ridge-changemap-export.c:142-153 | The segment loop appends, for each k in order, a stroke from point k to point k + 1 in colour k. |
| Export.StrokeLine | ridge-changemap-export.c:142-153 | The segment loop appends exactly the strokes of the record, each in its segment's damage colour. |
| Export.StrokeNextLine | ridge-changemap-export.c:140-155 | One pass of the line loop extends the strokes of lines 0..i−1 to those of lines 0..i. |
| Export.StrokeLines | ridge-changemap-export.c:138-155 | The line loop succeeds exactly when every line query does. It then issues the strokes of all lines, line after line. |
| Export.ExportRidgeLines | ridge-changemap-export.c:106-155 | FormatNone fails before drawing, and missing ridge data fails with NotReady. Otherwise the render succeeds exactly when the map is exportable, and it issues the white background paint and then every segment's stroke in line order. |
| Export.Channel | ridge-changemap-export.c:229-231 | (int)(c × 255) of a channel in [0, 1] is the floor of c × 255. |
| Export.ChannelOfTableColour | ridge-changemap-export.c:81-83 | A table channel divided by 255 converts back to the same byte. |
| Export.PackColour | ridge-changemap-export.c:229-231 | A colour packs into a word below 2^24 whose bytes, from high to low, are the red, green and blue channels converted to 0..255. |
| Export.BackgroundWord | ridge-changemap-export.c:206-207 | The background paint leaves the word 0xFFFFFF in every pixel. |
| Export.MaskWords | ridge-changemap-export.c:222-231 | There is one 32-bit word per segment. Every segment's change value has a damage colour, and word k is segment k's damage colour, packed. |
| Export.AllWritesFit | ridge-changemap-export.c:219-233 | When every record's pixels lie inside the layout, all stores land inside the buffer. |
| Export.WritesUpToFit | ridge-changemap-export.c:212-236 | The stores of the first i lines land inside a buffer at least as large as the image. |
| Export.WritePixel | ridge-changemap-export.c:232-233 | One memcpy at the pixel's offset is the next store of the sequence. |
| Export.WriteSegments | ridge-changemap-export.c:214-234 | The segment loop's buffer is the previous buffer with this record's stores applied in order. |
| Export.WriteLine | ridge-changemap-export.c:214-234 | A record's stores fit the buffer, and the loop applies exactly them. |
| Export.WriteNextLine | ridge-changemap-export.c:212-236 | One pass of the line loop extends the stores of lines 0..i−1 to those of lines 0..i. |
| Export.WriteLines | ridge-changemap-export.c:211-236 | The line loop succeeds exactly when every line query does. The buffer is then the background with every store applied. |
| Export.ExportRidgeMask | ridge-changemap-export.c:187-270 | Missing ridge data fails with NotReady. The render succeeds exactly when the map is exportable and the format is known, and FormatNone fails only after drawing. On success every pixel holds the word of the last segment whose midpoint falls in it, or white. |
| Cli.ClassIndices | ridge-changemap.c:135-136 | The selected indices are exactly the positions whose label equals the wanted class, in increasing order. |
| Cli.FilterByClass | ridge-changemap.c:135-146 | The kept lines are lines of the input, no more of them than there are. When every label matches, all lines are kept; when none does, none is. Cli.FilterSelects states that they are exactly the lines at the selected indices, in order. |
| Cli.FilterSelects | ridge-changemap.c:135-146 | The filtered lines are the lines at the selected indices, in order. |
| Cli.RidgesLoadCheck | ridge-changemap.c:85-150 | The check fails with NotLineData for other data and with MissingImageSize when a size key is absent. Without one label per line, the data is kept as loaded. Otherwise the result is new line data with the same image size, no classification, and exactly the lines of the wanted class in order. |
| Cli.FilterLines | ridge-changemap.c:135-146 | The copy loop keeps exactly the lines of the wanted class. |
| Cli.CopyPoints | ridge-changemap.c:140-145 | The point loop copies a line point for point. |
| Cli.LastDot | ridge-changemap.c:184 | strrchr finds a '.' with no '.' after it, or reports none when the name has no '.'. |
| Cli.ToLower | ridge-changemap.c:188 | Only upper-case ASCII letters are folded, each to its lower-case letter. |
| Cli.LookupSuffix | ridge-changemap.c:187-191 | FormatNone means no table suffix matches ignoring case. Any other result is the format of a matching entry. |
| Cli.ExtensionFormat | ridge-changemap.c:178-191 | An extension gives PNG exactly when it is "png" in any case, PDF exactly when it is "pdf", and no format otherwise. |
| Cli.GuessFromExtension | ridge-changemap.c:184-191 | For a name stem.ext with no '.' in ext, the guess depends on ext alone, whatever dots the stem holds. |
| Cli.GuessOutputFormat | ridge-changemap.c:171-194 | The guess is PNG exactly when the name has a '.' and the text after the last one is "png" in any case, and PDF exactly when that text is "pdf". Cli.GuessFromExtension and Cli.NoDotNoFormat state the same for a stem.ext name and for a name without a '.'. |
| Cli.NoDotNoFormat | ridge-changemap.c:184-193 | A name without a '.' gives no format. |
| Cli.EmptySuffixNoFormat | ridge-changemap.c:184-193 | A name ending in '.' has an empty suffix and gives no format. |
| Cli.ResolveFormat | ridge-changemap.c:289-296 | The resolved format is never FormatNone. It is the requested format if one was given, otherwise the guessed one, otherwise PDF. |
| Cli.Rgb24Stride | ridge-changemap-export.c:197-200 | The stride covers 4 bytes per pixel of a row and is 4-byte aligned. |
| Cli.Prepare | ridge-changemap.c:271-303 | Set-up succeeds exactly when the ridge data is line data with an image size and both rasters have that size. The map then holds the ridge data `ridges_load_check` returns and the two given rasters. It is ready, with a stale calibration. The options carry the file name, that size and a format other than FormatNone. |
| Cli.Run | ridge-changemap.c:271-314 | A set-up failure is the run's failure. After set-up the run succeeds exactly when the map is exportable. The output is a drawing exactly in ridge-lines mode. In that mode the drawing is the white background paint followed by every segment's stroke, line after line. In ridge-mask mode every pixel holds the word of the last segment whose midpoint falls in it, or white. |

## Left out

- File and library I/O is not modelled: reading ridge files and TIFF images, cairo surface creation, `cairo_surface_write_to_png`, PDF output and surface status checks. The loaded data enters as parameters, and `img_load_check`'s size test is the size check of the image setters.
- Command-line parsing (`getopt_long`, `usage`, `sscanf`) and the `-s` flag, which main never reads, are not modelled. The class label, NaN substitute, mode and output file name are parameters.
- Floating-point rounding, subnormals and the float storage of `change[]` are not modelled. Arithmetic is over exact reals. With exact arithmetic the Kahan compensation term stays 0.
- Export.Channel: models `(int)(c * 255)` as the exact floor of c × 255. Double rounding of the product is not modelled.
- The `uint32_t` to `int` conversions of image sizes and pixel indices are not modelled. Sizes above 2^31 − 1 do not occur for the images this tool reads.
- Memory management (`g_new0`, `change_map_line_free`, `rio_data_destroy`) and the cairo context state are not modelled.
- The line renderer's line width and round caps are not modelled, because they do not affect which operations are issued.
- Export.ExportRidgeMask: requires a stride of at least 4 × width and an image no larger than the surface. Cairo guarantees the first. The second holds in main because both sizes come from the same metadata. The model does not describe the out-of-buffer stores the C code would make otherwise.
- Cli.Run: passes the mask renderer the stride 4 × width. For RGB24 this is the value cairo computes.
- PixelBuffer.PackedBytes: fixes the host byte order as little-endian. The background's high byte is modelled as 0, the value cairo's RGB24 format leaves unused.
- `recalibrate`'s branch for a missing image is not modelled. It only marks the calibration stale and falls through. It cannot be reached, because `change_map_get_line` checks both images first.
- A ridge line with no points fails with `EmptyLine`. In the C code, `n_segments` becomes −1 and the allocation sizes wrap.
- ChangeMapObject.GetLineSpec: uses the corrected change coefficient, so a segment whose ratio equals the calibration gets change 0 instead of aborting (see Findings).
- ChangeMapObject.GetLine: succeeds where some segment's ratio equals the calibration, although the C code aborts there (ridge-changemap-map.c:210). Its "exactly when" success condition inherits the corrected coefficient from ChangeMapObject.GetLineSpec.
- ChangeMapObject.SegmentChanges: succeeds where some segment's ratio equals the calibration, although the C code aborts there (ridge-changemap-map.c:210). Its "exactly when" success condition inherits the corrected coefficient from ChangeMapObject.GetLineSpec.
- Export.QueryStep: succeeds where some segment's ratio equals the calibration, although the C code aborts there (ridge-changemap-map.c:210). Its "exactly when" success condition inherits the corrected coefficient from ChangeMapObject.GetLineSpec.
- Export.FetchLine: succeeds where some segment's ratio equals the calibration, although the C code aborts there (ridge-changemap-map.c:210). Its "exactly when" success condition inherits the corrected coefficient from ChangeMapObject.GetLineSpec.
- Export.StrokeNextLine: succeeds where some segment's ratio equals the calibration, although the C code aborts there (ridge-changemap-map.c:210). Its "exactly when" success condition inherits the corrected coefficient from ChangeMapObject.GetLineSpec.
- Export.StrokeLines: succeeds where some segment's ratio equals the calibration, although the C code aborts there (ridge-changemap-map.c:210). Its "exactly when" success condition inherits the corrected coefficient from ChangeMapObject.GetLineSpec.
- Export.ExportRidgeLines: succeeds where some segment's ratio equals the calibration, although the C code aborts there (ridge-changemap-map.c:210). Its "exactly when" success condition inherits the corrected coefficient from ChangeMapObject.GetLineSpec.
- Export.WriteNextLine: succeeds where some segment's ratio equals the calibration, although the C code aborts there (ridge-changemap-map.c:210). Its "exactly when" success condition inherits the corrected coefficient from ChangeMapObject.GetLineSpec.
- Export.WriteLines: succeeds where some segment's ratio equals the calibration, although the C code aborts there (ridge-changemap-map.c:210). Its "exactly when" success condition inherits the corrected coefficient from ChangeMapObject.GetLineSpec.
- Export.ExportRidgeMask: succeeds where some segment's ratio equals the calibration, although the C code aborts there (ridge-changemap-map.c:210). Its "exactly when" success condition inherits the corrected coefficient from ChangeMapObject.GetLineSpec.
- Cli.Run: succeeds where some segment's ratio equals the calibration, although the C code aborts there (ridge-changemap-map.c:210). Its "exactly when" success condition inherits the corrected coefficient from ChangeMapObject.GetLineSpec.
- Export.ExportRidgeLines: fails with `NotReady` when the map has no ridge data. The C code instead passes a NULL pointer to `rio_data_get_num_entries` (ridge-changemap-export.c:138). What that call does lies outside the modelled files, and `main` never gets there, because it always sets the ridge data first.
- Export.ExportRidgeMask: fails with `NotReady` when the map has no ridge data. The C code instead passes a NULL pointer to `rio_data_get_num_entries` (ridge-changemap-export.c:211). What that call does lies outside the modelled files, and `main` never gets there, because it always sets the ridge data first.
- `change_map_free` and `main`'s clean-up calls are not modelled, because they only release memory.

## Findings

| source | as written | input that shows it | evidently intended | confidence | as-written member | corrected member |
|---|---|---|---|---|---|---|
| ridge-changemap-map.c:208-210 | `g_assert (isnormal (d))` after `d = 1 - calibration / r`, and 0 is not a normal number | identical pre- and post-event images: every ratio is 1, the calibration is 1, and the first segment's change is 0, so the assertion aborts | a segment whose local ratio equals the calibration has change 0 ("no change") and is drawn in the first palette colour | not executed | Ratio.ChangeCoefficientAsWritten, Ratio.IdenticalRastersAbortAsWritten | Ratio.ChangeCoefficient |
