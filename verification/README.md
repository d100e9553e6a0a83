# CloudMap core, modelled in Dafny

CloudMap is a set of Python scripts. They turn Meteosat Second Generation
(MSG) HRIT satellite segments into GeoTIFF files, draw a GeoTIFF on an
orthographic world map, and read a position from a GPS module over a serial
line. This project models the pure logic of those scripts and proves
properties of it:

- `Arrays` (arrays.dfy) holds the numpy array operations the scripts rely on.
  These are row-major flatten and reshape, with their round trips, and
  transpose.
- `Reproject` (reproject.dfy) is `convert_xy_projection`. A (2, m, n)
  coordinate array is flattened row-major into m·n points. The points go
  through one batch coordinate transformation, and components 0 and 1 of the
  results are reshaped back into two m×n planes. The transformation itself is
  a parameter `t`.
- `GeoGrid` (geogrid.dfy) covers the rest of the map script:
  - the bounds geotiff_to_map.py derives from the geotransform and raster size;
  - the half-open `np.mgrid` mesh over them;
  - the orthographic projection centre;
  - the pairing of the reprojected mesh with the transposed first band for
    `pcolormesh`.
- `Digits` (digits.dfy) covers `get_digits`, Python's `str` of an integer, and
  Python's `int` of a signed decimal string.
- `MsgToGeotiff` (msg_to_geotiff.dfy) covers the decisions msg_to_geotiff.py makes
  before and between its external calls:
  - the argument-count dispatch and validation;
  - the dated directory parts;
  - the `IODC` rewrite of HRIT file names;
  - the output file names;
  - the argument vectors of `gdal_translate` and `gdalwarp`.
- `GpsRead` (gps_read.dfy) covers the loop of gps_read.py. It is modelled
  as a fold over the characters read from the port. It does line framing,
  comment echo, `G <sats> <lat> <lon>` fixes, the line count, and a stop
  check before each read. The fold can ignore the `break` after a completed
  line (gps_read.py:46), because `ser.read()` with its default size returns at
  most one byte, so that `break` never skips an unread character.
- `Wrappers` (wrappers.dfy) holds `Option` and `Result`.

Arithmetic on coordinates is exact (`real`). Python exceptions become
`Failure`/`None` values or outcome constructors.

## Model

| member | source | states |
|---|---|---|
| Arrays.Flatten | geotiff_func.py:27 | `reshape` of an m×n array to one row has m·n elements |
| Arrays.FlattenCell | geotiff_func.py:27 | cell (i, j) of an array sits at position i·n + j of its flattening |
| Arrays.FlattenIndex | geotiff_func.py:27 | element k of the flattened array is cell (k / n, k % n): row-major order |
| Arrays.Reshape | geotiff_func.py:30-31 | reshaping m·n elements gives an m×n array |
| Arrays.ReshapeIndex | geotiff_func.py:30-31 | cell (i, j) of the reshaped array is element i·n + j |
| Arrays.ReshapeFlatten | geotiff_func.py:27-31 | reshaping a flattened m×n array back to (m, n) gives the array |
| Arrays.FlattenReshape | geotiff_func.py:27-31 | flattening a reshaped sequence gives the sequence |
| Arrays.Transpose | geotiff_to_map.py:98 | `.T` of an m×n array is n×m with cell (i, j) equal to cell (j, i) of the input |
| Arrays.TransposeInvolution | geotiff_to_map.py:98 | transposing twice gives the array back |
| Reproject.TransformPoints | geotiff_func.py:27 | the batch transformation keeps the batch length and transforms each point on its own, in order |
| Reproject.TransformPointsSwap | geotiff_func.py:27 | swapping two points of the batch swaps their results and moves no other result |
| Reproject.Zip | geotiff_func.py:27 | the transpose of the (2, size) array pairs element k of row 0 with element k of row 1 |
| Reproject.Column | geotiff_func.py:30-31 | `xy_target[:, c]` is component c of every transformed point, in order |
| Reproject.BatchPoints | geotiff_func.py:16-27 | the batch has one point per grid cell (m·n points) |
| Reproject.BatchPointOrder | geotiff_func.py:27 | batch point k is the (x, y) pair of cell (k / n, k % n) |
| Reproject.ConvertXYProjection | geotiff_func.py:6-33 | fails exactly for an empty grid; otherwise both outputs have the input shape m×n |
| Reproject.ConvertPointwise | geotiff_func.py:6-33 | output cell (i, j) of x_out and y_out is component 0 and 1 of `t` at input cell (i, j) |
| Reproject.ConvertIdentity | geotiff_func.py:6-33 | a transformation that keeps (x, y) returns the input planes unchanged |
| Reproject.ConvertLocality | geotiff_func.py:6-33 | changing one input cell changes no other output cell |
| GeoGrid.RasterBounds | geotiff_to_map.py:68-71 | each bound pair is centred on the raster's middle (xmin + xmax = 2·originX + xres·width, ymin + ymax = 2·originY + yres·height); the x-pair spans xres·(width - 1) and the y-pair yres·(height + 1) |
| GeoGrid.RasterBoundsMeaning | geotiff_to_map.py:62-71 | xmin and xmax are the centres of the first and last columns; ymax and ymin are the centres of rows -1 and height, half a pixel outside the raster; so the spans are xres·(w-1) and yres·(h+1) |
| GeoGrid.Ceil | geotiff_to_map.py:77 | `math.ceil` as numpy sizes an mgrid axis: the least integer not below x |
| GeoGrid.Arange | geotiff_to_map.py:77 | an mgrid axis fails exactly on a zero step (ZeroDivisionError) or a negative size ceil((stop - start) / step) (negative dimension); otherwise it has that many samples, sample k being start + k·step |
| GeoGrid.ArangeHalfOpen | geotiff_to_map.py:77 | every sample lies strictly before stop, and one more step reaches or passes stop |
| GeoGrid.ArangeWholeSteps | geotiff_to_map.py:77 | an axis spanning count whole steps has exactly count samples |
| GeoGrid.MGrid | geotiff_to_map.py:77 | the two-axis mgrid has shape (2, \|xs\|, \|ys\|); plane 0 repeats xs along rows, plane 1 repeats ys along columns |
| GeoGrid.BuildMesh | geotiff_to_map.py:62-77 | the mesh exists exactly when both resolutions are non-zero, and then has shape (2, width, height) |
| GeoGrid.XAxisSamples | geotiff_to_map.py:68-77 | the x axis has exactly width samples xmin + k·xres, the last being xmax |
| GeoGrid.YAxisSamples | geotiff_to_map.py:70-77 | the y axis starts one step past ymax and has exactly height samples, the row centres originY + yres·(k + 1/2) |
| GeoGrid.MeshIsPixelCentres | geotiff_to_map.py:62-77 | mesh cell (i, j) is the georeferenced centre of the pixel in column i, row j |
| GeoGrid.ProjectionCentre | geotiff_to_map.py:84 | `lon_0` and `lat_0` are the midpoints of the x-pair and of the y-pair, and lie between the two bounds of an ordered pair |
| GeoGrid.ProjectionCentreIsRasterCentre | geotiff_to_map.py:84 | the map centre is the georeferenced centre (width/2, height/2) of the raster |
| GeoGrid.PlotInputs | geotiff_to_map.py:95-98 | plotting fails exactly for a zero resolution (the mesh cannot be built) or an empty raster (the reprojection fails), and the mesh error is reported exactly for the former; the plotted values are the transposed band |
| GeoGrid.PlotInputsShape | geotiff_to_map.py:95-98 | the plotting inputs exist exactly for non-zero resolutions and a non-empty raster; all three arrays are then width×height |
| GeoGrid.PlotInputsPairPixels | geotiff_to_map.py:95-98 | plotting cell (i, j) pairs band pixel (row j, column i) with the transformed centre of that same pixel |
| GeoGrid.FourByFourMesh | geotiff_to_map.py:68-77 | a 4×4 unit raster at (10, 5) has bounds (10.5, 13.5, 0.5, 5.5), last x column 13.5 and y samples 4.5, 3.5, 2.5, 1.5 |
| Digits.DigitCount | msg_to_geotiff.py:52 | the digit count d of n > 0 satisfies 10^(d-1) <= n < 10^d |
| Digits.DigitCountUnique | msg_to_geotiff.py:52 | those bounds determine the digit count |
| Digits.GetDigits | msg_to_geotiff.py:50-57 | positive: the digit count; zero: 1; negative: one more than the digit count of -n |
| Digits.NatToDecimal | msg_to_geotiff.py:49-57 | the reference definition of an integer's decimal digits (Python's `str`), against which `get_digits` is measured: a non-empty string of decimal digits |
| Digits.PyStr | msg_to_geotiff.py:49-57 | `str(n)`, the reference `get_digits` is measured against, is non-empty, starts with `-` exactly for a negative n, and is decimal digits after that sign |
| Digits.GetDigitsIsStrLength | msg_to_geotiff.py:50-57 | `get_digits(n)` equals `len(str(n))` for every integer, sign included |
| Digits.NatToDecimalLength | msg_to_geotiff.py:52 | the decimal string of n > 0 has as many characters as n has digits |
| Digits.ParseInt | msg_to_geotiff.py:62 | `int` of a string succeeds exactly for decimal digits with an optional sign; the value is negative only after a minus sign |
| Digits.ParseNatToDecimal | msg_to_geotiff.py:62 | reading back the decimal string of n gives n |
| Digits.ParseIntPyStr | msg_to_geotiff.py:62 | `int(str(n)) == n` for every integer |
| Digits.ParseIntDigitsBound | msg_to_geotiff.py:62 | a parsed integer never has more digits, sign included, than its string has characters |
| Digits.ParseDigits | msg_to_geotiff.py:62 | the value `int` gives a string of decimal digits is zero exactly when every digit is `0` |
| Digits.ParseDigitsBound | msg_to_geotiff.py:62 | k digits are worth less than 10^k |
| Digits.ParseDigitsHead | msg_to_geotiff.py:62 | the leading digit contributes its value times 10^(k-1) |
| Digits.LeadingNonZero | msg_to_geotiff.py:62 | k digits with a non-zero lead are worth at least 10^(k-1) |
| Digits.LeadingZero | msg_to_geotiff.py:62 | a leading zero does not change the value |
| MsgToGeotiff.DatetimeAccepted | msg_to_geotiff.py:62 | the rule `get_digits(int(s)) == 12`: an accepted argument parses as a non-zero integer and has at least twelve characters |
| MsgToGeotiff.DatetimeAcceptedRange | msg_to_geotiff.py:62 | a datetime is accepted exactly when its value is in [10^11, 10^12 - 1] or [-(10^11 - 1), -10^10] |
| MsgToGeotiff.LongitudeOk | msg_to_geotiff.py:68 | the longitude limit `-180 < v <= 180`: -180 itself is out |
| MsgToGeotiff.LatitudeOk | msg_to_geotiff.py:69 | the latitude limit `-90 <= v <= 90`, symmetric about the equator |
| MsgToGeotiff.ParseArgs | msg_to_geotiff.py:61-81 | argument counts other than 1 or 5 print usage; a non-integer datetime raises; with 1 argument it proceeds exactly for an accepted datetime and no box; with 5 it proceeds exactly for an accepted datetime and a box within limits, kept as given; an accepted datetime with a box out of limits gives the limits message |
| MsgToGeotiff.PySlice | msg_to_geotiff.py:90 | a Python slice never outgrows its string and is the plain slice when in range |
| MsgToGeotiff.DirectoryParts | msg_to_geotiff.py:90 | the three directory parts concatenate to the first eight characters and have lengths 4, 2 and 2, for a datetime of eight or more characters |
| MsgToGeotiff.AcceptedDatetimeHasFullParts | msg_to_geotiff.py:90 | an accepted datetime has at least twelve characters, so the parts are never cut short |
| MsgToGeotiff.ReplaceIodc | msg_to_geotiff.py:100 | the rewrite keeps the length and only turns characters into `_` |
| MsgToGeotiff.ReplaceIodcIsSub | msg_to_geotiff.py:100 | the rewrite is `re.sub`'s result: each character inside an occurrence of `IODC` becomes `_`, every other character is kept |
| MsgToGeotiff.IodcShift | msg_to_geotiff.py:100 | the occurrences of `IODC` in a suffix are those of the whole name, shifted |
| MsgToGeotiff.ReplaceIodcChangesOnlyOccurrences | msg_to_geotiff.py:100 | every changed character lies inside an `IODC` of the original name |
| MsgToGeotiff.ReplaceIodcLeavesNone | msg_to_geotiff.py:100 | no `IODC` remains after the rewrite |
| MsgToGeotiff.NoIodcAtStart | msg_to_geotiff.py:100 | a name not starting with `IODC` cannot gain one at its start when characters only turn into `_` |
| MsgToGeotiff.ReplaceIodcIdentity | msg_to_geotiff.py:100 | a name without `IODC` is left unchanged |
| MsgToGeotiff.ReplaceIodcIdempotent | msg_to_geotiff.py:100 | renaming twice is renaming once |
| MsgToGeotiff.OutputNames | msg_to_geotiff.py:106-107 | the two output names are the datetime followed by `_GEO.tif` and by `_MERC.tif` |
| MsgToGeotiff.OutputNamesDetermineDatetime | msg_to_geotiff.py:106-107 | two datetimes with the same GEO name, or the same MERC name, are equal, and no GEO name is ever a MERC name |
| MsgToGeotiff.TranslateArgv | msg_to_geotiff.py:128-131 | the gdal_translate command has 14 words; the MSG source descriptor holds the datetime, and the output name is last |
| MsgToGeotiff.TranslateArgvOnlyVaries | msg_to_geotiff.py:128-131 | any two translate commands share their first twelve words |
| MsgToGeotiff.WarpArgv | msg_to_geotiff.py:137-144 | the gdalwarp command as written starts `gdalwarp -te`, ends with input and output, and with a box continues left bottom right top |
| MsgToGeotiff.WarpArgvWithoutBoxDanglingTe | msg_to_geotiff.py:141-144 | without a box the bare `-te` is followed by `-te_srs EPSG:4326 -t_srs EPSG:4326` as its four values |
| MsgToGeotiff.WarpArgvCorrected | msg_to_geotiff.py:137-144 | the corrected command starts `gdalwarp` and ends with input and output |
| MsgToGeotiff.WarpArgvCorrectedExtent | msg_to_geotiff.py:137-144 | the corrected command has `-te` among its options exactly when there is a box; with a box it equals the command as written |
| MsgToGeotiff.DatetimeAcceptsNonDates | msg_to_geotiff.py:62 | the check as written accepts "-" followed by eleven digits without a leading zero, and "0" or "+" followed by a valid datetime, none of which is a twelve-digit datetime |
| MsgToGeotiff.DatetimeRejectsNegativeLeadingZero | msg_to_geotiff.py:62 | a minus sign followed by eleven digits with a leading zero is rejected: its value has only ten digits |
| MsgToGeotiff.DatetimeAcceptedStrictMeaning | msg_to_geotiff.py:62 | the intended check accepts exactly twelve digits without a leading zero, and its directory parts are then four, two and two digits |
| MsgToGeotiff.LeadingZeroBound | msg_to_geotiff.py:62 | twelve digits with a leading zero are worth less than 10^11 |
| MsgToGeotiff.LeadingDigitBound | msg_to_geotiff.py:62 | twelve digits with a non-zero lead are worth at least 10^11 |
| GpsRead.Word | gps_read.py:34 | the first word of a string holds no whitespace |
| GpsRead.WordBeforeSpace | gps_read.py:34 | a word followed by whitespace or the end is read back as that word |
| GpsRead.Split | gps_read.py:34 | `str.split()` gives non-empty words with no whitespace in them |
| GpsRead.SplitIsScan | gps_read.py:34 | `str.split()` gives exactly the tokens of a left-to-right scanner that closes a token at each run of whitespace and at the end |
| GpsRead.SplitEmptyIffBlank | gps_read.py:34 | `str.split()` gives no token exactly when the string is all whitespace |
| GpsRead.SplitWordThenSpace | gps_read.py:34 | a word followed by whitespace splits into that word, then the split of the rest |
| GpsRead.CommentMatch | gps_read.py:32 | `re.search(r"^#.*$", line)` without MULTILINE: a `#` at the start, then no newline up to the end or up to a final newline, where `$` also matches |
| GpsRead.CommentIffHash | gps_read.py:32 | for a completed line, the pattern `^#.*$` matches exactly when the line starts with `#` |
| GpsRead.HasFix | gps_read.py:25 | the stop test: both latitude and longitude are non-zero, so a fix differs from the initial state's zero position in both coordinates |
| GpsRead.ProcessLine | gps_read.py:31-43 | handling a completed line leaves the pending text and the count alone; the echo list grows only for a comment, by the line without its `#`; whether there is a fix can change only for a non-comment line of four tokens |
| GpsRead.Step | gps_read.py:28-46 | one character: the count grows by one exactly on a newline, which empties the pending line; any other character is appended to it, with no echo and no change to whether there is a fix; echoes are only ever appended |
| GpsRead.Feed | gps_read.py:24-46 | reading never lowers the line count and only appends to the echoed comments |
| GpsRead.FeedAppend | gps_read.py:24-46 | reading a + b is reading a, then b |
| GpsRead.FeedCountsLines | gps_read.py:45 | the line count grows by one per newline read, comment or not |
| GpsRead.FeedAccumulates | gps_read.py:28-29 | characters without a newline are only appended to the pending line |
| GpsRead.FeedCompletesLine | gps_read.py:28-45 | a newline completes the pending characters into a line, which is handled; the pending line is then cleared and the count grows by one |
| GpsRead.FeedKeepsPendingNewlineFree | gps_read.py:28-46 | the pending line never holds a newline: each newline read completes it |
| GpsRead.CompletedLineIsFramed | gps_read.py:28-33 | after any input read from the start, the line the next newline completes ends with its only newline, so the comment pattern matches exactly when it starts with `#` |
| GpsRead.CommentKeepsFix | gps_read.py:32-43 | a comment line is echoed without its `#` and leaves the fix alone |
| GpsRead.OtherLinesKeepState | gps_read.py:33-39 | a non-comment line sets the fix exactly when it has four tokens starting with `G`; any other line changes nothing |
| GpsRead.FixLineTokens | gps_read.py:34 | `G n lat lon` with its newline splits into the four tokens |
| GpsRead.FixLineSetsFix | gps_read.py:34-39 | a fix line sets the satellite count, latitude and longitude from its tokens |
| GpsRead.Run | gps_read.py:24-28 | the loop reads a prefix of the input; it stops early only with a usable fix; no shorter prefix gave one |
| GpsRead.ZeroCoordinateKeepsReading | gps_read.py:25-26 | a fix with a zero coordinate does not stop the loop |

## Left out

- Input and output are left out: file and dataset opening, `ReadAsArray` and
  `GetGeoTransform` (passed in as values), `glob`, `os.makedirs`, `os.rename`,
  `os.remove`, the `PROJ_LIB` environment juggling, `subprocess.call` and its
  exit codes, the serial port, Basemap drawing, the Excel route, and saving
  images. The model builds the values handed to these calls (directory parts,
  new file names, argument vectors, plotting arrays) and stops there.
- The coordinate transformation of OSR and Basemap's projection string are
  the parameter `t`. The centre handed to Basemap is modelled, the projection
  is not.
- Floating point is left out. All coordinate arithmetic is exact `real`, and
  `math.log10` is taken as exact. Rounding at the ends of an mgrid axis (an
  extra or missing sample from inexact `ceil`) is not modelled.
- Reading numbers out of text is left out. `float(token)` and `int(float(token))`
  in the GPS reader, and the numeric value of a bounding-box argument, are the
  parameters `coord`, `sats` and `num`.
- Digits.ParseInt: accepts only an optional sign followed by ASCII digits.
  Python's `int` also allows surrounding whitespace, underscores between digits
  and non-ASCII digits.
- MsgToGeotiff.ParseArgs: compares the numeric value of each box argument with
  the limits. As written, the script compares the raw argument strings with
  integers, which depends on the Python version: Python 2 orders every string
  above every number, and Python 3 raises `TypeError`. The intended numeric
  check is the one modelled.
- MsgToGeotiff.DirectoryParts: gives the three path components. It leaves out
  `os.path.join` with the working directory.
- Console output is left out, except the echo of comment lines in the GPS
  reader. The version banner that msg_to_geotiff.py prints on every run
  (msg_to_geotiff.py:16) is not modelled. The usage and limits messages are
  represented by the outcome constructors `Usage` and `OutOfLimits`;
  `NotAnInteger` stands for the `ValueError` that `int(argv[1])` raises, not a
  message.
- GpsRead.Step: reads characters, as iterating a Python 2 `str` from
  `ser.read()` does. Under Python 3, `ser.read()` returns `bytes`, iterating it
  gives integers, `c == '\n'` (gps_read.py:30) never holds, and no line is
  ever completed; that behaviour is not modelled.
- GpsRead.ProcessLine: `sats` and `coord` are total. In the script,
  `int(float(...))` and `float(...)` (gps_read.py:37-39) raise `ValueError`
  on a non-numeric token of a `G` line, which ends the script; the model lets
  the loop go on.
- The multi-band `data[0, :, :]` is given directly as the first band. The case
  of a single-band raster, where `ReadAsArray` returns a 2-D array and that
  indexing fails, is not modelled.
- Multi-band gamma correction and compositing are not modelled: no modelled
  file contains them.
- The y-bounds are kept as geotiff_to_map.py computes them. For a 4×4 raster
  at origin (10, 5) with unit pixels they are ymin = 0.5 and ymax = 5.5, half a
  pixel outside the raster (`GeoGrid.FourByFourMesh`). The mesh itself still
  lands on the row centres (`GeoGrid.YAxisSamples`).

## Findings

| source | as written | input that shows it | evidently intended | confidence | as-written member | corrected member |
|---|---|---|---|---|---|---|
| msg_to_geotiff.py:141-144 | without a bounding box, gdalwarp still gets `-te`, followed directly by `-te_srs EPSG:4326 -t_srs EPSG:4326` | `msg_to_geotiff.py 201901011200` (one argument) | leave out `-te` when no extent is given | high (not executed) | MsgToGeotiff.WarpArgvWithoutBoxDanglingTe | MsgToGeotiff.WarpArgvCorrectedExtent |
| msg_to_geotiff.py:62 | a datetime is accepted when `get_digits(int(s)) == 12`, which admits a minus sign with eleven digits without a leading zero, leading zeros and a plus sign | `-20190101120`, `0201901011200`, `+201901011200` | exactly twelve digits, YYYYMMDDhhmm | high (not executed) | MsgToGeotiff.DatetimeAcceptsNonDates | MsgToGeotiff.DatetimeAcceptedStrictMeaning |
