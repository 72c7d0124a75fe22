/** The data declarations of the change-map tool: the ridge data set and the
    rasters it consumes, the ChangeMap state record, the per-line record it
    produces, and the output options. */
module ChangeMapTypes {
  import opened Common

  /** One ridge point. Coordinates are fixed point: the pixel coordinate
      scaled by 128. */
  datatype Point = Point(row: U32, col: U32)

  /** A ridge line is an ordered sequence of points. */
  type Line = seq<Point>

  /** The kind tag of a ridge data set; only line data is usable. */
  datatype DataKind = LineData | OtherData

  /** A loaded ridge data set with its optional metadata: the image size and
      one classification label per line. */
  datatype RidgeData = RidgeData(
    kind: DataKind,
    imageRows: Option<U32>,
    imageCols: Option<U32>,
    lines: seq<Line>,
    classification: Option<seq<U8>>)

  /** A 32-bit float raster sample: a finite value, or NaN/infinity. */
  datatype Sample = Finite(v: real) | NonFinite

  datatype Surface = Surface(rows: nat, cols: nat, samples: seq<seq<Sample>>) {
    /** The sample grid has exactly `rows` rows of `cols` samples. */
    predicate Valid() {
      && |samples| == rows
      && forall i :: 0 <= i < |samples| ==> |samples[i]| == cols
    }
  }

  /** A single-channel float raster whose grid matches its declared size. */
  type Raster = s: Surface | s.Valid() witness Surface(0, 0, [])

  /** The change-map object. The ridge data, the two rasters and the NaN
      substitute are set by the user; height, width and the calibration cache
      are generated internally. A `None` calibration stands for the NaN that
      marks the cache as stale. */
  datatype ChangeMap = ChangeMap(
    ridges: Option<RidgeData>,
    pre: Option<Raster>,
    post: Option<Raster>,
    nanVal: real,
    height: int,
    width: int,
    calibration: Option<real>)

  /** A pixel position (row, column) in the image. */
  datatype Pixel = Pixel(row: nat, col: nat)

  /** The record built for one ridge line: n_segments, the two coordinate
      arrays (rows, then columns) and one change coefficient per segment. */
  datatype ChangeMapLine = ChangeMapLine(
    nSegments: nat,
    rowCoords: seq<U32>,
    colCoords: seq<U32>,
    change: seq<real>) {
    /** Each coordinate array has n_segments + 1 entries and there is one
        change value per segment. */
    predicate Valid() {
      && |rowCoords| == nSegments + 1
      && |colCoords| == nSegments + 1
      && |change| == nSegments
    }
  }

  /** The output file format; FormatNone means "not yet determined". */
  datatype OutputFormat = FormatNone | FormatPdf | FormatPng

  datatype OutputOptions = OutputOptions(
    filename: string,
    format: OutputFormat,
    height: nat,
    width: nat)

  /** The conditions on which the C code aborts (g_assert, g_error) or exits,
      as typed errors. */
  datatype Error =
    | NotLineData          // ridge data is not of line type
    | MissingImageSize     // ridge data lacks image rows/cols metadata
    | ImageSizeMismatch    // a raster does not match the recorded size
    | InvalidNanValue      // NaN substitute is not a normal number
    | NotReady             // ridge data, pre or post image not set
    | IndexOutOfRange      // line index beyond the number of entries
    | EmptyLine            // a line with no points
    | PixelOutOfRange      // a segment pixel outside the image
    | RatioNotPositive     // a square ratio that is zero or undefined
    | CalibrationNotNormal // the calibration mean is not a normal number
    | ChangeNotNormal      // a change coefficient that is not normal
    | UnknownFormat        // an exporter was handed FormatNone
}
