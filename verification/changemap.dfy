/** The change-map object: a small state machine whose setters validate their
    input and invalidate the cached calibration, and whose line query
    recalibrates only when the cache is stale and builds the per-line record
    of coordinates and change coefficients. */
module ChangeMapObject {
  import opened Common
  import opened ChangeMapTypes
  import opened Ratio

  /** The NaN substitute a new map starts with. */
  const NAN_VAL: real := 0.0

  /** Ridge data, pre image and post image are all set. */
  predicate Ready(m: ChangeMap) {
    m.ridges.Some? && m.pre.Some? && m.post.Some?
  }

  /** The calibration inputs of a ready map. */
  function SceneOf(m: ChangeMap): Scene
    requires Ready(m) && m.height >= 0 && m.width >= 0
  {
    Scene(m.pre.value, m.post.value, m.nanVal, m.height, m.width)
  }

  /** The map invariant: once ridge data is set the image size is known, and
      a cached calibration is never stale, i.e. it equals what calibrating
      the current inputs from scratch yields. */
  predicate Valid(m: ChangeMap) {
    && (m.ridges.Some? ==> m.height >= 0 && m.width >= 0)
    && (m.calibration.Some? ==>
          && Ready(m) && m.height >= 0 && m.width >= 0
          && Calibration(SceneOf(m)) == Success(m.calibration.value))
  }

  /** change_map_new: nothing set, size unknown (-1), calibration stale. */
  function ChangeMapNew(): (m: ChangeMap)
    ensures Valid(m)
    ensures m.ridges.None? && m.pre.None? && m.post.None?
    ensures m.calibration.None? && m.nanVal == NAN_VAL
    ensures m.height == -1 && m.width == -1
  {
    ChangeMap(None, None, None, NAN_VAL, -1, -1, None)
  }

  /** change_map_set_ridge_data: only line data carrying both image-size keys
      is accepted; its size becomes the map's height and width. */
  function SetRidgeData(m: ChangeMap, data: RidgeData): (r: Result<ChangeMap, Error>)
    requires Valid(m)
    ensures r.Success? <==> data.kind == LineData && data.imageRows.Some? && data.imageCols.Some?
    ensures data.kind != LineData ==> r == Failure(NotLineData)
    ensures data.kind == LineData && (data.imageRows.None? || data.imageCols.None?) ==>
      r == Failure(MissingImageSize)
    ensures r.Success? ==> Valid(r.value)
    ensures r.Success? ==>
      && r.value.ridges == Some(data)
      && r.value.height == data.imageRows.value && r.value.width == data.imageCols.value
      && r.value.calibration.None?
      && r.value.pre == m.pre && r.value.post == m.post && r.value.nanVal == m.nanVal
  {
    if data.kind != LineData then Failure(NotLineData)
    else if data.imageRows.None? || data.imageCols.None? then Failure(MissingImageSize)
    else Success(m.(ridges := Some(data),
                    height := data.imageRows.value,
                    width := data.imageCols.value,
                    calibration := None))
  }

  /** change_map_set_pre_image: the raster must match the recorded size. */
  function SetPreImage(m: ChangeMap, pre: Raster): (r: Result<ChangeMap, Error>)
    requires Valid(m)
    ensures r.Success? <==> pre.rows == m.height && pre.cols == m.width
    ensures r.Failure? ==> r.error == ImageSizeMismatch
    ensures r.Success? ==> Valid(r.value)
    ensures r.Success? ==>
      && r.value.pre == Some(pre) && r.value.calibration.None?
      && r.value.ridges == m.ridges && r.value.post == m.post && r.value.nanVal == m.nanVal
      && r.value.height == m.height && r.value.width == m.width
  {
    if pre.rows != m.height || pre.cols != m.width then Failure(ImageSizeMismatch)
    else Success(m.(pre := Some(pre), calibration := None))
  }

  /** change_map_set_post_image: the raster must match the recorded size. */
  function SetPostImage(m: ChangeMap, post: Raster): (r: Result<ChangeMap, Error>)
    requires Valid(m)
    ensures r.Success? <==> post.rows == m.height && post.cols == m.width
    ensures r.Failure? ==> r.error == ImageSizeMismatch
    ensures r.Success? ==> Valid(r.value)
    ensures r.Success? ==>
      && r.value.post == Some(post) && r.value.calibration.None?
      && r.value.ridges == m.ridges && r.value.pre == m.pre && r.value.nanVal == m.nanVal
      && r.value.height == m.height && r.value.width == m.width
  {
    if post.rows != m.height || post.cols != m.width then Failure(ImageSizeMismatch)
    else Success(m.(post := Some(post), calibration := None))
  }

  /** change_map_set_nan: re-setting the current value changes nothing (and
      keeps the calibration); any other value must be normal, i.e. non-zero,
      and invalidates the calibration. */
  function SetNan(m: ChangeMap, v: real): (r: Result<ChangeMap, Error>)
    requires Valid(m)
    ensures v == m.nanVal ==> r == Success(m)
    ensures r.Failure? <==> v != m.nanVal && v == 0.0
    ensures r.Failure? ==> r.error == InvalidNanValue
    ensures r.Success? ==> Valid(r.value) && r.value.nanVal == v
    ensures r.Success? && v != m.nanVal ==>
      && r.value.calibration.None?
      && r.value.ridges == m.ridges && r.value.pre == m.pre && r.value.post == m.post
      && r.value.height == m.height && r.value.width == m.width
  {
    if v == m.nanVal then Success(m)
    else if v == 0.0 then Failure(InvalidNanValue)
    else Success(m.(nanVal := v, calibration := None))
  }

  /** The coordinate arrays of a line record have n_segments + 1 entries. */
  predicate CoordsValid(l: ChangeMapLine) {
    |l.rowCoords| == l.nSegments + 1 && |l.colCoords| == l.nSegments + 1
  }

  /** change_map_line_get_pixel: the representative pixel of a segment is the
      sum of its endpoints' fixed-point coordinates shifted right by 8. The
      sum is taken in 64 bits, so two 32-bit coordinates cannot overflow it,
      and the shifted value fits an int. The result is the floor of the
      endpoints' midpoint in pixel units (fixed point scaled by 128). */
  function GetPixel(l: ChangeMapLine, segment: nat): (p: Pixel)
    requires CoordsValid(l) && segment < l.nSegments
    ensures p.row as real <=
        (l.rowCoords[segment] as int + l.rowCoords[segment + 1]) as real / 256.0
    ensures (l.rowCoords[segment] as int + l.rowCoords[segment + 1]) as real / 256.0
        < p.row as real + 1.0
    ensures p.col as real <=
        (l.colCoords[segment] as int + l.colCoords[segment + 1]) as real / 256.0
    ensures (l.colCoords[segment] as int + l.colCoords[segment + 1]) as real / 256.0
        < p.col as real + 1.0
  {
    var rowSum: nat := l.rowCoords[segment] as int + l.rowCoords[segment + 1];
    var colSum: nat := l.colCoords[segment] as int + l.colCoords[segment + 1];
    ShiftIsFloor(rowSum);
    ShiftIsFloor(colSum);
    Pixel(rowSum / 256, colSum / 256)
  }

  /** `n >> 8` on a non-negative integer is the floor of n / 256. */
  lemma ShiftIsFloor(n: nat)
    ensures (n / 256) as real <= n as real / 256.0 < (n / 256) as real + 1.0
  {
    var q := n / 256;
    var rem := n % 256;
    assert n == 256 * q + rem && 0 <= rem < 256;
    assert n as real == 256.0 * q as real + rem as real;
  }

  /** Segments whose endpoints both lie inside the image (fixed-point
      coordinates below 128 * size) have their pixel inside the image. */
  lemma {:induction false} PixelInsideImage(l: ChangeMapLine, segment: nat, h: nat, w: nat)
    requires CoordsValid(l) && segment < l.nSegments
    requires l.rowCoords[segment] < 128 * h && l.rowCoords[segment + 1] < 128 * h
    requires l.colCoords[segment] < 128 * w && l.colCoords[segment + 1] < 128 * w
    ensures GetPixel(l, segment).row < h && GetPixel(l, segment).col < w
  {
    var p := GetPixel(l, segment);
    assert l.rowCoords[segment] as int + l.rowCoords[segment + 1] < 256 * h;
    assert l.colCoords[segment] as int + l.colCoords[segment + 1] < 256 * w;
  }

  /** The record's coordinate arrays: both coordinates of every point,
      copied in order. */
  function CopyCoords(line: Line): (l: ChangeMapLine)
    requires |line| >= 1
    ensures CoordsValid(l) && l.nSegments == |line| - 1 && l.change == []
    ensures forall k :: 0 <= k < |line| ==>
        l.rowCoords[k] == line[k].row && l.colCoords[k] == line[k].col
  {
    ChangeMapLine(|line| - 1,
                  seq(|line|, k requires 0 <= k < |line| => line[k].row),
                  seq(|line|, k requires 0 <= k < |line| => line[k].col),
                  [])
  }

  /** Every segment pixel of a record lies inside an h x w image. */
  predicate PixelsInImage(l: ChangeMapLine, h: int, w: int)
    requires CoordsValid(l)
  {
    forall k :: 0 <= k < l.nSegments ==> GetPixel(l, k).row < h && GetPixel(l, k).col < w
  }

  /** A line whose points all lie inside an h x w image (fixed-point
      coordinates below 128 * size) has every segment pixel inside it, so the
      pixel checks of change_map_get_line pass for it. */
  lemma PointsInsideImage(line: Line, h: nat, w: nat)
    requires |line| >= 1
    requires forall k :: 0 <= k < |line| ==> line[k].row < 128 * h && line[k].col < 128 * w
    ensures PixelsInImage(CopyCoords(line), h, w)
  {
    var l := CopyCoords(line);
    forall k | 0 <= k < l.nSegments
      ensures GetPixel(l, k).row < h && GetPixel(l, k).col < w
    {
      PixelInsideImage(l, k, h, w);
    }
  }

  /** The square ratio at a segment's pixel, which a successful calibration
      guarantees to be defined and positive. */
  function SegmentRatio(s: Scene, l: ChangeMapLine, k: nat): (r: real)
    requires FitsRasters(s) && RatiosDefined(s)
    requires CoordsValid(l) && k < l.nSegments && PixelsInImage(l, s.height, s.width)
    ensures r > 0.0
  {
    var p := GetPixel(l, k);
    DefinedRatio(s, p.row, p.col)
  }

  /** The reference per-line record: n_segments = Np - 1, the coordinates
      copied point for point, and one change coefficient per segment computed
      at the segment's pixel against the calibration. */
  function LineRecord(s: Scene, cal: real, line: Line): (l: ChangeMapLine)
    requires FitsRasters(s) && RatiosDefined(s) && cal > 0.0
    requires |line| >= 1 && PixelsInImage(CopyCoords(line), s.height, s.width)
    ensures l.Valid() && CoordsValid(l) && l.nSegments == |line| - 1
    ensures forall k :: 0 <= k < |line| ==>
        l.rowCoords[k] == line[k].row && l.colCoords[k] == line[k].col
    ensures PixelsInImage(l, s.height, s.width)
    ensures forall k :: 0 <= k < l.nSegments ==> l.change[k] < 1.0
    ensures forall k :: 0 <= k < l.nSegments ==>
      (l.change[k] == 0.0 <==> SegmentRatio(s, l, k) == cal)
  {
    var c := CopyCoords(line);
    var l := c.(change := seq(c.nSegments, k requires 0 <= k < c.nSegments =>
                              ChangeCoefficient(cal, SegmentRatio(s, c, k))));
    assert forall k :: 0 <= k < l.nSegments ==> GetPixel(l, k) == GetPixel(c, k);
    assert forall k :: 0 <= k < l.nSegments ==> SegmentRatio(s, l, k) == SegmentRatio(s, c, k);
    l
  }

  /** The calibration a line query works with: the cached value when there
      is one, otherwise a computed calibration. */
  function CurrentCalibration(m: ChangeMap): (r: Result<real, Error>)
    requires Valid(m) && Ready(m)
    ensures r == Calibration(SceneOf(m))
    ensures m.calibration.Some? ==> r == Success(m.calibration.value)
  {
    if m.calibration.Some? then Success(m.calibration.value) else Calibration(SceneOf(m))
  }

  /** The reference outcome of change_map_get_line: the abort conditions in
      the order the C code meets them, then the map with its calibration
      cached and the line record. */
  function GetLineSpec(m: ChangeMap, index: nat): (r: Result<(ChangeMap, ChangeMapLine), Error>)
    requires Valid(m)
    ensures !Ready(m) ==> r == Failure(NotReady)
    ensures Ready(m) && index >= |m.ridges.value.lines| ==> r == Failure(IndexOutOfRange)
    ensures r.Success? <==>
      && Ready(m) && index < |m.ridges.value.lines|
      && Calibration(SceneOf(m)).Success?
      && |m.ridges.value.lines[index]| >= 1
      && PixelsInImage(CopyCoords(m.ridges.value.lines[index]), m.height, m.width)
    ensures r.Success? ==>
      && Valid(r.value.0)
      && r.value.0 == m.(calibration := Some(Calibration(SceneOf(m)).value))
      && (m.calibration.Some? ==> r.value.0 == m)
      && r.value.1 ==
          LineRecord(SceneOf(m), Calibration(SceneOf(m)).value, m.ridges.value.lines[index])
  {
    if !Ready(m) then Failure(NotReady)
    else if index >= |m.ridges.value.lines| then Failure(IndexOutOfRange)
    else
      var cal :- CurrentCalibration(m);
      var line := m.ridges.value.lines[index];
      if |line| == 0 then Failure(EmptyLine)
      else if !PixelsInImage(CopyCoords(line), m.height, m.width) then Failure(PixelOutOfRange)
      else Success((m.(calibration := Some(cal)), LineRecord(SceneOf(m), cal, line)))
  }

  /** change_map_get_line as the C code runs it: check the preconditions,
      recalibrate only when the cache is stale, copy the coordinates, then
      compute one change coefficient per segment, checking each segment's
      pixel against the image size. */
  method GetLine(m: ChangeMap, index: nat) returns (r: Result<(ChangeMap, ChangeMapLine), Error>)
    requires Valid(m)
    ensures r == GetLineSpec(m, index)
  {
    if !Ready(m) {
      return Failure(NotReady);
    }
    var lines := m.ridges.value.lines;
    if index >= |lines| {
      return Failure(IndexOutOfRange);
    }
    var m' := m;
    if m.calibration.None? {
      var computed := Recalibrate(SceneOf(m));
      if computed.Failure? {
        return Failure(computed.error);
      }
      m' := m.(calibration := Some(computed.value));
    }
    var cal := m'.calibration.value;
    var scene := SceneOf(m);
    assert Calibration(scene) == Success(cal);
    var line := lines[index];
    if |line| == 0 {
      return Failure(EmptyLine);
    }
    var coords := CopyLine(line);
    var change := SegmentChanges(scene, cal, coords);
    if change.Failure? {
      return Failure(PixelOutOfRange);
    }
    assert LineRecord(scene, cal, line).change == change.value;
    return Success((m', coords.(change := change.value)));
  }

  /** The coordinate copy of change_map_get_line: n_segments = Np - 1 and
      each point's row and column, in order. */
  method CopyLine(line: Line) returns (coords: ChangeMapLine)
    requires |line| >= 1
    ensures coords == CopyCoords(line)
  {
    var rows: seq<U32> := [];
    var cols: seq<U32> := [];
    var i := 0;
    while i < |line|
      invariant 0 <= i <= |line|
      invariant |rows| == i && |cols| == i
      invariant forall k :: 0 <= k < i ==> rows[k] == line[k].row && cols[k] == line[k].col
    {
      rows := rows + [line[i].row];
      cols := cols + [line[i].col];
      i := i + 1;
    }
    coords := ChangeMapLine(|line| - 1, rows, cols, []);
  }

  /** The segment loop of change_map_get_line: each segment's pixel must lie
      inside the image, and its change coefficient is computed from the
      square ratio there. */
  method SegmentChanges(s: Scene, cal: real, l: ChangeMapLine) returns (r: Result<seq<real>, Error>)
    requires FitsRasters(s) && RatiosDefined(s) && cal > 0.0 && CoordsValid(l)
    ensures r.Failure? <==> !PixelsInImage(l, s.height, s.width)
    ensures r.Failure? ==> r.error == PixelOutOfRange
    ensures r.Success? ==>
      && |r.value| == l.nSegments
      && forall k :: 0 <= k < l.nSegments ==>
          r.value[k] == ChangeCoefficient(cal, SegmentRatio(s, l, k))
  {
    var change: seq<real> := [];
    var k := 0;
    while k < l.nSegments
      invariant 0 <= k <= l.nSegments
      invariant forall j :: 0 <= j < k ==>
          GetPixel(l, j).row < s.height && GetPixel(l, j).col < s.width
      invariant |change| == k
      invariant forall j :: 0 <= j < k ==>
        change[j] == ChangeCoefficient(cal, DefinedRatio(s, GetPixel(l, j).row, GetPixel(l, j).col))
    {
      var p := GetPixel(l, k);
      if p.row >= s.height || p.col >= s.width {
        return Failure(PixelOutOfRange);
      }
      var q := PixelRatio(s, p.row, p.col);
      assert q == Success(DefinedRatio(s, p.row, p.col));
      change := change + [ChangeCoefficient(cal, q.value)];
      k := k + 1;
    }
    return Success(change);
  }
}
