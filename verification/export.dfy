/** The two renderers: export_ridge_lines strokes every ridge segment in its
    damage colour over a background paint; export_ridge_mask writes each
    segment's colour straight into the pixel its midpoint falls in. Drawing
    is modelled as the list of operations issued (lines) or as the final
    pixel buffer (mask); file output is left out. */
module Export {
  import opened Common
  import opened ChangeMapTypes
  import opened Ratio
  import opened ChangeMapObject
  import opened Palette
  import opened PixelBuffer

  /** A point in device space (pixels, fractional). */
  datatype DevicePoint = DevicePoint(x: real, y: real)

  /** convert_coords: a stored point in device space; x comes from the
      column, y from the row, both descaled from fixed point. */
  function ConvertCoords(l: ChangeMapLine, idx: nat): (p: DevicePoint)
    requires CoordsValid(l) && idx <= l.nSegments
    ensures p.x * 128.0 == l.colCoords[idx] as real
    ensures p.y * 128.0 == l.rowCoords[idx] as real
  {
    DevicePoint(l.colCoords[idx] as real / 128.0, l.rowCoords[idx] as real / 128.0)
  }

  /** The pixel a segment is sampled at is the pixel the midpoint of its
      drawn stroke falls in. */
  lemma PixelIsFloorOfMidpoint(l: ChangeMapLine, segment: nat)
    requires CoordsValid(l) && segment < l.nSegments
    ensures GetPixel(l, segment).row ==
        ((ConvertCoords(l, segment).y + ConvertCoords(l, segment + 1).y) / 2.0).Floor
    ensures GetPixel(l, segment).col ==
        ((ConvertCoords(l, segment).x + ConvertCoords(l, segment + 1).x) / 2.0).Floor
  {
    var a := ConvertCoords(l, segment);
    var b := ConvertCoords(l, segment + 1);
    assert (a.y + b.y) / 2.0 ==
        (l.rowCoords[segment] as int + l.rowCoords[segment + 1]) as real / 256.0;
    assert (a.x + b.x) / 2.0 ==
        (l.colCoords[segment] as int + l.colCoords[segment + 1]) as real / 256.0;
  }

  /** A record the renderers can colour: coordinates and one change value
      below 1 per segment, as change_map_get_line produces. */
  predicate Drawable(l: ChangeMapLine) {
    && CoordsValid(l)
    && |l.change| == l.nSegments
    && forall k :: 0 <= k < l.nSegments ==> l.change[k] < 1.0
  }

  /** The colour set_damage_colour selects for a change value below 1; the
      table's last stop is 1, so the colour is always defined. */
  function SegmentColour(d: real): (c: Rgb)
    requires d < 1.0
    ensures DamageColour(PALETTE, d) == Some(c)
    ensures InUnit(c)
  {
    PaletteWellFormed();
    DamageColour(PALETTE, d).value
  }

  /** The colour set_background_colour selects. */
  function BackgroundRgb(): (c: Rgb)
    ensures c == ToUnit(Rgb8(255, 255, 255)) && InUnit(c)
  {
    PaletteWellFormed();
    assert PALETTE[4].v.None?;
    BackgroundColour(PALETTE)
  }

  /** A drawing operation: a full-surface paint, or one stroked segment. */
  datatype DrawOp = Paint(colour: Rgb) | Stroke(colour: Rgb, from: DevicePoint, to: DevicePoint)

  /** The damage colour of each segment of a record. */
  function LineColours(l: ChangeMapLine): (cs: seq<Rgb>)
    requires Drawable(l)
    ensures |cs| == l.nSegments
    ensures forall k :: 0 <= k < l.nSegments ==>
      DamageColour(PALETTE, l.change[k]) == Some(cs[k]) && InUnit(cs[k])
  {
    seq(l.nSegments, k requires 0 <= k < l.nSegments => SegmentColour(l.change[k]))
  }

  /** One stroke per segment of a record, in order, from its first point to
      its second, in the given colours. */
  function StrokesOf(l: ChangeMapLine, cs: seq<Rgb>): seq<DrawOp>
    requires CoordsValid(l) && |cs| == l.nSegments
  {
    seq(l.nSegments, k requires 0 <= k < l.nSegments =>
      Stroke(cs[k], ConvertCoords(l, k), ConvertCoords(l, k + 1)))
  }

  /** The strokes for one record, each in its segment's damage colour. */
  function LineStrokes(l: ChangeMapLine): seq<DrawOp>
    requires Drawable(l)
  {
    StrokesOf(l, LineColours(l))
  }

  /** The strokes for a list of records, record after record. */
  function AllStrokes(ls: seq<ChangeMapLine>): seq<DrawOp>
    requires forall i :: 0 <= i < |ls| ==> Drawable(ls[i])
  {
    if ls == [] then [] else AllStrokes(ls[..|ls| - 1]) + LineStrokes(ls[|ls| - 1])
  }

  function TotalSegments(ls: seq<ChangeMapLine>): nat {
    if ls == [] then 0 else TotalSegments(ls[..|ls| - 1]) + ls[|ls| - 1].nSegments
  }

  /** One stroke per segment, every one a stroke in a colour inside the
      unit cube. */
  lemma {:induction false} AllStrokesShape(ls: seq<ChangeMapLine>)
    requires forall i :: 0 <= i < |ls| ==> Drawable(ls[i])
    ensures |AllStrokes(ls)| == TotalSegments(ls)
    ensures forall j :: 0 <= j < |AllStrokes(ls)| ==>
      AllStrokes(ls)[j].Stroke? && InUnit(AllStrokes(ls)[j].colour)
  {
    if ls != [] {
      AllStrokesShape(ls[..|ls| - 1]);
    }
  }

  /** A line of the ridge data that change_map_get_line accepts: it has a
      point, and every segment pixel lies inside the image. */
  predicate LineAccepted(m: ChangeMap, line: Line) {
    |line| >= 1 && PixelsInImage(CopyCoords(line), m.height, m.width)
  }

  /** The condition under which every change_map_get_line call of an
      exporter succeeds: no line at all, or a ready map whose calibration
      is defined and whose every line is non-empty with all its segment
      pixels inside the image. */
  predicate Exportable(m: ChangeMap)
    requires Valid(m) && m.ridges.Some?
  {
    var lines := m.ridges.value.lines;
    |lines| == 0 ||
    (&& Ready(m)
     && Calibration(SceneOf(m)).Success?
     && forall i :: 0 <= i < |lines| ==> LineAccepted(m, lines[i]))
  }

  /** The records change_map_get_line returns for the first n lines. */
  function Records(m: ChangeMap, cal: real, n: nat): (ls: seq<ChangeMapLine>)
    requires Valid(m) && Ready(m) && Calibration(SceneOf(m)) == Success(cal)
    requires n <= |m.ridges.value.lines|
    requires forall i :: 0 <= i < n ==> LineAccepted(m, m.ridges.value.lines[i])
    ensures |ls| == n
    ensures forall i :: 0 <= i < n ==> ls[i] == Record(m, cal, m.ridges.value.lines[i])
    ensures forall i :: 0 <= i < n ==> Drawable(ls[i])
  {
    seq(n, i requires 0 <= i < n => Record(m, cal, m.ridges.value.lines[i]))
  }

  /** The record change_map_get_line builds for an accepted line. */
  function Record(m: ChangeMap, cal: real, line: Line): (l: ChangeMapLine)
    requires Valid(m) && Ready(m) && Calibration(SceneOf(m)) == Success(cal)
    requires LineAccepted(m, line)
    ensures Drawable(l) && l == LineRecord(SceneOf(m), cal, line)
  {
    LineRecord(SceneOf(m), cal, line)
  }

  /** All the records an exporter obtains from a map it can export. */
  function AllRecords(m: ChangeMap): (ls: seq<ChangeMapLine>)
    requires Valid(m) && m.ridges.Some? && Exportable(m)
    ensures |ls| == |m.ridges.value.lines|
    ensures forall i :: 0 <= i < |ls| ==> Drawable(ls[i])
  {
    if |m.ridges.value.lines| == 0 then []
    else Records(m, Calibration(SceneOf(m)).value, |m.ridges.value.lines|)
  }

  /** The map after an exporter's queries: the calibration is cached once
      the first line has been fetched. */
  function ExportedMap(m: ChangeMap): (m': ChangeMap)
    requires Valid(m) && m.ridges.Some? && Exportable(m)
    ensures Valid(m')
    ensures |m.ridges.value.lines| == 0 ==> m' == m
    ensures |m.ridges.value.lines| > 0 ==>
        m' == m.(calibration := Some(Calibration(SceneOf(m)).value))
  {
    if |m.ridges.value.lines| == 0 then m
    else m.(calibration := Some(Calibration(SceneOf(m)).value))
  }

  /** The first i line queries of an exporter all succeed. */
  predicate FetchedUpTo(m: ChangeMap, i: nat)
    requires Valid(m) && m.ridges.Some? && i <= |m.ridges.value.lines|
  {
    && Ready(m)
    && Calibration(SceneOf(m)).Success?
    && forall j :: 0 <= j < i ==> LineAccepted(m, m.ridges.value.lines[j])
  }

  /** The map after the first i line queries succeeded: the calibration is
      cached from the first query on. */
  function MapAfter(m: ChangeMap, i: nat): (m': ChangeMap)
    requires Valid(m) && m.ridges.Some? && i <= |m.ridges.value.lines|
    requires i == 0 || FetchedUpTo(m, i)
    ensures Valid(m') && m'.ridges == m.ridges
  {
    if i == 0 then m else m.(calibration := Some(Calibration(SceneOf(m)).value))
  }

  /** The strokes drawn for the first i lines. */
  function StrokesUpTo(m: ChangeMap, i: nat): seq<DrawOp>
    requires Valid(m) && m.ridges.Some? && i <= |m.ridges.value.lines|
    requires i == 0 || FetchedUpTo(m, i)
  {
    if i == 0 then [] else AllStrokes(Records(m, Calibration(SceneOf(m)).value, i))
  }

  /** Query i of an exporter, made on the map the earlier queries left
      behind, succeeds exactly when line i is accepted too, and then yields
      that line's record. */
  lemma QueryStep(m: ChangeMap, i: nat)
    requires Valid(m) && m.ridges.Some? && i < |m.ridges.value.lines|
    requires i == 0 || FetchedUpTo(m, i)
    ensures GetLineSpec(MapAfter(m, i), i).Success? <==> FetchedUpTo(m, i + 1)
    ensures GetLineSpec(MapAfter(m, i), i).Success? ==>
      GetLineSpec(MapAfter(m, i), i).value ==
        (MapAfter(m, i + 1), Record(m, Calibration(SceneOf(m)).value, m.ridges.value.lines[i]))
  {
    var mm := MapAfter(m, i);
    if Ready(m) {
      assert SceneOf(mm) == SceneOf(m);
    }
  }

  /** Drawing line i after the first i lines gives the strokes of the first
      i + 1 lines. */
  lemma StrokesStep(m: ChangeMap, i: nat)
    requires Valid(m) && m.ridges.Some? && i < |m.ridges.value.lines|
    requires FetchedUpTo(m, i + 1)
    ensures StrokesUpTo(m, i + 1) ==
      StrokesUpTo(m, i)
      + LineStrokes(Record(m, Calibration(SceneOf(m)).value, m.ridges.value.lines[i]))
  {
    var cal := Calibration(SceneOf(m)).value;
    var recs := Records(m, cal, i + 1);
    assert recs[..i] == Records(m, cal, i);
  }

  /** The strokes of the first i lines, extended by the strokes of line i. */
  lemma StrokesAfterLine(m: ChangeMap, i: nat, ops0: seq<DrawOp>, ops: seq<DrawOp>)
    requires Valid(m) && m.ridges.Some? && i < |m.ridges.value.lines|
    requires i == 0 || FetchedUpTo(m, i)
    requires FetchedUpTo(m, i + 1)
    requires ops == ops0 + StrokesUpTo(m, i)
    ensures ops + LineStrokes(Record(m, Calibration(SceneOf(m)).value, m.ridges.value.lines[i]))
              == ops0 + StrokesUpTo(m, i + 1)
  {
    StrokesStep(m, i);
  }

  /** Queries that all succeed include every shorter run of them. */
  lemma FetchedPrefix(m: ChangeMap, i: nat, j: nat)
    requires Valid(m) && m.ridges.Some? && i <= j <= |m.ridges.value.lines|
    ensures FetchedUpTo(m, j) ==> FetchedUpTo(m, i)
  {
  }

  /** After all queries an exportable map has drawn every line. */
  lemma ExportComplete(m: ChangeMap)
    requires Valid(m) && m.ridges.Some?
    ensures Exportable(m) <==> |m.ridges.value.lines| == 0 || FetchedUpTo(m, |m.ridges.value.lines|)
    ensures Exportable(m) ==>
      && StrokesUpTo(m, |m.ridges.value.lines|) == AllStrokes(AllRecords(m))
      && MapAfter(m, |m.ridges.value.lines|) == ExportedMap(m)
  {
  }

  /** change_map_get_line as an exporter calls it for line i, on the map
      the earlier queries left behind. A failure means the exporter cannot
      draw every line. */
  method FetchLine(m: ChangeMap, i: nat, mm: ChangeMap)
      returns (r: Result<(ChangeMap, ChangeMapLine), Error>)
    requires Valid(m) && m.ridges.Some? && i < |m.ridges.value.lines|
    requires i == 0 || FetchedUpTo(m, i)
    requires mm == MapAfter(m, i)
    ensures r.Failure? ==> !FetchedUpTo(m, |m.ridges.value.lines|)
    ensures r.Success? ==>
      && FetchedUpTo(m, i + 1)
      && r.value == (MapAfter(m, i + 1),
          Record(m, Calibration(SceneOf(m)).value, m.ridges.value.lines[i]))
  {
    QueryStep(m, i);
    r := GetLine(mm, i);
    if r.Failure? {
      FetchedPrefix(m, i + 1, |m.ridges.value.lines|);
    }
  }

  /** The inner loop of export_ridge_lines: for each segment, select its
      damage colour and stroke from its first to its second point. */
  method StrokeLine(ops: seq<DrawOp>, l: ChangeMapLine) returns (ops': seq<DrawOp>)
    requires Drawable(l)
    ensures ops' == ops + LineStrokes(l)
  {
    ops' := StrokeSegments(ops, l, LineColours(l));
  }

  /** The segment loop of export_ridge_lines, given the colour
      set_damage_colour selects for each segment. */
  method StrokeSegments(ops: seq<DrawOp>, l: ChangeMapLine, cs: seq<Rgb>)
      returns (ops': seq<DrawOp>)
    requires CoordsValid(l) && |cs| == l.nSegments
    ensures ops' == ops + StrokesOf(l, cs)
  {
    ops' := ops;
    var k := 0;
    while k < l.nSegments
      invariant 0 <= k <= l.nSegments
      invariant ops' == ops + StrokesOf(l, cs)[..k]
    {
      ops' := ops' + [Stroke(cs[k], ConvertCoords(l, k), ConvertCoords(l, k + 1))];
      k := k + 1;
    }
    assert StrokesOf(l, cs)[..k] == StrokesOf(l, cs);
  }

  /** One pass of the outer loop of export_ridge_lines: fetch line i from
      the map the earlier passes left behind, then stroke its segments. */
  method StrokeNextLine(m: ChangeMap, i: nat, mm: ChangeMap, ops0: seq<DrawOp>, ops: seq<DrawOp>)
    returns (r: Result<(ChangeMap, seq<DrawOp>), Error>)
    requires Valid(m) && m.ridges.Some? && i < |m.ridges.value.lines|
    requires i == 0 || FetchedUpTo(m, i)
    requires mm == MapAfter(m, i) && ops == ops0 + StrokesUpTo(m, i)
    ensures r.Failure? ==> !FetchedUpTo(m, |m.ridges.value.lines|)
    ensures r.Success? ==>
      && FetchedUpTo(m, i + 1)
      && r.value == (MapAfter(m, i + 1), ops0 + StrokesUpTo(m, i + 1))
  {
    var q := FetchLine(m, i, mm);
    if q.Failure? {
      return Failure(q.error);
    }
    var ops' := StrokeLine(ops, q.value.1);
    StrokesAfterLine(m, i, ops0, ops);
    return Success((q.value.0, ops'));
  }

  /** The outer loop of export_ridge_lines: fetch and stroke each line in
      turn, stopping at the first query that fails. */
  method StrokeLines(m: ChangeMap, ops: seq<DrawOp>)
      returns (r: Result<(ChangeMap, seq<DrawOp>), Error>)
    requires Valid(m) && m.ridges.Some?
    ensures var n := |m.ridges.value.lines|;
      r.Success? <==> n == 0 || FetchedUpTo(m, n)
    ensures var n := |m.ridges.value.lines|;
      r.Success? ==> r.value == (MapAfter(m, n), ops + StrokesUpTo(m, n))
  {
    var n := |m.ridges.value.lines|;
    var ops' := ops;
    var mm := m;
    var i := 0;
    while i < n
      invariant 0 <= i <= n
      invariant i == 0 || FetchedUpTo(m, i)
      invariant mm == MapAfter(m, i)
      invariant ops' == ops + StrokesUpTo(m, i)
    {
      var step := StrokeNextLine(m, i, mm, ops, ops');
      if step.Failure? {
        return Failure(step.error);
      }
      mm, ops' := step.value.0, step.value.1;
      i := i + 1;
    }
    return Success((mm, ops'));
  }

  /** export_ridge_lines: the drawing operations issued and the map state
      afterwards. FormatNone aborts before anything is drawn; missing ridge
      data aborts when the lines are counted; each line query can abort as
      change_map_get_line does. On success the surface gets the background
      paint followed by one stroke per segment, line after line. */
  method ExportRidgeLines(m: ChangeMap, cfg: OutputOptions)
      returns (r: Result<(ChangeMap, seq<DrawOp>), Error>)
    requires Valid(m)
    ensures cfg.format == FormatNone ==> r == Failure(UnknownFormat)
    ensures cfg.format != FormatNone && m.ridges.None? ==> r == Failure(NotReady)
    ensures r.Success? <==> cfg.format != FormatNone && m.ridges.Some? && Exportable(m)
    ensures r.Success? ==>
      && r.value.0 == ExportedMap(m)
      && r.value.1 == [Paint(BackgroundRgb())] + AllStrokes(AllRecords(m))
  {
    if cfg.format == FormatNone {
      return Failure(UnknownFormat);
    }
    if m.ridges.None? {
      return Failure(NotReady);
    }
    var drawn := StrokeLines(m, [Paint(BackgroundRgb())]);
    ExportComplete(m);
    if drawn.Failure? {
      return Failure(drawn.error);
    }
    return Success(drawn.value);
  }

  /** A colour channel as the mask exporter stores it: (int) (c * 255),
      which for a channel in [0, 1] truncates to the floor. */
  function Channel(c: real): (v: U8)
    requires 0.0 <= c <= 1.0
    ensures v as real <= c * 255.0 < v as real + 1.0
  {
    ChannelRange(c);
    (c * 255.0).Floor
  }

  lemma ChannelRange(c: real)
    requires 0.0 <= c <= 1.0
    ensures 0.0 <= c * 255.0 <= 255.0
  {
  }

  /** A table colour survives the conversion to [0, 1] and back exactly, so
      a change value at a stop is stored with that stop's colour. */
  lemma ChannelOfTableColour(x: U8)
    ensures 0.0 <= x as real / 255.0 <= 1.0
    ensures Channel(x as real / 255.0) == x
  {
    assert x as real / 255.0 * 255.0 == x as real;
  }

  /** The packed 0x00RRGGBB word of a colour. */
  function PackColour(c: Rgb): (v: nat)
    requires InUnit(c)
    ensures v < 0x100_0000
    ensures v / 0x1_0000 == Channel(c.r)
    ensures v / 0x100 % 0x100 == Channel(c.g)
    ensures v % 0x100 == Channel(c.b)
  {
    PackRgb(Channel(c.r), Channel(c.g), Channel(c.b))
  }

  /** The word the background paint leaves in every pixel: white. */
  function BackgroundWord(): (v: nat)
    ensures v == 0xFF_FFFF
  {
    ChannelOfTableColour(255);
    PackColour(BackgroundRgb())
  }

  /** The packed damage colour of each segment of a record. */
  function MaskWords(l: ChangeMapLine): (ws: seq<nat>)
    requires Drawable(l)
    ensures |ws| == l.nSegments
    ensures forall k :: 0 <= k < l.nSegments ==> ws[k] < WORD_LIMIT
    ensures forall k :: 0 <= k < l.nSegments ==>
      DamageColour(PALETTE, l.change[k]).Some?
      && ws[k] == PackColour(DamageColour(PALETTE, l.change[k]).value)
  {
    seq(l.nSegments, k requires 0 <= k < l.nSegments => PackColour(LineColours(l)[k]))
  }

  /** One store per segment of a record, in order, into the pixel of the
      segment's midpoint. */
  function WritesOf(l: ChangeMapLine, words: seq<nat>): (ws: seq<PixelWrite>)
    requires CoordsValid(l) && |words| == l.nSegments
    ensures |ws| == l.nSegments
  {
    seq(l.nSegments, k requires 0 <= k < l.nSegments => PixelWrite(GetPixel(l, k), words[k]))
  }

  /** The direct stores for one record: each segment's damage colour into
      the pixel of its midpoint. */
  function LineWrites(l: ChangeMapLine): (ws: seq<PixelWrite>)
    requires Drawable(l)
    ensures |ws| == l.nSegments
  {
    WritesOf(l, MaskWords(l))
  }

  /** The stores for a list of records, record after record. */
  function AllWrites(ls: seq<ChangeMapLine>): seq<PixelWrite>
    requires forall i :: 0 <= i < |ls| ==> Drawable(ls[i])
  {
    if ls == [] then [] else AllWrites(ls[..|ls| - 1]) + LineWrites(ls[|ls| - 1])
  }

  /** Records whose segment pixels all lie inside the layout give stores
      that all fit the buffer. */
  lemma {:induction false} AllWritesFit(lay: Layout, ls: seq<ChangeMapLine>)
    requires forall i :: 0 <= i < |ls| ==>
        Drawable(ls[i]) && PixelsInImage(ls[i], lay.height, lay.width)
    ensures WritesFit(lay, AllWrites(ls))
  {
    if ls != [] {
      AllWritesFit(lay, ls[..|ls| - 1]);
      var l := ls[|ls| - 1];
      assert PixelsInImage(l, lay.height, lay.width);
    }
  }

  /** The stores made for the first i lines. */
  function WritesUpTo(m: ChangeMap, i: nat): seq<PixelWrite>
    requires Valid(m) && m.ridges.Some? && i <= |m.ridges.value.lines|
    requires i == 0 || FetchedUpTo(m, i)
  {
    if i == 0 then [] else AllWrites(Records(m, Calibration(SceneOf(m)).value, i))
  }

  /** The records of an exporter's first i queries have their pixels inside
      the map's image. */
  lemma RecordsInImage(m: ChangeMap, i: nat)
    requires Valid(m) && m.ridges.Some? && i <= |m.ridges.value.lines|
    requires FetchedUpTo(m, i)
    ensures forall j :: 0 <= j < i ==>
      PixelsInImage(Records(m, Calibration(SceneOf(m)).value, i)[j], m.height, m.width)
  {
  }

  lemma WritesStep(m: ChangeMap, i: nat)
    requires Valid(m) && m.ridges.Some? && i < |m.ridges.value.lines|
    requires FetchedUpTo(m, i + 1)
    ensures WritesUpTo(m, i + 1) ==
      WritesUpTo(m, i)
      + LineWrites(Record(m, Calibration(SceneOf(m)).value, m.ridges.value.lines[i]))
  {
    var cal := Calibration(SceneOf(m)).value;
    var recs := Records(m, cal, i + 1);
    assert recs[..i] == Records(m, cal, i);
  }

  /** The stores made for the first i lines fit a buffer at least as large
      as the map's image. */
  lemma WritesUpToFit(m: ChangeMap, i: nat, lay: Layout)
    requires Valid(m) && m.ridges.Some? && i <= |m.ridges.value.lines|
    requires i == 0 || FetchedUpTo(m, i)
    requires m.height <= lay.height && m.width <= lay.width
    ensures WritesFit(lay, WritesUpTo(m, i))
  {
    if i > 0 {
      var recs := Records(m, Calibration(SceneOf(m)).value, i);
      RecordsInImage(m, i);
      assert forall j :: 0 <= j < i ==> PixelsInImage(recs[j], lay.height, lay.width);
      AllWritesFit(lay, recs);
    }
  }

  /** The inner loop of export_ridge_mask: for each segment, find its pixel,
      select its damage colour and store the packed word at the pixel's
      offset. */
  method WriteLine(lay: Layout, ghost base: seq<U8>, ghost done: seq<PixelWrite>,
                    buf: seq<U8>, l: ChangeMapLine)
    returns (buf': seq<U8>)
    requires lay.Valid() && |base| == lay.Size() && Drawable(l)
    requires PixelsInImage(l, lay.height, lay.width)
    requires WritesFit(lay, done) && buf == ApplyWrites(lay, base, done)
    ensures WritesFit(lay, done + LineWrites(l))
    ensures buf' == ApplyWrites(lay, base, done + LineWrites(l))
  {
    WritesOfFit(lay, l, MaskWords(l));
    WritesFitAppend(lay, done, LineWrites(l));
    buf' := WriteSegments(lay, base, done, buf, l, MaskWords(l));
  }

  /** The stores of a record whose segment pixels lie inside the layout all
      fit the buffer. */
  lemma WritesOfFit(lay: Layout, l: ChangeMapLine, words: seq<nat>)
    requires CoordsValid(l) && |words| == l.nSegments
    requires forall k :: 0 <= k < |words| ==> words[k] < WORD_LIMIT
    requires PixelsInImage(l, lay.height, lay.width)
    ensures WritesFit(lay, WritesOf(l, words))
  {
  }

  /** The segment loop of export_ridge_mask, given the word built from the
      colour set_damage_colour selects for each segment. */
  method WriteSegments(lay: Layout, ghost base: seq<U8>, ghost done: seq<PixelWrite>, buf: seq<U8>,
                       l: ChangeMapLine, words: seq<nat>)
    returns (buf': seq<U8>)
    requires lay.Valid() && |base| == lay.Size() && CoordsValid(l) && |words| == l.nSegments
    requires WritesFit(lay, done + WritesOf(l, words))
    requires WritesFit(lay, done) && buf == ApplyWrites(lay, base, done)
    ensures buf' == ApplyWrites(lay, base, done + WritesOf(l, words))
  {
    buf' := buf;
    ghost var ws := WritesOf(l, words);
    assert done + ws[..0] == done;
    var k := 0;
    while k < l.nSegments
      invariant 0 <= k <= l.nSegments
      invariant WritesFit(lay, done + ws[..k])
      invariant buf' == ApplyWrites(lay, base, done + ws[..k])
    {
      var w := PixelWrite(GetPixel(l, k), words[k]);
      assert w == ws[k] == (done + ws)[|done| + k];
      buf' := WritePixel(lay, base, done + ws[..k], buf', w);
      PrefixSnoc(done, ws, k);
      k := k + 1;
    }
    assert ws[..k] == ws;
  }

  /** Extending a prefix of `ws` by its next element. */
  lemma PrefixSnoc<T>(done: seq<T>, ws: seq<T>, k: nat)
    requires k < |ws|
    ensures done + ws[..k + 1] == (done + ws[..k]) + [ws[k]]
  {
    assert ws[..k + 1] == ws[..k] + [ws[k]];
  }

  /** One direct store: memcpy of the word to the pixel's offset. */
  method WritePixel(lay: Layout, ghost base: seq<U8>, ghost done: seq<PixelWrite>,
                     buf: seq<U8>, w: PixelWrite)
    returns (buf': seq<U8>)
    requires lay.Valid() && |base| == lay.Size() && WritesFit(lay, done)
    requires buf == ApplyWrites(lay, base, done)
    requires lay.InImage(w.pixel) && w.word < WORD_LIMIT
    ensures WritesFit(lay, done + [w])
    ensures buf' == ApplyWrites(lay, base, done + [w])
  {
    ApplyWritesSnoc(lay, base, done, w);
    buf' := WriteWord(buf, lay.Offset(w.pixel), w.word);
  }

  /** One pass of the outer loop of export_ridge_mask. */
  method WriteNextLine(m: ChangeMap, i: nat, mm: ChangeMap,
      lay: Layout, base: seq<U8>, buf: seq<U8>)
    returns (r: Result<(ChangeMap, seq<U8>), Error>)
    requires Valid(m) && m.ridges.Some? && i < |m.ridges.value.lines|
    requires i == 0 || FetchedUpTo(m, i)
    requires mm == MapAfter(m, i)
    requires lay.Valid() && |base| == lay.Size() && m.height <= lay.height && m.width <= lay.width
    requires WritesFit(lay, WritesUpTo(m, i)) && buf == ApplyWrites(lay, base, WritesUpTo(m, i))
    ensures r.Failure? ==> !FetchedUpTo(m, |m.ridges.value.lines|)
    ensures r.Success? ==>
      && FetchedUpTo(m, i + 1)
      && WritesFit(lay, WritesUpTo(m, i + 1))
      && r.value == (MapAfter(m, i + 1), ApplyWrites(lay, base, WritesUpTo(m, i + 1)))
  {
    var q := FetchLine(m, i, mm);
    if q.Failure? {
      return Failure(q.error);
    }
    WritesStep(m, i);
    var buf' := WriteLine(lay, base, WritesUpTo(m, i), buf, q.value.1);
    return Success((q.value.0, buf'));
  }

  /** The outer loop of export_ridge_mask. */
  method WriteLines(m: ChangeMap, lay: Layout, base: seq<U8>)
      returns (r: Result<(ChangeMap, seq<U8>), Error>)
    requires Valid(m) && m.ridges.Some?
    requires lay.Valid() && |base| == lay.Size() && m.height <= lay.height && m.width <= lay.width
    ensures var n := |m.ridges.value.lines|;
      r.Success? <==> n == 0 || FetchedUpTo(m, n)
    ensures var n := |m.ridges.value.lines|;
      r.Success? ==>
        && WritesFit(lay, WritesUpTo(m, n))
        && r.value == (MapAfter(m, n), ApplyWrites(lay, base, WritesUpTo(m, n)))
  {
    var n := |m.ridges.value.lines|;
    var buf := base;
    var mm := m;
    var i := 0;
    while i < n
      invariant 0 <= i <= n
      invariant i == 0 || FetchedUpTo(m, i)
      invariant mm == MapAfter(m, i)
      invariant WritesFit(lay, WritesUpTo(m, i))
      invariant buf == ApplyWrites(lay, base, WritesUpTo(m, i))
    {
      var step := WriteNextLine(m, i, mm, lay, base, buf);
      if step.Failure? {
        return Failure(step.error);
      }
      mm, buf := step.value.0, step.value.1;
      i := i + 1;
    }
    return Success((mm, buf));
  }

  /** All the stores export_ridge_mask makes for a map it can export. */
  function MaskWrites(m: ChangeMap): (ws: seq<PixelWrite>)
    requires Valid(m) && m.ridges.Some? && Exportable(m)
  {
    AllWrites(AllRecords(m))
  }

  lemma MaskWritesComplete(m: ChangeMap, lay: Layout)
    requires Valid(m) && m.ridges.Some? && Exportable(m)
    requires m.height <= lay.height && m.width <= lay.width
    ensures WritesUpTo(m, |m.ridges.value.lines|) == MaskWrites(m)
    ensures WritesFit(lay, MaskWrites(m))
  {
    WritesUpToFit(m, |m.ridges.value.lines|, lay);
  }

  /** export_ridge_mask: the map state and the image buffer afterwards. The
      buffer starts as the background paint; missing ridge data aborts when
      the lines are counted; each line query can abort as
      change_map_get_line does; FormatNone aborts only after drawing, at the
      output stage. On success each pixel holds the colour of the last
      segment whose midpoint falls in it, and the background otherwise. */
  method ExportRidgeMask(m: ChangeMap, cfg: OutputOptions, stride: nat)
    returns (r: Result<(ChangeMap, seq<U8>), Error>)
    requires Valid(m) && stride >= 4 * cfg.width
    requires m.ridges.Some? ==> m.height <= cfg.height && m.width <= cfg.width
    ensures m.ridges.None? ==> r == Failure(NotReady)
    ensures r.Success? <==> m.ridges.Some? && Exportable(m) && cfg.format != FormatNone
    ensures m.ridges.Some? && Exportable(m) && cfg.format == FormatNone ==>
        r == Failure(UnknownFormat)
    ensures r.Success? ==>
      var lay := Layout(cfg.height, cfg.width, stride);
      && WritesFit(lay, MaskWrites(m))
      && r.value.0 == ExportedMap(m)
      && r.value.1 == ApplyWrites(lay, Background(lay, BackgroundWord()), MaskWrites(m))
    ensures r.Success? ==>
      var lay := Layout(cfg.height, cfg.width, stride);
      forall p :: lay.InImage(p) ==>
        && lay.Offset(p) + 4 <= |r.value.1|
        && ReadWord(r.value.1, lay.Offset(p)) ==
             if LastWrite(MaskWrites(m), p).Some? then LastWrite(MaskWrites(m), p).value
             else BackgroundWord()
  {
    var lay := Layout(cfg.height, cfg.width, stride);
    var base := Background(lay, BackgroundWord());
    if m.ridges.None? {
      return Failure(NotReady);
    }
    var drawn := WriteLines(m, lay, base);
    ExportComplete(m);
    if drawn.Failure? {
      return Failure(drawn.error);
    }
    if cfg.format == FormatNone {
      return Failure(UnknownFormat);
    }
    MaskWritesComplete(m, lay);
    var buf := drawn.value.1;
    forall p | lay.InImage(p)
      ensures lay.Offset(p) + 4 <= |buf|
      ensures ReadWord(buf, lay.Offset(p)) ==
        if LastWrite(MaskWrites(m), p).Some? then LastWrite(MaskWrites(m), p).value
        else BackgroundWord()
    {
      ReadAfterWrites(lay, base, MaskWrites(m), p);
    }
    return Success(drawn.value);
  }
}
