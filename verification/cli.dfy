/** The command-line driver: shaping the loaded ridge data by class label,
    choosing the output format from the output file name, and the sequence
    of calls main makes to set up the change map and run an exporter. */
module Cli {
  import opened Common
  import opened ChangeMapTypes
  import opened ChangeMapObject
  import opened Export
  import opened PixelBuffer

  /** The class label used when -c is not given. */
  const DEFAULT_CLASS_LABEL: U8 := 1

  // ---------------------------------------------------------------------
  // Classification filter
  // ---------------------------------------------------------------------

  /** The indices of the labels equal to `wanted`, in increasing order. */
  function ClassIndices(classes: seq<U8>, wanted: U8): (idx: seq<nat>)
    ensures forall k :: 0 <= k < |idx| ==> idx[k] < |classes| && classes[idx[k]] == wanted
    ensures forall k, j :: 0 <= k < j < |idx| ==> idx[k] < idx[j]
    ensures forall i :: 0 <= i < |classes| && classes[i] == wanted ==> i in idx
    decreases |classes|
  {
    if classes == [] then []
    else
      var rest := ClassIndices(classes[..|classes| - 1], wanted);
      if classes[|classes| - 1] == wanted then rest + [|classes| - 1] else rest
  }

  /** The lines whose label equals `wanted`, in their original order. */
  function FilterByClass(lines: seq<Line>, classes: seq<U8>, wanted: U8): (r: seq<Line>)
    requires |lines| == |classes|
    ensures |r| <= |lines|
    ensures forall k :: 0 <= k < |r| ==> r[k] in lines
    ensures (forall i :: 0 <= i < |classes| ==> classes[i] == wanted) ==> r == lines
    ensures (forall i :: 0 <= i < |classes| ==> classes[i] != wanted) ==> r == []
    decreases |lines|
  {
    if lines == [] then []
    else
      var n := |lines| - 1;
      FilterByClass(lines[..n], classes[..n], wanted)
        + (if classes[n] == wanted then [lines[n]] else [])
  }

  /** The filtered lines are exactly the lines at the selected indices. */
  lemma {:induction false} FilterSelects(lines: seq<Line>, classes: seq<U8>, wanted: U8)
    requires |lines| == |classes|
    ensures var idx := ClassIndices(classes, wanted);
      && |FilterByClass(lines, classes, wanted)| == |idx|
      && forall k :: 0 <= k < |idx| ==> FilterByClass(lines, classes, wanted)[k] == lines[idx[k]]
    decreases |lines|
  {
    if lines != [] {
      var n := |lines| - 1;
      FilterSelects(lines[..n], classes[..n], wanted);
    }
  }

  /** The classification metadata can be used: it is present and has one
      label per line. */
  predicate ClassificationUsable(data: RidgeData) {
    data.classification.Some? && |data.classification.value| == |data.lines|
  }

  /** ridges_load_check after loading: reject data that is not line data or
      lacks the image size; with unusable classification metadata keep the
      data as loaded; otherwise build a new line data set carrying the same
      image size and a point-for-point copy of each line whose label equals
      `wanted`, in order, and no classification. */
  function RidgesLoadCheck(data: RidgeData, wanted: U8): (r: Result<RidgeData, Error>)
    ensures data.kind != LineData ==> r == Failure(NotLineData)
    ensures data.kind == LineData && (data.imageRows.None? || data.imageCols.None?) ==>
      r == Failure(MissingImageSize)
    ensures r.Success? <==> data.kind == LineData && data.imageRows.Some? && data.imageCols.Some?
    ensures r.Success? && !ClassificationUsable(data) ==> r.value == data
    ensures r.Success? && ClassificationUsable(data) ==>
      var idx := ClassIndices(data.classification.value, wanted);
      && r.value.kind == LineData
      && r.value.imageRows == data.imageRows && r.value.imageCols == data.imageCols
      && r.value.classification.None?
      && |r.value.lines| == |idx|
      && forall k :: 0 <= k < |idx| ==> r.value.lines[k] == data.lines[idx[k]]
  {
    if data.kind != LineData then Failure(NotLineData)
    else if data.imageRows.None? || data.imageCols.None? then Failure(MissingImageSize)
    else if !ClassificationUsable(data) then Success(data)
    else
      FilterSelects(data.lines, data.classification.value, wanted);
      Success(RidgeData(LineData, data.imageRows, data.imageCols,
                        FilterByClass(data.lines, data.classification.value, wanted), None))
  }

  /** The copy loop of ridges_load_check: skip lines with another label and
      copy the others. */
  method FilterLines(lines: seq<Line>, classes: seq<U8>, wanted: U8) returns (kept: seq<Line>)
    requires |lines| == |classes|
    ensures kept == FilterByClass(lines, classes, wanted)
  {
    kept := [];
    var i := 0;
    while i < |lines|
      invariant 0 <= i <= |lines|
      invariant kept == FilterByClass(lines[..i], classes[..i], wanted)
    {
      assert lines[..i + 1][..i] == lines[..i];
      assert classes[..i + 1][..i] == classes[..i];
      if classes[i] == wanted {
        var copy := CopyPoints(lines[i]);
        kept := kept + [copy];
      }
      i := i + 1;
    }
    assert lines[..i] == lines;
    assert classes[..i] == classes;
  }

  /** The point loop of ridges_load_check: append a copy of every point. */
  method CopyPoints(l: Line) returns (c: Line)
    ensures c == l
  {
    c := [];
    var j := 0;
    while j < |l|
      invariant 0 <= j <= |l|
      invariant c == l[..j]
    {
      c := c + [l[j]];
      j := j + 1;
    }
  }

  // ---------------------------------------------------------------------
  // Output format
  // ---------------------------------------------------------------------

  /** strrchr(s, '.'): the position of the last '.', if there is one. */
  function LastDot(s: string): (r: Option<nat>)
    ensures r.Some? ==> r.value < |s| && s[r.value] == '.'
    ensures r.Some? ==> forall j :: r.value < j < |s| ==> s[j] != '.'
    ensures r.None? ==> forall j :: 0 <= j < |s| ==> s[j] != '.'
    decreases |s|
  {
    if s == [] then None
    else if s[|s| - 1] == '.' then Some(|s| - 1)
    else LastDot(s[..|s| - 1])
  }

  /** tolower in the C locale: only 'A'..'Z' change. */
  function ToLower(c: char): (l: char)
    ensures 'A' <= c <= 'Z' ==> 'a' <= l <= 'z' && l as int - c as int == 32
    ensures !('A' <= c <= 'Z') ==> l == c
  {
    if 'A' <= c <= 'Z' then (c as int + 32) as char else c
  }

  /** strcasecmp(a, b) == 0. */
  predicate SameIgnoringCase(a: string, b: string) {
    |a| == |b| && forall i :: 0 <= i < |a| ==> ToLower(a[i]) == ToLower(b[i])
  }

  /** The suffix table, searched in order. */
  const FORMAT_SUFFIXES: seq<(string, OutputFormat)> := [("png", FormatPng), ("pdf", FormatPdf)]

  /** The format of the first table entry whose suffix matches `ext`
      ignoring case, FormatNone when none does. */
  function LookupSuffix(ext: string, table: seq<(string, OutputFormat)>): (f: OutputFormat)
    requires forall k :: 0 <= k < |table| ==> table[k].1 != FormatNone
    ensures f == FormatNone ==> forall k :: 0 <= k < |table| ==> !SameIgnoringCase(ext, table[k].0)
    ensures f != FormatNone ==>
        exists k :: 0 <= k < |table| && SameIgnoringCase(ext, table[k].0) && table[k].1 == f
    decreases |table|
  {
    if table == [] then FormatNone
    else if SameIgnoringCase(ext, table[0].0) then table[0].1
    else LookupSuffix(ext, table[1..])
  }

  /** The format named by an extension: PNG for "png" and PDF for "pdf" in
      any mix of case, FormatNone for anything else. */
  lemma ExtensionFormat(ext: string)
    ensures SameIgnoringCase(ext, "png") <==> LookupSuffix(ext, FORMAT_SUFFIXES) == FormatPng
    ensures SameIgnoringCase(ext, "pdf") <==> LookupSuffix(ext, FORMAT_SUFFIXES) == FormatPdf
    ensures LookupSuffix(ext, FORMAT_SUFFIXES) == FormatNone <==>
      !SameIgnoringCase(ext, "png") && !SameIgnoringCase(ext, "pdf")
  {
    if SameIgnoringCase(ext, "png") {
      PngIsNotPdf(ext);
    }
    assert FORMAT_SUFFIXES[1..] == [("pdf", FormatPdf)];
    assert FORMAT_SUFFIXES[1..][1..] == [];
  }

  /** No text matches both "png" and "pdf" ignoring case. */
  lemma PngIsNotPdf(ext: string)
    requires SameIgnoringCase(ext, "png")
    ensures !SameIgnoringCase(ext, "pdf")
  {
    assert ToLower(ext[1]) == 'n';
  }

  /** guess_output_format: the text after the last '.' of the file name,
      looked up in the suffix table; FormatNone when there is no '.'. */
  function GuessOutputFormat(filename: string): (f: OutputFormat)
    ensures f == FormatPng <==>
      LastDot(filename).Some? && SameIgnoringCase(filename[LastDot(filename).value + 1..], "png")
    ensures f == FormatPdf <==>
      LastDot(filename).Some? && SameIgnoringCase(filename[LastDot(filename).value + 1..], "pdf")
  {
    match LastDot(filename)
    case None => FormatNone
    case Some(i) =>
      ExtensionFormat(filename[i + 1..]);
      LookupSuffix(filename[i + 1..], FORMAT_SUFFIXES)
  }

  /** A file name `stem.ext` whose extension has no '.' is classified by its
      extension alone, whatever the stem holds (dots included). */
  lemma {:induction false} GuessFromExtension(stem: string, ext: string)
    requires forall j :: 0 <= j < |ext| ==> ext[j] != '.'
    ensures GuessOutputFormat(stem + "." + ext) == LookupSuffix(ext, FORMAT_SUFFIXES)
    ensures GuessOutputFormat(stem + "." + ext) == FormatPng <==> SameIgnoringCase(ext, "png")
    ensures GuessOutputFormat(stem + "." + ext) == FormatPdf <==> SameIgnoringCase(ext, "pdf")
  {
    var s := stem + "." + ext;
    LastDotOfSuffixed(stem, ext);
    assert s[|stem| + 1..] == ext;
    ExtensionFormat(ext);
  }

  lemma {:induction false} LastDotOfSuffixed(stem: string, ext: string)
    requires forall j :: 0 <= j < |ext| ==> ext[j] != '.'
    ensures LastDot(stem + "." + ext) == Some(|stem|)
    decreases |ext|
  {
    var s := stem + "." + ext;
    if ext == [] {
      assert s[|s| - 1] == '.';
    } else {
      var e := ext[..|ext| - 1];
      LastDotOfSuffixed(stem, e);
      assert s[..|s| - 1] == stem + "." + e;
      assert s[|s| - 1] == ext[|ext| - 1];
    }
  }

  /** A file name without any '.' gives no format. */
  lemma NoDotNoFormat(filename: string)
    requires forall j :: 0 <= j < |filename| ==> filename[j] != '.'
    ensures GuessOutputFormat(filename) == FormatNone
  {
  }

  /** A file name ending in '.' has an empty suffix and gives no format. */
  lemma EmptySuffixNoFormat(stem: string)
    ensures GuessOutputFormat(stem + ".") == FormatNone
  {
    GuessFromExtension(stem, "");
  }

  /** The requested format, else the guessed one, else PDF (the fallback in
      main, which warns). */
  function ResolveFormat(requested: OutputFormat, filename: string): (f: OutputFormat)
    ensures f != FormatNone
    ensures requested != FormatNone ==> f == requested
    ensures requested == FormatNone && GuessOutputFormat(filename) != FormatNone ==>
      f == GuessOutputFormat(filename)
    ensures requested == FormatNone && GuessOutputFormat(filename) == FormatNone ==> f == FormatPdf
  {
    var f := if requested == FormatNone then GuessOutputFormat(filename) else requested;
    if f == FormatNone then FormatPdf else f
  }

  // ---------------------------------------------------------------------
  // main
  // ---------------------------------------------------------------------

  /** The rendering mode selected with -m. */
  datatype Mode = RidgeLines | RidgeMask

  /** What main hands to an exporter: the drawing operations of the vector
      renderer or the pixel buffer of the mask renderer. */
  datatype Output = Drawing(ops: seq<DrawOp>) | Mask(pixels: seq<U8>)

  /** The byte stride of an RGB24 surface: four bytes per pixel, already a
      multiple of the four-byte row alignment. */
  function Rgb24Stride(width: nat): (stride: nat)
    ensures stride >= 4 * width && stride % 4 == 0
  {
    4 * width
  }

  /** The set-up part of main once the command line is parsed and the files
      are loaded: a new map gets the NaN substitute, the checked ridge data
      and the two rasters (each must match the ridge data's image size), and
      the export options get the output file name, the resolved format and
      that image size. The format is never asked for on the command line. */
  function Prepare(nan: real, wanted: U8, data: RidgeData, pre: Raster, post: Raster,
      outFile: string)
    : (r: Result<(ChangeMap, OutputOptions), Error>)
    ensures r.Success? <==>
      && data.kind == LineData && data.imageRows.Some? && data.imageCols.Some?
      && pre.rows == data.imageRows.value && pre.cols == data.imageCols.value
      && post.rows == data.imageRows.value && post.cols == data.imageCols.value
    ensures r.Success? ==>
      var (m, cfg) := r.value;
      && Valid(m) && Ready(m)
      && m.nanVal == nan && m.calibration.None?
      && m.ridges == Some(RidgesLoadCheck(data, wanted).value)
      && m.pre == Some(pre) && m.post == Some(post)
      && m.height == cfg.height == data.imageRows.value
      && m.width == cfg.width == data.imageCols.value
      && cfg.filename == outFile
      && cfg.format == ResolveFormat(FormatNone, outFile) && cfg.format != FormatNone
  {
    var m0 := ChangeMapNew();
    var m1 := SetNan(m0, nan).value;
    var ridges :- RidgesLoadCheck(data, wanted);
    var m2 := SetRidgeData(m1, ridges).value;
    var m3 :- SetPreImage(m2, pre);
    var m4 :- SetPostImage(m3, post);
    Success((m4, OutputOptions(outFile, ResolveFormat(FormatNone, outFile),
                               data.imageRows.value, data.imageCols.value)))
  }

  /** main from the set-up to the selected exporter. Because the format is
      resolved first, the exporters' FormatNone abort cannot happen; the run
      fails only where the set-up or a line query does. */
  method Run(mode: Mode, nan: real, wanted: U8, data: RidgeData, pre: Raster,
      post: Raster, outFile: string)
    returns (r: Result<Output, Error>)
    ensures Prepare(nan, wanted, data, pre, post, outFile).Failure? ==>
      r == Failure(Prepare(nan, wanted, data, pre, post, outFile).error)
    ensures Prepare(nan, wanted, data, pre, post, outFile).Success? ==>
      (r.Success? <==> Exportable(Prepare(nan, wanted, data, pre, post, outFile).value.0))
    ensures r.Success? ==> (r.value.Drawing? <==> mode == RidgeLines)
    ensures r.Success? && mode == RidgeLines ==>
      var m := Prepare(nan, wanted, data, pre, post, outFile).value.0;
      r.value.ops == [Paint(BackgroundRgb())] + AllStrokes(AllRecords(m))
    ensures r.Success? && mode == RidgeMask ==>
      var (m, cfg) := Prepare(nan, wanted, data, pre, post, outFile).value;
      var lay := Layout(cfg.height, cfg.width, Rgb24Stride(cfg.width));
      && WritesFit(lay, MaskWrites(m))
      && r.value.pixels == ApplyWrites(lay, Background(lay, BackgroundWord()), MaskWrites(m))
      && forall p :: lay.InImage(p) ==>
           && lay.Offset(p) + 4 <= |r.value.pixels|
           && ReadWord(r.value.pixels, lay.Offset(p)) ==
                if LastWrite(MaskWrites(m), p).Some? then LastWrite(MaskWrites(m), p).value
                else BackgroundWord()
  {
    var prepared := Prepare(nan, wanted, data, pre, post, outFile);
    if prepared.Failure? {
      return Failure(prepared.error);
    }
    var (m, cfg) := prepared.value;
    match mode {
      case RidgeLines =>
        var drawn := ExportRidgeLines(m, cfg);
        if drawn.Failure? {
          return Failure(drawn.error);
        }
        return Success(Drawing(drawn.value.1));
      case RidgeMask =>
        var masked := ExportRidgeMask(m, cfg, Rgb24Stride(cfg.width));
        if masked.Failure? {
          return Failure(masked.error);
        }
        return Success(Mask(masked.value.1));
    }
  }
}
