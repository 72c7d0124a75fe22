/** The RGB24 image buffer the ridge-mask exporter writes into: rows of
    `stride` bytes, one 32-bit word per pixel, the red, green and blue
    channels packed as 0x00RRGGBB, and the sequence of direct word writes
    the exporter performs. */
module PixelBuffer {
  import opened Common
  import opened ChangeMapTypes

  /** The geometry of an image surface: `stride` bytes per row, at least
      four bytes per pixel of the row. */
  datatype Layout = Layout(height: nat, width: nat, stride: nat) {
    predicate Valid() {
      stride >= 4 * width
    }

    /** The number of bytes the surface holds. */
    function Size(): nat {
      stride * height
    }

    predicate InImage(p: Pixel) {
      p.row < height && p.col < width
    }

    /** Byte offset of a pixel's word: stride * row + 4 * col. */
    function Offset(p: Pixel): nat {
      stride * p.row + 4 * p.col
    }
  }

  /** Every in-image pixel's word lies inside the buffer. */
  lemma OffsetInBuffer(lay: Layout, p: Pixel)
    requires lay.Valid() && lay.InImage(p)
    ensures lay.Offset(p) + 4 <= lay.Size()
  {
    MulStep(lay.stride, p.row, lay.height);
  }

  /** Distinct in-image pixels own disjoint four-byte words. */
  lemma OffsetsDisjoint(lay: Layout, p: Pixel, q: Pixel)
    requires lay.Valid() && lay.InImage(p) && lay.InImage(q) && p != q
    ensures lay.Offset(p) + 4 <= lay.Offset(q) || lay.Offset(q) + 4 <= lay.Offset(p)
  {
    if p.row < q.row {
      MulStep(lay.stride, p.row, q.row);
    } else if q.row < p.row {
      MulStep(lay.stride, q.row, p.row);
    }
  }

  lemma MulStep(s: nat, a: nat, b: nat)
    requires a < b
    ensures s * a + s <= s * b
  {
    var d := b - a;
    MulDistributes(s, a, d);
    MulAtLeast(s, d);
  }

  lemma MulDistributes(s: nat, a: nat, d: nat)
    ensures s * (a + d) == s * a + s * d
  {
  }

  lemma MulAtLeast(s: nat, d: nat)
    requires d >= 1
    ensures s * d >= s
  {
    MulDistributes(s, 1, d - 1);
  }

  const WORD_LIMIT: nat := 0x1_0000_0000

  /** A 32-bit word as its four bytes, least significant first. */
  function WordBytes(v: nat): (bs: seq<U8>)
    requires v < WORD_LIMIT
    ensures |bs| == 4
  {
    [v % 0x100, (v / 0x100) % 0x100, (v / 0x1_0000) % 0x100, v / 0x100_0000]
  }

  /** The word four bytes encode, least significant first. */
  function WordValue(bs: seq<U8>): (v: nat)
    requires |bs| == 4
    ensures v < WORD_LIMIT
  {
    bs[0] as int + 0x100 * (bs[1] as int) + 0x1_0000 * (bs[2] as int) + 0x100_0000 * (bs[3] as int)
  }

  /** Storing a word and loading it back gives the word. */
  lemma WordRoundTrip(v: nat)
    requires v < WORD_LIMIT
    ensures WordValue(WordBytes(v)) == v
  {
    var b := WordBytes(v);
    ByteSplit(v);
    ByteSplit(v / 0x100);
    ByteSplit(v / 0x1_0000);
    assert v / 0x1_0000 == (v / 0x100) / 0x100;
    assert v / 0x100_0000 == (v / 0x1_0000) / 0x100;
  }

  /** Euclidean division by 256. */
  lemma ByteSplit(v: nat)
    ensures v == 0x100 * (v / 0x100) + v % 0x100
  {
  }

  /** Euclidean division of q * d + rem by d, for the divisors the pixel
      packing uses. */
  lemma DivideExactly(q: nat, d: nat, rem: nat)
    requires d == 0x100 || d == 0x1_0000
    requires rem < d
    ensures (q * d + rem) / d == q && (q * d + rem) % d == rem
  {
  }

  /** The pixel value the exporter builds: (R << 16) + (G << 8) + B. */
  function PackRgb(r: U8, g: U8, b: U8): (v: nat)
    ensures v < 0x100_0000
    ensures v / 0x1_0000 == r && (v / 0x100) % 0x100 == g && v % 0x100 == b
  {
    var low := g * 0x100 + b;
    var v := r * 0x1_0000 + low;
    DivideExactly(r, 0x1_0000, low);
    var high := r * 0x100 + g;
    assert v == high * 0x100 + b;
    DivideExactly(high, 0x100, b);
    DivideExactly(r, 0x100, g);
    v
  }

  /** In memory a packed pixel is blue, green, red, then a zero byte. */
  lemma PackedBytes(r: U8, g: U8, b: U8)
    ensures WordBytes(PackRgb(r, g, b)) == [b, g, r, 0]
  {
  }

  function ReadWord(buf: seq<U8>, off: nat): nat
    requires off + 4 <= |buf|
  {
    WordValue(buf[off..off + 4])
  }

  /** memcpy of a word's four bytes to `off`. */
  function WriteWord(buf: seq<U8>, off: nat, v: nat): (r: seq<U8>)
    requires off + 4 <= |buf| && v < WORD_LIMIT
    ensures |r| == |buf|
    ensures r[off..off + 4] == WordBytes(v)
    ensures forall i :: 0 <= i < |buf| && (i < off || off + 4 <= i) ==> r[i] == buf[i]
  {
    buf[..off] + WordBytes(v) + buf[off + 4..]
  }

  /** A written word reads back unchanged. */
  lemma ReadAfterWriteSame(buf: seq<U8>, off: nat, v: nat)
    requires off + 4 <= |buf| && v < WORD_LIMIT
    ensures ReadWord(WriteWord(buf, off, v), off) == v
  {
    WordRoundTrip(v);
  }

  /** A write leaves every word it does not overlap unchanged. */
  lemma ReadAfterWriteOther(buf: seq<U8>, off: nat, v: nat, o: nat)
    requires off + 4 <= |buf| && v < WORD_LIMIT && o + 4 <= |buf|
    requires off + 4 <= o || o + 4 <= off
    ensures ReadWord(WriteWord(buf, off, v), o) == ReadWord(buf, o)
  {
    var r := WriteWord(buf, off, v);
    forall i | o <= i < o + 4
      ensures r[i] == buf[i]
    {
    }
    assert r[o..o + 4] == buf[o..o + 4];
  }

  /** One direct pixel store. */
  datatype PixelWrite = PixelWrite(pixel: Pixel, word: nat)

  predicate WritesFit(lay: Layout, ws: seq<PixelWrite>) {
    forall i :: 0 <= i < |ws| ==> lay.InImage(ws[i].pixel) && ws[i].word < WORD_LIMIT
  }

  /** The buffer after performing the writes in order. */
  function ApplyWrites(lay: Layout, buf: seq<U8>, ws: seq<PixelWrite>): (r: seq<U8>)
    requires lay.Valid() && |buf| == lay.Size() && WritesFit(lay, ws)
    ensures |r| == |buf|
  {
    if ws == [] then buf
    else
      var last := ws[|ws| - 1];
      OffsetInBuffer(lay, last.pixel);
      WriteWord(ApplyWrites(lay, buf, ws[..|ws| - 1]), lay.Offset(last.pixel), last.word)
  }

  /** Performing one more write after a sequence of writes. */
  lemma ApplyWritesSnoc(lay: Layout, buf: seq<U8>, ws: seq<PixelWrite>, w: PixelWrite)
    requires lay.Valid() && |buf| == lay.Size() && WritesFit(lay, ws)
    requires lay.InImage(w.pixel) && w.word < WORD_LIMIT
    ensures WritesFit(lay, ws + [w])
    ensures lay.Offset(w.pixel) + 4 <= lay.Size()
    ensures ApplyWrites(lay, buf, ws + [w]) ==
      WriteWord(ApplyWrites(lay, buf, ws), lay.Offset(w.pixel), w.word)
  {
    OffsetInBuffer(lay, w.pixel);
    assert (ws + [w])[..|ws|] == ws;
  }

  /** The word of the last write to pixel p, if any. */
  function LastWrite(ws: seq<PixelWrite>, p: Pixel): Option<nat> {
    if ws == [] then None
    else if ws[|ws| - 1].pixel == p then Some(ws[|ws| - 1].word)
    else LastWrite(ws[..|ws| - 1], p)
  }

  /** After a sequence of writes each pixel holds the word of its last
      write, and the original word when it was never written. */
  lemma {:induction false} ReadAfterWrites(lay: Layout, buf: seq<U8>, ws: seq<PixelWrite>, p: Pixel)
    requires lay.Valid() && |buf| == lay.Size() && WritesFit(lay, ws) && lay.InImage(p)
    ensures lay.Offset(p) + 4 <= lay.Size()
    ensures ReadWord(ApplyWrites(lay, buf, ws), lay.Offset(p)) ==
            if LastWrite(ws, p).Some? then LastWrite(ws, p).value else ReadWord(buf, lay.Offset(p))
  {
    OffsetInBuffer(lay, p);
    if ws != [] {
      var init := ws[..|ws| - 1];
      var last := ws[|ws| - 1];
      assert WritesFit(lay, init);
      var before := ApplyWrites(lay, buf, init);
      OffsetInBuffer(lay, last.pixel);
      if last.pixel == p {
        ReadAfterWriteSame(before, lay.Offset(p), last.word);
      } else {
        OffsetsDisjoint(lay, last.pixel, p);
        ReadAfterWriteOther(before, lay.Offset(last.pixel), last.word, lay.Offset(p));
        ReadAfterWrites(lay, buf, init, p);
      }
    }
  }

  /** The last write to p in a + b comes from b when b writes p at all. */
  lemma {:induction false} LastWriteAppend(a: seq<PixelWrite>, b: seq<PixelWrite>, p: Pixel)
    ensures LastWrite(a + b, p) ==
        if LastWrite(b, p).Some? then LastWrite(b, p) else LastWrite(a, p)
    decreases |b|
  {
    if b == [] {
      assert a + b == a;
    } else {
      assert (a + b)[..|a + b| - 1] == a + b[..|b| - 1];
      LastWriteAppend(a, b[..|b| - 1], p);
    }
  }

  /** Writes of `word` to pixels (row, 0) .. (row, n - 1). */
  function RowWrites(row: nat, n: nat, word: nat): seq<PixelWrite> {
    if n == 0 then [] else RowWrites(row, n - 1, word) + [PixelWrite(Pixel(row, n - 1), word)]
  }

  /** Writes of `word` to every pixel of the first n rows of the image. */
  function GridWrites(lay: Layout, n: nat, word: nat): seq<PixelWrite> {
    if n == 0 then [] else GridWrites(lay, n - 1, word) + RowWrites(n - 1, lay.width, word)
  }

  /** The background writes of the first n rows all land inside the image. */
  lemma {:induction false} GridWritesFit(lay: Layout, n: nat, word: nat)
    requires n <= lay.height && word < WORD_LIMIT
    ensures WritesFit(lay, GridWrites(lay, n, word))
  {
    if n > 0 {
      GridWritesFit(lay, n - 1, word);
      RowWritesFit(lay, n - 1, lay.width, word);
      WritesFitAppend(lay, GridWrites(lay, n - 1, word), RowWrites(n - 1, lay.width, word));
    }
  }

  lemma {:induction false} RowWritesFit(lay: Layout, row: nat, n: nat, word: nat)
    requires row < lay.height && n <= lay.width && word < WORD_LIMIT
    ensures WritesFit(lay, RowWrites(row, n, word))
  {
    if n > 0 {
      RowWritesFit(lay, row, n - 1, word);
      WritesFitAppend(lay, RowWrites(row, n - 1, word), [PixelWrite(Pixel(row, n - 1), word)]);
    }
  }

  lemma WritesFitAppend(lay: Layout, a: seq<PixelWrite>, b: seq<PixelWrite>)
    requires WritesFit(lay, a) && WritesFit(lay, b)
    ensures WritesFit(lay, a + b)
  {
    forall i | 0 <= i < |a + b|
      ensures lay.InImage((a + b)[i].pixel) && (a + b)[i].word < WORD_LIMIT
    {
      if i >= |a| {
        assert (a + b)[i] == b[i - |a|];
      }
    }
  }

  lemma {:induction false} GridWritesCover(lay: Layout, n: nat, word: nat, p: Pixel)
    requires p.row < n && p.col < lay.width
    ensures LastWrite(GridWrites(lay, n, word), p) == Some(word)
  {
    var row := RowWrites(n - 1, lay.width, word);
    LastWriteAppend(GridWrites(lay, n - 1, word), row, p);
    if p.row == n - 1 {
      RowWritesCover(n - 1, lay.width, word, p);
    } else {
      RowWritesMiss(n - 1, lay.width, word, p);
      GridWritesCover(lay, n - 1, word, p);
    }
  }

  lemma {:induction false} RowWritesCover(row: nat, n: nat, word: nat, p: Pixel)
    requires p.row == row && p.col < n
    ensures LastWrite(RowWrites(row, n, word), p) == Some(word)
  {
    LastWriteSnoc(RowWrites(row, n - 1, word), PixelWrite(Pixel(row, n - 1), word), p);
    if p.col != n - 1 {
      RowWritesCover(row, n - 1, word, p);
    }
  }

  lemma {:induction false} RowWritesMiss(row: nat, n: nat, word: nat, p: Pixel)
    requires p.row != row
    ensures LastWrite(RowWrites(row, n, word), p).None?
  {
    if n > 0 {
      LastWriteSnoc(RowWrites(row, n - 1, word), PixelWrite(Pixel(row, n - 1), word), p);
      RowWritesMiss(row, n - 1, word, p);
    }
  }

  /** The last write to p after one more write. */
  lemma LastWriteSnoc(ws: seq<PixelWrite>, w: PixelWrite, p: Pixel)
    ensures LastWrite(ws + [w], p) == if w.pixel == p then Some(w.word) else LastWrite(ws, p)
  {
    assert (ws + [w])[..|ws|] == ws;
  }

  /** The surface right after the background paint: every pixel of the
      image holds `word`; the padding at the end of each row is zero. */
  function Background(lay: Layout, word: nat): (buf: seq<U8>)
    requires lay.Valid() && word < WORD_LIMIT
    ensures |buf| == lay.Size()
    ensures forall p :: lay.InImage(p) ==>
      lay.Offset(p) + 4 <= |buf| && ReadWord(buf, lay.Offset(p)) == word
  {
    var ws := GridWrites(lay, lay.height, word);
    GridWritesFit(lay, lay.height, word);
    var buf := ApplyWrites(lay, seq(lay.Size(), i => 0), ws);
    forall p | lay.InImage(p)
      ensures lay.Offset(p) + 4 <= |buf| && ReadWord(buf, lay.Offset(p)) == word
    {
      GridWritesCover(lay, lay.height, word, p);
      ReadAfterWrites(lay, seq(lay.Size(), i => 0), ws, p);
    }
    buf
  }
}
