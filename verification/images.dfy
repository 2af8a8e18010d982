/** Image drawing from file contents: draw_raw_image (RGB565 bytes sent
    as they are) and draw_bmp (an uncompressed 24-bit BMP: header fields,
    acceptance test, 4-byte row stride, clipping to the screen, and each
    stored B, G, R triplet converted to the display's pixel format).  A
    file is its byte sequence; reading past its end is the None case. */
module Images {
  import opened Bits
  import opened Results
  import opened Bus
  import opened Color
  import opened Display
  import opened Panel

  /** The RGB565 file as pixel groups of two bytes, m of them. */
  function RawPixels(bytes: seq<Byte>, m: nat): (ps: seq<seq<Byte>>)
    requires 2 * m <= |bytes|
    ensures |ps| == m
  {
    if m == 0 then [] else RawPixels(bytes, m - 1) + [bytes[2 * m - 2 .. 2 * m]]
  }

  lemma {:induction false} RawPixelsSize(bytes: seq<Byte>, m: nat)
    requires 2 * m <= |bytes|
    ensures forall k :: 0 <= k < m ==> |RawPixels(bytes, m)[k]| == 2
  {
    if m > 0 {
      RawPixelsSize(bytes, m - 1);
    }
  }

  /** Group k is file bytes 2k and 2k + 1. */
  lemma {:induction false} RawPixelsAt(bytes: seq<Byte>, m: nat)
    requires 2 * m <= |bytes|
    ensures forall k :: 0 <= k < m ==> RawPixels(bytes, m)[k] == bytes[2 * k .. 2 * k + 2]
  {
    if m > 0 {
      RawPixelsAt(bytes, m - 1);
    }
  }

  /** Sending the first 2m bytes one by one is sending m pixel groups. */
  lemma {:induction false} RawBytesArePixels(bytes: seq<Byte>, m: nat)
    requires 2 * m <= |bytes|
    ensures DataBytes(bytes[..2 * m]) == PixelStream(RawPixels(bytes, m))
  {
    if m > 0 {
      var n := 2 * m - 2;
      var last := bytes[n .. n + 2];
      PixelStreamSnoc(RawPixels(bytes, m - 1), last);
      RawBytesArePixels(bytes, m - 1);
      TakeTwoMore(bytes, n);
      DataBytesAppend(bytes[..n], last);
    }
  }

  /** The first n + 2 bytes are the first n and the two after them. */
  lemma TakeTwoMore(bytes: seq<Byte>, n: nat)
    requires n + 2 <= |bytes|
    ensures bytes[..n + 2] == bytes[..n] + bytes[n .. n + 2]
  {
  }

  /** The number of pixels draw_raw_image sends: height rows of width
      pixels (none when either is not positive). */
  function RawCount(w: int, h: int): (m: nat)
    ensures w > 0 && h > 0 ==> m == w * h
    ensures w <= 0 || h <= 0 ==> m == 0
  {
    if w > 0 && h > 0 then w * h else 0
  }

  /** What memory holds past the end of the buffer a read returned: byte
      i of the buffer read for row `row`.  ptr8 indexing does not stop at
      the buffer's end, and what lies there is not known to the driver. */
  type Beyond = (int, int) -> Byte

  /** The bytes draw_raw_image sends: height rows of 2 * width bytes, each
      row from `f.read(2 * width)`.  Reads follow one another through the
      file, so byte j is file byte j while the file lasts; after its end
      the reads come back short or empty and the loop still sends
      2 * width bytes a row, taken from past the buffer. */
  function RawBytes(file: seq<Byte>, w: int, h: int, beyond: Beyond): (bs: seq<Byte>)
    ensures |bs| == 2 * RawCount(w, h)
    ensures forall j :: 0 <= j < |bs| && j < |file| ==> bs[j] == file[j]
    ensures w > 0 && h > 0 ==> forall j :: |file| <= j < |bs| ==> bs[j] == beyond(j / (2 * w), j % (2 * w))
  {
    if w <= 0 || h <= 0 then []
    else seq(2 * w * h, j requires 0 <= j < 2 * w * h => if j < |file| then file[j] else beyond(j / (2 * w), j % (2 * w)))
  }

  /** draw_raw_image: only in 16-bit mode (otherwise a message and nothing
      on the bus); the window, 2 * width * height bytes, chip select
      high. */
  function DrawRawImage(d: Display, file: seq<Byte>, x: int, y: int, w: int, h: int, beyond: Beyond): (r: Trace)
    ensures d.pixelFormat != Format16 ==> r == []
    ensures d.pixelFormat == Format16 ==>
      |r| == 12 + 2 * RawCount(w, h) && r[..11] == SetWindow(x, y, x + w - 1, y + h - 1)
      && r[|r| - 1] == CsHigh
      && forall j :: 0 <= j < 2 * RawCount(w, h) ==> r[11 + j] == Data(RawBytes(file, w, h, beyond)[j])
  {
    if d.pixelFormat != Format16 then []
    else SetWindow(x, y, x + w - 1, y + h - 1) + DataBytes(RawBytes(file, w, h, beyond)) + [CsHigh]
  }

  /** When the file holds the image, the bytes on the bus are its first
      2 * width * height bytes, in file order, whatever lies past it. */
  lemma RawImageBytes(d: Display, file: seq<Byte>, x: int, y: int, w: int, h: int, beyond: Beyond)
    requires d.pixelFormat == Format16 && 2 * RawCount(w, h) <= |file|
    ensures DrawRawImage(d, file, x, y, w, h, beyond)
      == SetWindow(x, y, x + w - 1, y + h - 1) + DataBytes(file[..2 * RawCount(w, h)]) + [CsHigh]
  {
    assert RawBytes(file, w, h, beyond) == file[..2 * RawCount(w, h)];
  }

  /** A window, a pixel stream and chip select high: the stream's groups
      are stored along the row-major walk of the window. */
  lemma ClosedWindowWrites(p: Panel, x: int, y: int, w: int, h: int, ps: seq<seq<Byte>>)
    requires p.bpp > 0 && forall i :: 0 <= i < |ps| ==> |ps[i]| == p.bpp
    requires w >= 1 && h >= 1
    requires 0 <= x && x + w <= 0x10000 && 0 <= y && y + h <= 0x10000
    ensures Run(p, SetWindow(x, y, x + w - 1, y + h - 1) + PixelStream(ps) + [CsHigh]).written
      == p.written + Walk(x, y, w, 0, ps)
  {
    var t := SetWindow(x, y, x + w - 1, y + h - 1) + PixelStream(ps);
    WindowStreamWrites(p, x, y, w, h, ps);
    RunAppend(p, t, [CsHigh]);
    RunOne(Run(p, t), CsHigh);
  }

  /** The same, cell by cell: cell (r, c) of the box gets group r * w + c. */
  lemma ClosedWindowCells(p: Panel, x: int, y: int, w: int, h: int, ps: seq<seq<Byte>>, r: int, c: int)
    requires p.bpp > 0 && forall i :: 0 <= i < |ps| ==> |ps[i]| == p.bpp
    requires w >= 1 && h >= 1 && |ps| == w * h && 0 <= r < h && 0 <= c < w
    requires 0 <= x && x + w <= 0x10000 && 0 <= y && y + h <= 0x10000
    ensures var q := Run(p, SetWindow(x, y, x + w - 1, y + h - 1) + PixelStream(ps) + [CsHigh]);
      |q.written| == |p.written| + w * h && 0 <= r * w + c < w * h
      && q.written[|p.written| + r * w + c] == PixelWrite(x + c, y + r, ps[r * w + c])
  {
    var t := SetWindow(x, y, x + w - 1, y + h - 1) + PixelStream(ps);
    WindowStreamCells(p, x, y, w, h, ps, r, c);
    RunAppend(p, t, [CsHigh]);
    RunOne(Run(p, t), CsHigh);
  }

  /** On a 16-bit panel, draw_raw_image stores its byte pairs along the
      row-major walk of the image's box; pair k is file bytes 2k and
      2k + 1 whenever the file reaches that far. */
  lemma RawImageOnPanel(p: Panel, d: Display, file: seq<Byte>, x: int, y: int, w: int, h: int, beyond: Beyond)
    requires d.pixelFormat == Format16 && p.bpp == 2
    requires w >= 1 && h >= 1
    requires 0 <= x && x + w <= 0x10000 && 0 <= y && y + h <= 0x10000
    ensures var ps := RawPixels(RawBytes(file, w, h, beyond), w * h);
      Run(p, DrawRawImage(d, file, x, y, w, h, beyond)).written == p.written + Walk(x, y, w, 0, ps)
      && forall k :: 0 <= k < w * h && 2 * k + 2 <= |file| ==> ps[k] == file[2 * k .. 2 * k + 2]
  {
    var bs := RawBytes(file, w, h, beyond);
    var m := w * h;
    var ps := RawPixels(bs, m);
    RawPixelsSize(bs, m);
    RawPairsFromFile(file, w, h, beyond);
    RawBytesArePixels(bs, m);
    assert bs[..2 * m] == bs;
    assert DrawRawImage(d, file, x, y, w, h, beyond) == SetWindow(x, y, x + w - 1, y + h - 1) + PixelStream(ps) + [CsHigh];
    ClosedWindowWrites(p, x, y, w, h, ps);
  }

  /** Pair k of the bytes sent is file bytes 2k and 2k + 1 when the file
      has them. */
  lemma RawPairsFromFile(file: seq<Byte>, w: int, h: int, beyond: Beyond)
    requires w >= 1 && h >= 1
    ensures 2 * (w * h) == |RawBytes(file, w, h, beyond)|
    ensures forall k :: 0 <= k < w * h && 2 * k + 2 <= |file| ==>
      RawPixels(RawBytes(file, w, h, beyond), w * h)[k] == file[2 * k .. 2 * k + 2]
  {
    var bs := RawBytes(file, w, h, beyond);
    RawPixelsAt(bs, w * h);
    forall k | 0 <= k < w * h && 2 * k + 2 <= |file|
      ensures bs[2 * k .. 2 * k + 2] == file[2 * k .. 2 * k + 2]
    {
      assert bs[2 * k] == file[2 * k] && bs[2 * k + 1] == file[2 * k + 1];
    }
  }

  /** `int.from_bytes(f.read(n), 'little')` at offset off: the bytes that
      exist, little-endian (none left reads as 0). */
  function Field(file: seq<Byte>, off: nat, n: nat): nat
  {
    var a := if off <= |file| then off else |file|;
    var b := if off + n <= |file| then off + n else |file|;
    FromLE(file[a..b])
  }

  /** The header fields draw_bmp reads, all unsigned. */
  datatype BmpHeader = BmpHeader(offset: nat, width: nat, height: nat, planes: nat, depth: nat, compress: nat)

  /** Little-endian value of four bytes. */
  function U32(b0: Byte, b1: Byte, b2: Byte, b3: Byte): nat
  {
    b0 as int + 256 * b1 as int + 65536 * b2 as int + 16777216 * b3 as int
  }

  lemma FromLETwo(bs: seq<Byte>)
    requires |bs| == 2
    ensures FromLE(bs) == bs[0] as int + 256 * bs[1] as int
  {
    var t1 := bs[1..];
    assert t1[1..] == [];
    assert FromLE(t1) == bs[1] as int;
  }

  /** The header: 'BM', then (after file size and creator bytes) the pixel
      offset at 10, header size at 14, width at 18, height at 22, planes at
      26, bits per pixel at 28 and compression at 30.  None unless the
      file starts with 'BM'. */
  function ParseBmp(file: seq<Byte>): (r: Option<BmpHeader>)
    ensures r.Some? <==> |file| >= 2 && file[0] == 0x42 && file[1] == 0x4D
  {
    if |file| >= 2 && file[0] == 0x42 && file[1] == 0x4D then
      Some(BmpHeader(Field(file, 10, 4), Field(file, 18, 4), Field(file, 22, 4),
        Field(file, 26, 2), Field(file, 28, 2), Field(file, 30, 4)))
    else None
  }

  /** Each field of a full header is its bytes, least significant first. */
  lemma ParseBmpFields(file: seq<Byte>)
    requires |file| >= 34 && file[0] == 0x42 && file[1] == 0x4D
    ensures var h := ParseBmp(file).value;
      && h.offset == U32(file[10], file[11], file[12], file[13])
      && h.width == U32(file[18], file[19], file[20], file[21])
      && h.height == U32(file[22], file[23], file[24], file[25])
      && h.planes == file[26] as int + 256 * file[27] as int
      && h.depth == file[28] as int + 256 * file[29] as int
      && h.compress == U32(file[30], file[31], file[32], file[33])
  {
    FromLEFour(file[10..14]);
    FromLEFour(file[18..22]);
    FromLEFour(file[22..26]);
    FromLETwo(file[26..28]);
    FromLETwo(file[28..30]);
    FromLEFour(file[30..34]);
  }

  /** One plane, 24 bits per pixel, no compression. */
  predicate Accepted(h: BmpHeader)
  {
    h.planes == 1 && h.depth == 24 && h.compress == 0
  }

  /** `(width * 3 + 3) & ~3`: three bytes per pixel rounded up to a whole
      number of 4-byte words. */
  function RowSize(width: nat): (r: nat)
    ensures r % 4 == 0 && 3 * width <= r <= 3 * width + 3
  {
    ((width * 3 + 3) / 4) * 4
  }

  /** The height as draw_bmp reads it: unsigned, so the `height < 0` branch
      that would make it positive never runs. */
  function BmpHeightAsWritten(h: BmpHeader): (r: int)
    ensures r >= 0
  {
    var height: int := h.height;
    if height < 0 then -height else height
  }

  /** The height field is a signed 32-bit value (negative for a top-down
      bitmap); its magnitude is the number of rows. */
  function BmpHeight(h: BmpHeader): (r: nat)
    ensures h.height < 0x8000_0000 ==> r == h.height
    ensures 0x8000_0000 <= h.height < 0x1_0000_0000 ==> r == 0x1_0000_0000 - h.height
  {
    var signed: int := if h.height >= 0x8000_0000 then h.height - 0x1_0000_0000 else h.height;
    if signed < 0 then -signed else signed
  }

  /** A top-down bitmap two rows high stores height -2 as FE FF FF FF:
      read unsigned that is 4294967294 rows, read signed it is 2. */
  lemma TopDownHeight()
    ensures var h := BmpHeader(54, 2, U32(0xFE, 0xFF, 0xFF, 0xFF), 1, 24, 0);
      BmpHeightAsWritten(h) == 4294967294 && BmpHeight(h) == 2
  {
  }

  /** The frame: the image clipped to the screen's right and bottom edges. */
  function Frame(d: Display, x: int, y: int, width: int, height: int): (r: (int, int))
    ensures r.0 <= width && r.1 <= height
    ensures r.0 == width || x + r.0 == d.width
    ensures r.1 == height || y + r.1 == d.height
    ensures x + r.0 <= d.width && y + r.1 <= d.height
  {
    (if x + width > d.width then d.width - x else width,
     if y + height > d.height then d.height - y else height)
  }

  /** The bytes sent for one stored triplet (B, G, R): in 16-bit mode
      `(R & 0xF8) | (G & 0xFC) >> 5` and `(G & 0x1C) << 3 | B >> 3`, else
      R, G, B. */
  function BmpPixel(code: int, b: Byte, g: Byte, r: Byte): (px: seq<Byte>)
    ensures |px| == BytesPerPixel(code)
  {
    if code == Format16 then [(r / 8) * 8 + g / 32, ((g / 4) % 8) * 32 + b / 8]
    else [r, g, b]
  }

  /** In 16-bit mode the two bytes are the RGB565 value of (R, G, B), high
      byte first, the same as rgb() (top bits) followed by the pixel split. */
  lemma BmpPixel565(b: Byte, g: Byte, r: Byte)
    ensures BmpPixel(Format16, b, g, r) == PixelBytes(Format16, Rgb(Format16, r, g, b))
  {
    var c := Rgb(Format16, r, g, b);
    var R, G, B := r / 8, g / 4, b / 8;
    assert c == (R * 8 + G / 8) * 256 + ((G % 8) * 32 + B);
    DivModOf(c, 256, R * 8 + G / 8, (G % 8) * 32 + B);
    assert G / 8 == g / 32;
  }

  /** In every format the panel sees the triplet's colour at the format's
      precision. */
  lemma BmpPixelOnPanel(code: int, b: Byte, g: Byte, r: Byte)
    ensures PanelChannels(code, BmpPixel(code, b, g, r)) == Quantize(code, r, g, b)
  {
    if code == Format16 {
      var px := BmpPixel(code, b, g, r);
      var R, G := r / 8, g / 4;
      DivModOf(px[0], 8, R, G / 8);
      DivModOf(px[1], 32, G % 8, b / 8);
      assert (G % 8) + (G / 8) * 8 == G;
    }
  }

  /** The triplet indices _send_bmp_to_display reads for a row, in order:
      `col * 3` for col = frame width down to 1. */
  function ColumnsAsWritten(fw: int): (cols: seq<int>)
    ensures |cols| == (if fw > 0 then fw else 0)
    ensures forall i :: 0 <= i < |cols| ==> cols[i] == fw - i
  {
    if fw <= 0 then [] else [fw] + ColumnsAsWritten(fw - 1)
  }

  /** The same loop reading triplet col - 1: the row right to left. */
  function Columns(fw: int): (cols: seq<int>)
    ensures |cols| == (if fw > 0 then fw else 0)
    ensures forall i :: 0 <= i < |cols| ==> cols[i] == fw - 1 - i
  {
    if fw <= 0 then [] else [fw - 1] + Columns(fw - 1)
  }

  /** A row read is 3 * fw bytes, fw triplets 0 .. fw - 1.  The loop as
      written reads triplet fw, past the bytes read, and never triplet 0;
      the corrected loop reads each triplet of the row exactly once. */
  lemma ColumnsCoverRow(fw: int)
    requires fw >= 1
    ensures fw in ColumnsAsWritten(fw) && 0 !in ColumnsAsWritten(fw)
    ensures forall t :: 0 <= t < fw <==> t in Columns(fw)
    ensures forall i, j :: 0 <= i < j < |Columns(fw)| ==> Columns(fw)[i] != Columns(fw)[j]
  {
    assert ColumnsAsWritten(fw)[0] == fw;
    forall t | 0 <= t < fw
      ensures t in Columns(fw)
    {
      assert Columns(fw)[fw - 1 - t] == t;
    }
  }

  /** The frame's rows are all inside the file. */
  predicate RowsInFile(file: seq<Byte>, offset: nat, rowsize: nat, fw: int, fh: int)
  {
    fw > 0 && fh > 0 ==> offset + (fh - 1) * rowsize + 3 * fw <= |file|
  }

  /** When row fh - 1 of the frame is in the file, so is row fh - 2. */
  lemma PrevRow(file: seq<Byte>, offset: nat, rowsize: nat, fw: nat, fh: nat)
    requires fh > 0 && RowsInFile(file, offset, rowsize, fw, fh)
    ensures RowsInFile(file, offset, rowsize, fw, fh - 1)
  {
    assert (fh - 1) * rowsize == (fh - 2) * rowsize + rowsize;
  }

  /** One frame row read from byte pos: column c of the frame is the
      row's stored triplet fw - 1 - c, since the loop sends the triplets
      last to first. */
  function BmpRow(code: int, file: seq<Byte>, pos: nat, fw: nat): (ps: seq<seq<Byte>>)
    requires pos + 3 * fw <= |file|
    ensures |ps| == fw
    ensures forall c :: 0 <= c < fw ==> |ps[c]| == BytesPerPixel(code)
  {
    var cols := Columns(fw);
    seq(fw, c requires 0 <= c < fw =>
      var t := pos + 3 * cols[c];
      BmpPixel(code, file[t], file[t + 1], file[t + 2]))
  }

  /** The pixel groups of a frame fw x fh, row by row from the pixel data
      at offset with the given stride.  Requires the rows to be in the
      file. */
  function BmpPixels(code: int, file: seq<Byte>, offset: nat, rowsize: nat, fw: nat, fh: nat): (ps: seq<seq<Byte>>)
    requires RowsInFile(file, offset, rowsize, fw, fh)
    ensures |ps| == fw * fh
    decreases fh
  {
    if fh == 0 || fw == 0 then []
    else
      PrevRow(file, offset, rowsize, fw, fh);
      var prev := BmpPixels(code, file, offset, rowsize, fw, fh - 1);
      assert |prev| + fw == fw * fh;
      prev + BmpRow(code, file, offset + (fh - 1) * rowsize, fw)
  }

  lemma {:induction false} BmpPixelsSize(code: int, file: seq<Byte>, offset: nat, rowsize: nat, fw: nat, fh: nat)
    requires RowsInFile(file, offset, rowsize, fw, fh)
    ensures forall i :: 0 <= i < fw * fh ==> |BmpPixels(code, file, offset, rowsize, fw, fh)[i]| == BytesPerPixel(code)
    decreases fh
  {
    if fh > 0 && fw > 0 {
      PrevRow(file, offset, rowsize, fw, fh);
      BmpPixelsSize(code, file, offset, rowsize, fw, fh - 1);
    }
  }

  /** Group r * fw + c is column c of frame row r: the triplet fw - 1 - c
      of that row in the file. */
  lemma {:induction false} BmpPixelsAt(code: int, file: seq<Byte>, offset: nat, rowsize: nat, fw: nat, fh: nat, r: nat, c: nat)
    requires RowsInFile(file, offset, rowsize, fw, fh)
    requires r < fh && c < fw
    decreases fh
    ensures var pos := offset + r * rowsize;
      r * fw + c < fw * fh && pos + 3 * fw <= |file|
      && BmpPixels(code, file, offset, rowsize, fw, fh)[r * fw + c] == BmpRow(code, file, pos, fw)[c]
  {
    PrevRow(file, offset, rowsize, fw, fh);
    var prev := BmpPixels(code, file, offset, rowsize, fw, fh - 1);
    var last := BmpRow(code, file, offset + (fh - 1) * rowsize, fw);
    assert BmpPixels(code, file, offset, rowsize, fw, fh) == prev + last;
    var k := r * fw + c;
    MulBelow(r, fh, fw);
    if r < fh - 1 {
      BmpPixelsAt(code, file, offset, rowsize, fw, fh - 1, r, c);
      assert k < |prev| && (prev + last)[k] == prev[k];
    } else {
      assert r == fh - 1 && k == |prev| + c;
      assert (prev + last)[k] == last[c];
    }
  }

  /** draw_bmp corrected: the height field read as signed and the row
      loop reading triplet col - 1.  A file that is not 'BM' or not an
      accepted format draws nothing; otherwise the frame's window, its
      pixels, chip select high.  None when the frame's rows run past the
      end of the file (where the driver would send whatever its reads
      left in memory, as DrawBmpAsWritten shows). */
  function DrawBmp(d: Display, file: seq<Byte>, x: int, y: int): (r: Option<Trace>)
    ensures ParseBmp(file).None? || !Accepted(ParseBmp(file).value) ==> r == Some([])
  {
    match ParseBmp(file)
    case None => Some([])
    case Some(h) => if Accepted(h) then DrawAccepted(d, file, x, y, h) else Some([])
  }

  /** The drawing part of the corrected draw_bmp once the header is
      accepted: None exactly when the frame's rows are not all in the
      file; otherwise the frame's window, its pixels, chip select high. */
  function DrawAccepted(d: Display, file: seq<Byte>, x: int, y: int, h: BmpHeader): (r: Option<Trace>)
    ensures var frame := Frame(d, x, y, h.width, BmpHeight(h));
      r.Some? <==> RowsInFile(file, h.offset, RowSize(h.width), Clamp(frame.0), Clamp(frame.1))
    ensures r.Some? ==> var frame := Frame(d, x, y, h.width, BmpHeight(h));
      |r.value| >= 12 && r.value[..11] == SetWindow(x, y, x + frame.0 - 1, y + frame.1 - 1)
      && r.value[|r.value| - 1] == CsHigh
  {
    var frame := Frame(d, x, y, h.width, BmpHeight(h));
    DrawFrame(d.pixelFormat, file, h.offset, RowSize(h.width), x, y, frame.0, frame.1)
  }

  /** A frame of fw × fh pixels at (x, y) whose rows start at offset, one
      every rowsize bytes: None exactly when its rows are not all in the
      file; otherwise its window, its pixels, chip select high. */
  function DrawFrame(code: int, file: seq<Byte>, offset: nat, rowsize: nat, x: int, y: int, fw: int, fh: int): (r: Option<Trace>)
    ensures r.Some? <==> RowsInFile(file, offset, rowsize, Clamp(fw), Clamp(fh))
    ensures r.Some? ==>
      |r.value| >= 12 && r.value[..11] == SetWindow(x, y, x + fw - 1, y + fh - 1) && r.value[|r.value| - 1] == CsHigh
  {
    if RowsInFile(file, offset, rowsize, Clamp(fw), Clamp(fh)) then
      Some(FrameTrace(x, y, fw, fh, BmpPixels(code, file, offset, rowsize, Clamp(fw), Clamp(fh))))
    else None
  }

  /** For an accepted file whose frame is not empty and whose rows are in
      the file, the trace is the frame's window, its pixel groups and chip
      select high. */
  lemma BmpTrace(d: Display, file: seq<Byte>, x: int, y: int, h: BmpHeader, fw: int, fh: int)
    requires ParseBmp(file) == Some(h) && Accepted(h)
    requires (fw, fh) == Frame(d, x, y, h.width, BmpHeight(h))
    requires fw >= 1 && fh >= 1 && RowsInFile(file, h.offset, RowSize(h.width), fw, fh)
    ensures DrawBmp(d, file, x, y)
      == Some(FrameTrace(x, y, fw, fh, BmpPixels(d.pixelFormat, file, h.offset, RowSize(h.width), fw, fh)))
  {
    assert DrawBmp(d, file, x, y) == DrawAccepted(d, file, x, y, h);
  }

  /** On a panel set to the display's format, the corrected draw_bmp
      stores the frame's pixel groups along the row-major walk of the
      frame. */
  lemma DrawBmpOnPanel(p: Panel, d: Display, file: seq<Byte>, x: int, y: int, h: BmpHeader, fw: int, fh: int)
    requires p.bpp == BytesPerPixel(d.pixelFormat)
    requires ParseBmp(file) == Some(h) && Accepted(h)
    requires 0 <= x && 0 <= y && d.width <= 0x10000 && d.height <= 0x10000
    requires (fw, fh) == Frame(d, x, y, h.width, BmpHeight(h))
    requires fw >= 1 && fh >= 1 && RowsInFile(file, h.offset, RowSize(h.width), fw, fh)
    ensures DrawBmp(d, file, x, y).Some?
    ensures Run(p, DrawBmp(d, file, x, y).value).written
      == p.written + Walk(x, y, fw, 0, BmpPixels(d.pixelFormat, file, h.offset, RowSize(h.width), fw, fh))
  {
    var ps := BmpPixels(d.pixelFormat, file, h.offset, RowSize(h.width), fw, fh);
    BmpTrace(d, file, x, y, h, fw, fh);
    assert FrameTrace(x, y, fw, fh, ps) == SetWindow(x, y, x + fw - 1, y + fh - 1) + PixelStream(ps) + [CsHigh];
    BmpPixelsSize(d.pixelFormat, file, h.offset, RowSize(h.width), fw, fh);
    ClosedWindowWrites(p, x, y, fw, fh, ps);
  }

  /** Cell by cell: the group DrawBmpOnPanel stores for column c of frame
      row r goes to (x + c, y + r) and has the colour of the row's stored
      triplet fw - 1 - c. */
  lemma BmpCell(code: int, file: seq<Byte>, offset: nat, rowsize: nat, x: int, y: int, fw: nat, fh: nat, r: nat, c: nat)
    requires RowsInFile(file, offset, rowsize, fw, fh)
    requires r < fh && c < fw
    ensures var t := offset + r * rowsize + 3 * (fw - 1 - c);
      var k := r * fw + c;
      0 <= k < fw * fh && 0 <= t && t + 2 < |file|
      && BmpPixels(code, file, offset, rowsize, fw, fh)[k] == BmpPixel(code, file[t], file[t + 1], file[t + 2])
      && Cell(x, y, fw, k) == (x + c, y + r)
  {
    MulNonneg(r, rowsize);
    BmpPixelsAt(code, file, offset, rowsize, fw, fh, r, c);
    var pos := offset + r * rowsize;
    var t := pos + 3 * (fw - 1 - c);
    assert Columns(fw)[c] == fw - 1 - c;
    assert BmpRow(code, file, pos, fw)[c] == BmpPixel(code, file[t], file[t + 1], file[t + 2]);
    DivModOf(r * fw + c, fw, r, c);
  }

  /** `f.read(n)` at byte pos: what the file has there, at most n bytes. */
  function ReadAt(file: seq<Byte>, pos: nat, n: nat): (buf: seq<Byte>)
    ensures |buf| <= n
    ensures pos + n <= |file| ==> buf == file[pos .. pos + n]
    ensures forall i :: 0 <= i < |buf| ==> pos + i < |file| && buf[i] == file[pos + i]
  {
    if pos >= |file| then [] else file[pos .. if pos + n <= |file| then pos + n else |file|]
  }

  /** Byte i through the pointer to the buffer read for frame row `row`:
      the buffer's byte, or memory past the buffer. */
  function BufferByte(buf: seq<Byte>, row: int, i: int, beyond: Beyond): (b: Byte)
    ensures 0 <= i < |buf| ==> b == buf[i]
    ensures i >= |buf| ==> b == beyond(row, i)
  {
    if 0 <= i < |buf| then buf[i] else beyond(row, i)
  }

  /** The row loop as written, on frame row `row` read from byte pos: the
      3 * fw bytes read, then triplet col for each col of
      ColumnsAsWritten. */
  function BmpRowAsWritten(code: int, file: seq<Byte>, pos: nat, fw: nat, row: int, beyond: Beyond): (ps: seq<seq<Byte>>)
    ensures |ps| == fw
    ensures forall c :: 0 <= c < fw ==> |ps[c]| == BytesPerPixel(code)
  {
    var buf := ReadAt(file, pos, 3 * fw);
    var cols := ColumnsAsWritten(fw);
    seq(fw, c requires 0 <= c < fw =>
      var t := 3 * cols[c];
      BmpPixel(code, BufferByte(buf, row, t, beyond), BufferByte(buf, row, t + 1, beyond), BufferByte(buf, row, t + 2, beyond)))
  }

  /** A row as written, whole in the file, is the corrected row shifted
      one column right: column 0 comes from past the buffer (triplet fw)
      and column c >= 1 is the corrected column c - 1, so the row's
      first stored triplet is never sent. */
  lemma BmpRowShift(code: int, file: seq<Byte>, pos: nat, fw: nat, row: int, beyond: Beyond)
    requires fw >= 1 && pos + 3 * fw <= |file|
    ensures var ps := BmpRowAsWritten(code, file, pos, fw, row, beyond);
      ps[0] == BmpPixel(code, beyond(row, 3 * fw), beyond(row, 3 * fw + 1), beyond(row, 3 * fw + 2))
      && ps[1..] == BmpRow(code, file, pos, fw)[..fw - 1]
  {
    var ps := BmpRowAsWritten(code, file, pos, fw, row, beyond);
    var fixed := BmpRow(code, file, pos, fw);
    OverrunColumn(code, file, pos, fw, row, beyond);
    var shifted: seq<seq<Byte>> := ps[1..];
    var kept: seq<seq<Byte>> := fixed[..fw - 1];
    forall i | 0 <= i < fw - 1
      ensures shifted[i] == kept[i]
    {
      ShiftedColumn(code, file, pos, fw, row, beyond, i + 1);
    }
    assert shifted == kept;
  }

  /** Column 0 as written is triplet fw, just past the bytes read. */
  lemma OverrunColumn(code: int, file: seq<Byte>, pos: nat, fw: nat, row: int, beyond: Beyond)
    requires fw >= 1 && pos + 3 * fw <= |file|
    ensures BmpRowAsWritten(code, file, pos, fw, row, beyond)[0]
      == BmpPixel(code, beyond(row, 3 * fw), beyond(row, 3 * fw + 1), beyond(row, 3 * fw + 2))
  {
    assert ColumnsAsWritten(fw)[0] == fw;
    assert |ReadAt(file, pos, 3 * fw)| == 3 * fw;
  }

  /** Column c >= 1 as written is the corrected column c - 1. */
  lemma ShiftedColumn(code: int, file: seq<Byte>, pos: nat, fw: nat, row: int, beyond: Beyond, c: nat)
    requires 1 <= c < fw && pos + 3 * fw <= |file|
    ensures BmpRowAsWritten(code, file, pos, fw, row, beyond)[c] == BmpRow(code, file, pos, fw)[c - 1]
  {
    var buf := ReadAt(file, pos, 3 * fw);
    var t := 3 * (fw - c);
    assert ColumnsAsWritten(fw)[c] == fw - c && Columns(fw)[c - 1] == fw - c;
    assert BufferByte(buf, row, t, beyond) == file[pos + t];
    assert BufferByte(buf, row, t + 1, beyond) == file[pos + t + 1];
    assert BufferByte(buf, row, t + 2, beyond) == file[pos + t + 2];
  }

  /** Where frame row r starts in the file. */
  function RowStart(offset: nat, rowsize: nat, r: nat): (pos: nat)
    ensures pos == offset + r * rowsize
  {
    MulNonneg(r, rowsize);
    offset + r * rowsize
  }

  /** The frame as written, row-major: group k is column k % fw of frame
      row k / fw as written, that row read from RowStart(offset,
      rowsize, k / fw). */
  function BmpPixelsAsWritten(code: int, file: seq<Byte>, offset: nat, rowsize: nat, fw: nat, fh: nat, beyond: Beyond): (ps: seq<seq<Byte>>)
    ensures |ps| == fw * fh
    ensures forall k :: 0 <= k < |ps| ==> |ps[k]| == BytesPerPixel(code)
  {
    if fw == 0 then []
    else
      seq(fw * fh, k requires 0 <= k < fw * fh =>
        BmpRowAsWritten(code, file, RowStart(offset, rowsize, k / fw), fw, k / fw, beyond)[k % fw])
  }

  /** Group r * fw + c of the frame as written is column c of row r as
      written. */
  lemma BmpPixelsAsWrittenAt(code: int, file: seq<Byte>, offset: nat, rowsize: nat, fw: nat, fh: nat, beyond: Beyond, r: nat, c: nat)
    requires r < fh && c < fw
    ensures var ps := BmpPixelsAsWritten(code, file, offset, rowsize, fw, fh, beyond);
      r * fw + c < fw * fh
      && ps[r * fw + c] == BmpRowAsWritten(code, file, RowStart(offset, rowsize, r), fw, r, beyond)[c]
  {
    var k := r * fw + c;
    MulBelow(r, fh, fw);
    assert fh * fw == fw * fh;
    DivModOf(k, fw, r, c);
    assert BmpPixelsAsWritten(code, file, offset, rowsize, fw, fh, beyond)[k]
      == BmpRowAsWritten(code, file, RowStart(offset, rowsize, k / fw), fw, k / fw, beyond)[k % fw];
  }

  /** draw_bmp as written: the height field read unsigned, the frame
      clipped to the screen, and every frame row sent through the row
      loop as written, from the file or from past the buffer when the
      file runs out.  There is no failure: the bus always carries the
      window, the frame's pixels and chip select high. */
  function DrawBmpAsWritten(d: Display, file: seq<Byte>, x: int, y: int, beyond: Beyond): (r: Trace)
    ensures ParseBmp(file).None? || !Accepted(ParseBmp(file).value) ==> r == []
  {
    match ParseBmp(file)
    case None => []
    case Some(h) => if Accepted(h) then DrawAcceptedAsWritten(d, file, x, y, h, beyond) else []
  }

  /** A frame on the bus: its window, its pixel groups, chip select
      high. */
  function FrameTrace(x: int, y: int, fw: int, fh: int, ps: seq<seq<Byte>>): (r: Trace)
    ensures |r| >= 12 && r[..11] == SetWindow(x, y, x + fw - 1, y + fh - 1) && r[|r| - 1] == CsHigh
  {
    SetWindow(x, y, x + fw - 1, y + fh - 1) + PixelStream(ps) + [CsHigh]
  }

  /** A frame side as a loop bound: range() of a negative count runs no
      times. */
  function Clamp(n: int): (m: nat)
    ensures n >= 0 ==> m == n
    ensures n < 0 ==> m == 0
  {
    if n > 0 then n else 0
  }

  /** The drawing part of draw_bmp as written once the header is
      accepted: the clipped frame's window, its rows as written, chip
      select high. */
  function DrawAcceptedAsWritten(d: Display, file: seq<Byte>, x: int, y: int, h: BmpHeader, beyond: Beyond): Trace
  {
    var frame := Frame(d, x, y, h.width, BmpHeightAsWritten(h));
    FrameTrace(x, y, frame.0, frame.1,
      BmpPixelsAsWritten(d.pixelFormat, file, h.offset, RowSize(h.width), Clamp(frame.0), Clamp(frame.1), beyond))
  }

  /** A top-down file (height field FFFFFFFF down to 80000000, a negative
      signed value) is read as more rows than any screen has, so the
      window as written always runs to the screen's bottom edge, whereas
      the corrected frame is the image's own |height| rows when they
      fit. */
  lemma TopDownAsWritten(d: Display, file: seq<Byte>, x: int, y: int, beyond: Beyond)
    requires ParseBmp(file).Some? && Accepted(ParseBmp(file).value)
    requires 0x8000_0000 <= ParseBmp(file).value.height < 0x1_0000_0000
    requires 0 <= y < d.height <= 0x8000_0000
    ensures var h := ParseBmp(file).value;
      var fw := Frame(d, x, y, h.width, BmpHeight(h)).0;
      var r := DrawBmpAsWritten(d, file, x, y, beyond);
      |r| >= 11 && r[..11] == SetWindow(x, y, x + fw - 1, d.height - 1)
      && (y + BmpHeight(h) <= d.height ==> Frame(d, x, y, h.width, BmpHeight(h)).1 == BmpHeight(h))
  {
    AcceptedAsWritten(d, file, x, y, ParseBmp(file).value, beyond);
  }

  /** On a panel set to the display's format, cell (x + c, y + r) of the
      frame gets column c of frame row r as written; with the row in the
      file that is stored triplet fw - c for c >= 1 (the corrected draw
      puts it one column to the left) and memory past the buffer for
      c == 0. */
  lemma BmpAsWrittenOnPanel(p: Panel, d: Display, file: seq<Byte>, x: int, y: int, h: BmpHeader, fw: int, fh: int, beyond: Beyond, r: int, c: int)
    requires p.bpp == BytesPerPixel(d.pixelFormat)
    requires ParseBmp(file) == Some(h) && Accepted(h)
    requires 0 <= x && 0 <= y && d.width <= 0x10000 && d.height <= 0x10000
    requires (fw, fh) == Frame(d, x, y, h.width, BmpHeightAsWritten(h))
    requires fw >= 1 && fh >= 1 && 0 <= r < fh && 0 <= c < fw
    ensures var q := Run(p, DrawBmpAsWritten(d, file, x, y, beyond));
      var pos := RowStart(h.offset, RowSize(h.width), r);
      |q.written| == |p.written| + fw * fh && 0 <= r * fw + c < fw * fh
      && q.written[|p.written| + r * fw + c]
        == PixelWrite(x + c, y + r, BmpRowAsWritten(d.pixelFormat, file, pos, fw, r, beyond)[c])
  {
    var ps := BmpPixelsAsWritten(d.pixelFormat, file, h.offset, RowSize(h.width), fw, fh, beyond);
    BmpAsWrittenTrace(d, file, x, y, h, fw, fh, beyond);
    assert FrameTrace(x, y, fw, fh, ps) == SetWindow(x, y, x + fw - 1, y + fh - 1) + PixelStream(ps) + [CsHigh];
    BmpPixelsAsWrittenAt(d.pixelFormat, file, h.offset, RowSize(h.width), fw, fh, beyond, r, c);
    ClosedWindowCells(p, x, y, fw, fh, ps, r, c);
  }

  /** For an accepted file with a non-empty frame, the trace as written is
      the frame's window, the frame's rows as written and chip select
      high. */
  lemma BmpAsWrittenTrace(d: Display, file: seq<Byte>, x: int, y: int, h: BmpHeader, fw: int, fh: int, beyond: Beyond)
    requires ParseBmp(file) == Some(h) && Accepted(h)
    requires (fw, fh) == Frame(d, x, y, h.width, BmpHeightAsWritten(h))
    requires fw >= 1 && fh >= 1
    ensures DrawBmpAsWritten(d, file, x, y, beyond)
      == FrameTrace(x, y, fw, fh, BmpPixelsAsWritten(d.pixelFormat, file, h.offset, RowSize(h.width), fw, fh, beyond))
  {
    AcceptedAsWritten(d, file, x, y, h, beyond);
  }

  /** An accepted header leaves draw_bmp as written to its drawing part. */
  lemma AcceptedAsWritten(d: Display, file: seq<Byte>, x: int, y: int, h: BmpHeader, beyond: Beyond)
    requires ParseBmp(file) == Some(h) && Accepted(h)
    ensures DrawBmpAsWritten(d, file, x, y, beyond) == DrawAcceptedAsWritten(d, file, x, y, h, beyond)
  {
  }
}
