/** 1-bit-per-pixel images: font glyphs (rows of bytes, most significant
    bit first, each row padded to whole bytes) and bitmaps (one int per
    row, least significant bit first), drawn either pixel by pixel
    (_draw_glyph, draw_bitmap) or as one window streamed with foreground
    and background colours (_draw_glyph_fast, draw_bitmap_fast). */
module Glyphs {
  import opened Results
  import opened Bits
  import opened Bus
  import opened Color
  import opened Display
  import opened Panel

  /** A font glyph as get_ch returns it: data, height, width. */
  datatype Glyph = Glyph(data: seq<Byte>, height: int, width: int)

  /** Bytes per glyph row: the drawing loops step 8 columns per byte while
      the column is below the width. */
  function Stride(w: int): (s: nat)
    ensures w <= 0 ==> s == 0
    ensures w > 0 ==> 8 * s >= w && 8 * (s - 1) < w
  {
    if w <= 0 then 0 else (w + 7) / 8
  }

  /** The glyph holds every byte the drawing loops read. */
  predicate WellFormed(g: Glyph)
  {
    g.height >= 0 && g.width >= 0 && g.height * Stride(g.width) <= |g.data|
  }

  lemma RowIndex(r: int, h: int, s: int, j: int)
    requires 0 <= r < h && 0 <= j < s
    ensures 0 <= r * s + j < h * s
  {
    MulBelow(r, h, s);
  }

  /** Dot (r, c) of the glyph: bit 7 - c % 8 of byte r * Stride + c / 8. */
  predicate Ink(g: Glyph, r: int, c: int)
    requires WellFormed(g) && 0 <= r < g.height && 0 <= c < 8 * Stride(g.width)
  {
    RowIndex(r, g.height, Stride(g.width), c / 8);
    Bit(g.data[r * Stride(g.width) + c / 8], 7 - c % 8)
  }

  /** The set dots of row r, columns below n, as the points x + c, y + r. */
  function InkRow(g: Glyph, r: int, x: int, y: int, n: nat): (pts: seq<(int, int)>)
    requires WellFormed(g) && 0 <= r < g.height && n <= 8 * Stride(g.width)
    ensures forall c :: 0 <= c < n ==> (Ink(g, r, c) <==> (x + c, y + r) in pts)
    ensures forall p :: p in pts ==> p.1 == y + r && x <= p.0 < x + n
  {
    if n == 0 then []
    else InkRow(g, r, x, y, n - 1) + (if Ink(g, r, n - 1) then [(x + n - 1, y + r)] else [])
  }

  /** _draw_glyph: every set bit of every byte read, row by row, left to
      right, as one draw_pixel each.  Whole bytes are drawn, so a row
      covers 8 * Stride columns, the padding bits included. */
  function GlyphPoints(g: Glyph, x: int, y: int, rows: nat): (pts: seq<(int, int)>)
    requires WellFormed(g) && rows <= g.height
    ensures forall r, c :: 0 <= r < rows && 0 <= c < 8 * Stride(g.width) ==>
      (Ink(g, r, c) <==> (x + c, y + r) in pts)
    ensures forall p :: p in pts ==> y <= p.1 < y + rows && x <= p.0 < x + 8 * Stride(g.width)
  {
    if rows == 0 then []
    else GlyphPoints(g, x, y, rows - 1) + InkRow(g, rows - 1, x, y, 8 * Stride(g.width))
  }

  /** _draw_glyph: one draw_pixel per dot GlyphPoints lists, in order. */
  function DrawGlyph(d: Display, g: Glyph, x: int, y: int, color: int): (r: Trace)
    requires WellFormed(g)
    ensures var pts := GlyphPoints(g, x, y, g.height);
      var c := 12 + |PixelBytes(d.pixelFormat, color)|;
      |r| == |pts| * c
      && (forall i :: 0 <= i < |pts| ==>
            0 <= i * c && i * c + c <= |r| && r[i * c .. i * c + c] == DrawPixel(d, pts[i].0, pts[i].1, color))
  {
    DrawPixels(d, GlyphPoints(g, x, y, g.height), color)
  }

  /** Cell k of a row-major walk over a w-wide, h-high box lies inside
      it. */
  lemma CellInBox(k: int, w: int, h: int)
    requires h >= 0 && w >= 0 && 0 <= k < h * w
    ensures w > 0 && 0 <= k / w < h && 0 <= k % w < w
  {
    DivBelow(k, w, h);
  }

  /** Dot k of the row-major walk over the glyph's box. */
  predicate InkAt(g: Glyph, k: int)
    requires WellFormed(g) && 0 <= k < g.height * g.width
  {
    CellInBox(k, g.width, g.height);
    Ink(g, k / g.width, k % g.width)
  }

  /** The pixel groups _draw_glyph_fast streams, row-major over the
      glyph's width and height: the foreground colour's bytes for a set
      dot, the background's otherwise. */
  function GlyphColours(d: Display, g: Glyph, color: int, bg: int): (ps: seq<seq<Byte>>)
    requires WellFormed(g)
    ensures |ps| == g.height * g.width
  {
    seq(g.height * g.width, k requires 0 <= k < g.height * g.width =>
      PixelBytes(d.pixelFormat, if InkAt(g, k) then color else bg))
  }

  /** The innermost loop of _draw_glyph_fast: dots from bit 7 down, n of
      them. */
  method ByteDots(byte: Byte, n: int, fg: seq<Byte>, bk: seq<Byte>) returns (ps: seq<seq<Byte>>)
    requires 0 <= n <= 8
    ensures |ps| == n
    ensures forall dot :: 0 <= dot < n ==> ps[dot] == if Bit(byte, 7 - dot) then fg else bk
  {
    ps := [];
    var dot := 0;
    while dot < n
      invariant 0 <= dot <= n && |ps| == dot
      invariant forall j :: 0 <= j < dot ==> ps[j] == if Bit(byte, 7 - j) then fg else bk
    {
      ps := ps + [if Bit(byte, 7 - dot) then fg else bk];
      dot := dot + 1;
    }
  }

  /** One glyph row of _draw_glyph_fast: byte after byte (dots_sum steps
      by 8), each giving its dots up to the width. */
  method GlyphRow(d: Display, g: Glyph, row: int, color: int, bg: int) returns (ps: seq<seq<Byte>>)
    requires WellFormed(g) && 0 <= row < g.height
    ensures |ps| == g.width
    ensures forall c :: 0 <= c < g.width ==>
      ps[c] == PixelBytes(d.pixelFormat, if Ink(g, row, c) then color else bg)
  {
    var w, s := g.width, Stride(g.width);
    var fg, bk := PixelBytes(d.pixelFormat, color), PixelBytes(d.pixelFormat, bg);
    ps := [];
    var i := row * s;
    var dotsSum := 0;
    while dotsSum < w
      invariant 0 <= dotsSum && dotsSum % 8 == 0 && dotsSum <= 8 * s
      invariant i == row * s + dotsSum / 8
      invariant |ps| == (if dotsSum < w then dotsSum else w)
      invariant forall c :: 0 <= c < |ps| ==>
        ps[c] == PixelBytes(d.pixelFormat, if Ink(g, row, c) then color else bg)
    {
      RowIndex(row, g.height, s, dotsSum / 8);
      var n := if w - dotsSum < 8 then w - dotsSum else 8;
      var dots := ByteDots(g.data[i], n, fg, bk);
      DotsInk(d, g, row, dotsSum, g.data[i], dots, color, bg);
      ps := ps + dots;
      DivModOf(dotsSum + 8, 8, dotsSum / 8 + 1, 0);
      dotsSum := dotsSum + 8;
      i := i + 1;
    }
  }

  /** The dots one byte of row `row` gives are the row's dots from column
      base on. */
  lemma DotsInk(d: Display, g: Glyph, row: int, base: int, byte: Byte, dots: seq<seq<Byte>>, color: int, bg: int)
    requires WellFormed(g) && 0 <= row < g.height && 0 <= base && base % 8 == 0
    requires base + |dots| <= 8 * Stride(g.width) && |dots| <= 8
    requires 0 <= row * Stride(g.width) + base / 8 < |g.data| && byte == g.data[row * Stride(g.width) + base / 8]
    requires forall dot :: 0 <= dot < |dots| ==>
      dots[dot] == if Bit(byte, 7 - dot) then PixelBytes(d.pixelFormat, color) else PixelBytes(d.pixelFormat, bg)
    ensures forall dot :: 0 <= dot < |dots| ==>
      dots[dot] == PixelBytes(d.pixelFormat, if Ink(g, row, base + dot) then color else bg)
  {
    forall dot | 0 <= dot < |dots|
      ensures dots[dot] == PixelBytes(d.pixelFormat, if Ink(g, row, base + dot) then color else bg)
    {
      DivModOf(base + dot, 8, base / 8, dot);
    }
  }

  /** Entry row * w + c of GlyphColours is dot (row, c). */
  lemma GlyphColoursAt(d: Display, g: Glyph, color: int, bg: int, row: int, c: int)
    requires WellFormed(g) && 0 <= row < g.height && 0 <= c < g.width
    ensures 0 <= row * g.width + c < g.height * g.width
    ensures GlyphColours(d, g, color, bg)[row * g.width + c]
      == PixelBytes(d.pixelFormat, if Ink(g, row, c) then color else bg)
  {
    MulBelow(row, g.height, g.width);
    DivModOf(row * g.width + c, g.width, row, c);
  }

  /** What _draw_glyph_fast sends: the glyph's box as the window, then
      one pixel group per dot, row-major (no chip-select release; the
      callers send it at the end of the text). */
  function GlyphFastTrace(d: Display, g: Glyph, x: int, y: int, color: int, bg: int): (r: Trace)
    requires WellFormed(g)
    ensures |r| >= 11 && r[..11] == SetWindow(x, y, x + g.width - 1, y + g.height - 1)
  {
    SetWindow(x, y, x + g.width - 1, y + g.height - 1) + PixelStream(GlyphColours(d, g, color, bg))
  }

  /** _draw_glyph_fast: the window is the glyph's box, then its rows;
      they produce exactly the row-major stream of GlyphColours. */
  method DrawGlyphFast(d: Display, g: Glyph, x: int, y: int, color: int, bg: int)
    returns (trace: Trace)
    requires WellFormed(g)
    ensures trace == GlyphFastTrace(d, g, x, y, color, bg)
  {
    var ps := GlyphStream(d, g, color, bg);
    trace := SetWindow(x, y, x + g.width - 1, y + g.height - 1) + PixelStream(ps);
  }

  /** _draw_glyph_fast's row loop: the rows' dots one after the other are
      the row-major stream of GlyphColours. */
  method GlyphStream(d: Display, g: Glyph, color: int, bg: int) returns (ps: seq<seq<Byte>>)
    requires WellFormed(g)
    ensures ps == GlyphColours(d, g, color, bg)
  {
    var w, h := g.width, g.height;
    ghost var all := GlyphColours(d, g, color, bg);
    ps := [];
    for row := 0 to h
      invariant |ps| == row * w <= |all|
      invariant ps == all[..row * w]
    {
      var line := GlyphRow(d, g, row, color, bg);
      RowExtends(d, g, color, bg, row, line);
      ps := ps + line;
    }
    assert ps == all[..|all|];
  }

  /** The dots of glyph row `row` extend the row-major stream of the rows
      above it by one row. */
  lemma RowExtends(d: Display, g: Glyph, color: int, bg: int, row: int, line: seq<seq<Byte>>)
    requires WellFormed(g) && 0 <= row < g.height && |line| == g.width
    requires forall c :: 0 <= c < g.width ==>
      line[c] == PixelBytes(d.pixelFormat, if Ink(g, row, c) then color else bg)
    ensures var all := GlyphColours(d, g, color, bg);
      0 <= row * g.width <= (row + 1) * g.width <= |all|
      && all[..(row + 1) * g.width] == all[..row * g.width] + line
  {
    var w, all := g.width, GlyphColours(d, g, color, bg);
    if w > 0 {
      MulBelow(row, g.height, w);
    }
    forall c | 0 <= c < w
      ensures line[c] == all[row * w + c]
    {
      GlyphColoursAt(d, g, color, bg, row, c);
    }
    assert (row + 1) * w == row * w + w;
    SliceExtends(all, row * w, w, line);
  }

  /** On the panel, _draw_glyph_fast paints the glyph's box: dot (r, c)
      lands on pixel (x + c, y + r) in the foreground colour when set and
      in the background colour otherwise. */
  lemma GlyphFastOnPanel(p: Panel, d: Display, g: Glyph, x: int, y: int, color: int, bg: int, r: int, c: int)
    requires WellFormed(g) && p.bpp == BytesPerPixel(d.pixelFormat)
    requires 0 <= r < g.height && 0 <= c < g.width
    requires 0 <= x && x + g.width <= 0x10000 && 0 <= y && y + g.height <= 0x10000
    ensures var q := Run(p, GlyphFastTrace(d, g, x, y, color, bg));
      |q.written| == |p.written| + g.width * g.height && 0 <= r * g.width + c < g.width * g.height
      && q.written[|p.written| + r * g.width + c]
        == PixelWrite(x + c, y + r, PixelBytes(d.pixelFormat, if Ink(g, r, c) then color else bg))
  {
    var ps := GlyphColours(d, g, color, bg);
    assert |ps| == g.width * g.height;
    assert GlyphFastTrace(d, g, x, y, color, bg) == SetWindow(x, y, x + g.width - 1, y + g.height - 1) + PixelStream(ps);
    WindowStreamCells(p, x, y, g.width, g.height, ps, r, c);
    GlyphColoursAt(d, g, color, bg, r, c);
    assert ps[r * g.width + c] == PixelBytes(d.pixelFormat, if Ink(g, r, c) then color else bg);
  }

  /** _draw_glyph and _draw_glyph_fast agree inside the glyph's box: a dot
      gets the foreground colour in the fast stream exactly when the slow
      version draws a pixel there. */
  lemma GlyphSlowFastAgree(d: Display, g: Glyph, x: int, y: int, color: int, bg: int, r: int, c: int)
    requires WellFormed(g) && 0 <= r < g.height && 0 <= c < g.width
    ensures 0 <= r * g.width + c < g.height * g.width
    ensures GlyphColours(d, g, color, bg)[r * g.width + c]
      == PixelBytes(d.pixelFormat, if (x + c, y + r) in GlyphPoints(g, x, y, g.height) then color else bg)
  {
    GlyphColoursAt(d, g, color, bg, r, c);
  }

  /** The set bits of one bitmap row, least significant first, as the
      points x + c, y, for columns below n.  A row is any int, as
      `(row >> x) & 1` takes it. */
  function BitmapRow(row: int, x: int, y: int, n: nat): (pts: seq<(int, int)>)
    ensures forall c :: 0 <= c < n ==> (Bit(row, c) <==> (x + c, y) in pts)
    ensures forall p :: p in pts ==> p.1 == y && x <= p.0 < x + n
  {
    if n == 0 then []
    else BitmapRow(row, x, y, n - 1) + (if Bit(row, n - 1) then [(x + n - 1, y)] else [])
  }

  /** draw_bitmap: row y of the bitmap, bit c of it, draws (x + c, y0 + y);
      every row is used and `size` bits of each. */
  function BitmapPoints(bitmap: seq<int>, x: int, y: int, size: int): (pts: seq<(int, int)>)
    ensures forall r, c :: 0 <= r < |bitmap| && 0 <= c < size ==>
      (Bit(bitmap[r], c) <==> (x + c, y + r) in pts)
    ensures forall p :: p in pts ==> y <= p.1 < y + |bitmap| && x <= p.0 < x + size
  {
    if |bitmap| == 0 then []
    else
      var n := |bitmap| - 1;
      BitmapPoints(bitmap[..n], x, y, size) + BitmapRow(bitmap[n], x, y + n, if size > 0 then size else 0)
  }

  /** draw_bitmap: one draw_pixel per set bit, in the order BitmapPoints
      lists them. */
  function DrawBitmap(d: Display, bitmap: seq<int>, x: int, y: int, size: int, color: int): (r: Trace)
    ensures var pts := BitmapPoints(bitmap, x, y, size);
      var c := 12 + |PixelBytes(d.pixelFormat, color)|;
      |r| == |pts| * c
      && (forall i :: 0 <= i < |pts| ==>
            0 <= i * c && i * c + c <= |r| && r[i * c .. i * c + c] == DrawPixel(d, pts[i].0, pts[i].1, color))
  {
    DrawPixels(d, BitmapPoints(bitmap, x, y, size), color)
  }

  /** The rows draw_bitmap_fast gets through: `size` of them, or the whole
      bitmap when it is shorter (then `bitmap[y]` raises). */
  function FastRows(bitmap: seq<int>, size: int): (n: nat)
    ensures n <= |bitmap|
    ensures size > 0 ==> n <= size
    ensures size > |bitmap| ==> n == |bitmap|
    ensures 0 <= size <= |bitmap| ==> n == size
  {
    if size <= 0 then 0 else if size <= |bitmap| then size else |bitmap|
  }

  /** Dot k of the row-major walk over the rows the loop reaches. */
  predicate BitmapBit(bitmap: seq<int>, size: int, k: int)
    requires 0 < size && 0 <= k < FastRows(bitmap, size) * size
  {
    CellInBox(k, size, FastRows(bitmap, size));
    Bit(bitmap[k / size], k % size)
  }

  /** The pixel groups draw_bitmap_fast streams, row-major over `size`
      columns of each row it reaches. */
  function BitmapColours(d: Display, bitmap: seq<int>, size: int, color: int, bg: int): (ps: seq<seq<Byte>>)
    ensures |ps| == if size > 0 then FastRows(bitmap, size) * size else 0
    ensures forall k :: 0 <= k < |ps| ==>
      ps[k] == PixelBytes(d.pixelFormat, if BitmapBit(bitmap, size, k) then color else bg)
  {
    var n := if size > 0 then FastRows(bitmap, size) * size else 0;
    seq(n, k requires 0 <= k < n =>
      PixelBytes(d.pixelFormat, if BitmapBit(bitmap, size, k) then color else bg))
  }

  /** draw_bitmap_fast: the size x size window, then the stream, then chip
      select high.  A bitmap with fewer than `size` rows raises IndexError
      at `bitmap[y]` once its rows are sent: Err carries what went out,
      and chip select is left low. */
  function DrawBitmapFast(d: Display, bitmap: seq<int>, x: int, y: int, size: int, color: int, bg: int): (r: Result<Trace, Trace>)
    ensures r.Err? <==> size > |bitmap|
    ensures var t := if r.Ok? then r.value else r.error;
      |t| >= 11 && t[..11] == SetWindow(x, y, x + size - 1, y + size - 1)
    ensures r.Ok? ==> r.value[|r.value| - 1] == CsHigh
    ensures r.Err? ==> forall k :: 0 <= k < |r.error| ==> r.error[k] != CsHigh
  {
    var t := SetWindow(x, y, x + size - 1, y + size - 1) + PixelStream(BitmapColours(d, bitmap, size, color, bg));
    if size > |bitmap| then Err(t) else Ok(t + [CsHigh])
  }

  /** What draw_bitmap_fast sent, whether it finished or raised. */
  function Emitted(r: Result<Trace, Trace>): Trace
  {
    match r
    case Ok(t) => t
    case Err(t) => t
  }

  /** Dot r * size + c of the fast walk is bit c of row r. */
  lemma BitmapIndex(bitmap: seq<int>, size: int, r: int, c: int)
    requires 0 <= r < size && r < |bitmap| && 0 <= c < size
    ensures 0 <= r * size + c < FastRows(bitmap, size) * size
    ensures BitmapBit(bitmap, size, r * size + c) == Bit(bitmap[r], c)
  {
    MulBelow(r, FastRows(bitmap, size), size);
    DivModOf(r * size + c, size, r, c);
  }

  /** On the panel, draw_bitmap_fast paints the rows it reaches of the
      size x size box: bit c of row r lands on (x + c, y + r), foreground
      when set. */
  lemma BitmapFastOnPanel(p: Panel, d: Display, bitmap: seq<int>, x: int, y: int, size: int, color: int, bg: int, r: int, c: int)
    requires p.bpp == BytesPerPixel(d.pixelFormat)
    requires 0 <= r < size && r < |bitmap| && 0 <= c < size
    requires 0 <= x && x + size <= 0x10000 && 0 <= y && y + size <= 0x10000
    ensures var q := Run(p, Emitted(DrawBitmapFast(d, bitmap, x, y, size, color, bg)));
      var n := FastRows(bitmap, size) * size;
      |q.written| == |p.written| + n && 0 <= r * size + c < n
      && q.written[|p.written| + r * size + c]
        == PixelWrite(x + c, y + r, PixelBytes(d.pixelFormat, if Bit(bitmap[r], c) then color else bg))
  {
    var ps := BitmapColours(d, bitmap, size, color, bg);
    var t := SetWindow(x, y, x + size - 1, y + size - 1) + PixelStream(ps);
    WindowStreamWrites(p, x, y, size, size, ps);
    BitmapIndex(bitmap, size, r, c);
    DivModOf(r * size + c, size, r, c);
    if size > |bitmap| {
      assert Emitted(DrawBitmapFast(d, bitmap, x, y, size, color, bg)) == t;
    } else {
      RunAppend(p, t, [CsHigh]);
      RunOne(Run(p, t), CsHigh);
      assert Emitted(DrawBitmapFast(d, bitmap, x, y, size, color, bg)) == t + [CsHigh];
    }
  }

  /** draw_bitmap and draw_bitmap_fast agree on every row both reach: the
      fast stream has the foreground colour exactly where the slow version
      draws. */
  lemma BitmapSlowFastAgree(d: Display, bitmap: seq<int>, x: int, y: int, size: int, color: int, bg: int, r: int, c: int)
    requires 0 <= r < size && r < |bitmap| && 0 <= c < size
    ensures 0 <= r * size + c < |BitmapColours(d, bitmap, size, color, bg)|
    ensures BitmapColours(d, bitmap, size, color, bg)[r * size + c]
      == PixelBytes(d.pixelFormat, if (x + c, y + r) in BitmapPoints(bitmap, x, y, size) then color else bg)
  {
    BitmapIndex(bitmap, size, r, c);
    assert Bit(bitmap[r], c) <==> (x + c, y + r) in BitmapPoints(bitmap, x, y, size);
  }
}
