/** A reference model of the controller side of the bus, used to state what
    the driver's traces do to the panel: the column/page address commands
    (0x2A, 0x2B) set the drawing window, memory write (0x2C) puts the cursor
    at the window's top-left corner, and each group of pixel bytes is
    stored at the cursor, which then advances left to right and wraps to
    the next row at the window's right edge.  Pixel format (0x3A) sets how
    many bytes make a pixel.  This is the behaviour the ILI9341, ILI9486 and
    ILI9488 datasheets give for the 8080 parallel interface; other commands
    only end an argument or pixel stream. */
module Panel {
  import opened Bits
  import opened Bus
  import opened Color
  import opened Display

  datatype Phase =
    | Idle
    | ColumnArgs(got: seq<Byte>)
    | PageArgs(got: seq<Byte>)
    | FormatArg
    | Writing(pending: seq<Byte>)

  datatype PixelWrite = PixelWrite(x: int, y: int, px: seq<Byte>)

  datatype Panel = Panel(
    xs: int, xe: int, ys: int, ye: int,   // window
    cx: int, cy: int,                     // memory-write cursor
    phase: Phase,
    bpp: nat,                             // bytes per pixel
    written: seq<PixelWrite>)             // every pixel stored, in order

  /** The cursor after one pixel. */
  function Advance(p: Panel): Panel
  {
    if p.cx < p.xe then p.(cx := p.cx + 1) else p.(cx := p.xs, cy := p.cy + 1)
  }

  /** A 16-bit argument sent high byte first. */
  function Join(hi: Byte, lo: Byte): int
  {
    hi as int * 256 + lo as int
  }

  function Step(p: Panel, e: BusEvent): Panel
  {
    match e
    case Cmd(c) =>
      if c == 0x2A then p.(phase := ColumnArgs([]))
      else if c == 0x2B then p.(phase := PageArgs([]))
      else if c == 0x2C then p.(phase := Writing([]), cx := p.xs, cy := p.ys)
      else if c == 0x3A then p.(phase := FormatArg)
      else p.(phase := Idle)
    case Data(b) => DataStep(p, b)
    case _ => p
  }

  /** One byte with DC high. */
  function DataStep(p: Panel, b: Byte): Panel
  {
    match p.phase
    case Idle => p
    case FormatArg => p.(bpp := BytesPerPixel(b), phase := Idle)
    case ColumnArgs(got) =>
      if |got| == 3 then p.(xs := Join(got[0], got[1]), xe := Join(got[2], b), phase := Idle)
      else p.(phase := ColumnArgs(got + [b]))
    case PageArgs(got) =>
      if |got| == 3 then p.(ys := Join(got[0], got[1]), ye := Join(got[2], b), phase := Idle)
      else p.(phase := PageArgs(got + [b]))
    case Writing(pending) =>
      var q := pending + [b];
      if |q| >= p.bpp then Store(p, q) else p.(phase := Writing(q))
  }

  function Run(p: Panel, es: Trace): Panel
    decreases |es|
  {
    if |es| == 0 then p else Run(Step(p, es[0]), es[1..])
  }

  lemma {:induction false} RunAppend(p: Panel, a: Trace, b: Trace)
    decreases |a|
    ensures Run(p, a + b) == Run(Run(p, a), b)
  {
    if |a| > 0 {
      assert (a + b)[1..] == a[1..] + b;
      RunAppend(Step(p, a[0]), a[1..], b);
    } else {
      assert a + b == b;
    }
  }

  lemma RunOne(p: Panel, e: BusEvent)
    ensures Run(p, [e]) == Step(p, e)
  {
    assert [e][1..] == [];
  }

  /** Four argument bytes after 0x2A (or 0x2B) set the window's range. */
  lemma {:induction false} RangeArgs(p: Panel, cmd: Byte, a: Byte, b: Byte, c: Byte, e: Byte)
    requires cmd == 0x2A || cmd == 0x2B
    ensures var q := Run(p, [Cmd(cmd), Data(a), Data(b), Data(c), Data(e)]);
      if cmd == 0x2A then q == p.(xs := Join(a, b), xe := Join(c, e), phase := Idle)
      else q == p.(ys := Join(a, b), ye := Join(c, e), phase := Idle)
  {
    var es := [Cmd(cmd), Data(a), Data(b), Data(c), Data(e)];
    assert es == [Cmd(cmd)] + [Data(a)] + [Data(b)] + [Data(c)] + [Data(e)];
    RunAppend(p, [Cmd(cmd)] + [Data(a)] + [Data(b)] + [Data(c)], [Data(e)]);
    RunAppend(p, [Cmd(cmd)] + [Data(a)] + [Data(b)], [Data(c)]);
    RunAppend(p, [Cmd(cmd)] + [Data(a)], [Data(b)]);
    RunAppend(p, [Cmd(cmd)], [Data(a)]);
    var p1 := Run(p, [Cmd(cmd)]);
    RunOne(p, Cmd(cmd));
    var p2 := Run(p1, [Data(a)]);
    RunOne(p1, Data(a));
    var p3 := Run(p2, [Data(b)]);
    RunOne(p2, Data(b));
    var p4 := Run(p3, [Data(c)]);
    RunOne(p3, Data(c));
    RunOne(p4, Data(e));
  }

  /** set_window leaves the panel with the requested window, the cursor at
      its top-left corner and memory write open, for coordinates that fit
      in 16 bits. */
  lemma SetWindowEffect(p: Panel, x0: int, y0: int, x1: int, y1: int)
    requires 0 <= x0 < 0x10000 && 0 <= x1 < 0x10000 && 0 <= y0 < 0x10000 && 0 <= y1 < 0x10000
    ensures Run(p, SetWindow(x0, y0, x1, y1))
      == p.(xs := x0, xe := x1, ys := y0, ye := y1, cx := x0, cy := y0, phase := Writing([]))
  {
    var w := SetWindow(x0, y0, x1, y1);
    SetWindowDecodes(x0, y0, x1, y1);
    assert w == w[..5] + w[5..10] + [w[10]];
    RunAppend(p, w[..5] + w[5..10], [w[10]]);
    RunAppend(p, w[..5], w[5..10]);
    assert w[..5] == [Cmd(0x2A), Data(w[1].b), Data(w[2].b), Data(w[3].b), Data(w[4].b)];
    RangeArgs(p, 0x2A, w[1].b, w[2].b, w[3].b, w[4].b);
    var p1 := Run(p, w[..5]);
    assert w[5..10] == [Cmd(0x2B), Data(w[6].b), Data(w[7].b), Data(w[8].b), Data(w[9].b)];
    RangeArgs(p1, 0x2B, w[6].b, w[7].b, w[8].b, w[9].b);
    RunOne(Run(p1, w[5..10]), w[10]);
  }

  /** The pixel the cursor stores when a group of bytes completes. */
  function Store(p: Panel, px: seq<Byte>): Panel
  {
    Advance(p.(written := p.written + [PixelWrite(p.cx, p.cy, px)], phase := Writing([])))
  }

  /** The rest of a pixel's bytes complete it. */
  lemma {:induction false} FinishPixel(p: Panel, q: seq<Byte>, s: seq<Byte>)
    requires p.phase == Writing(q) && |s| > 0 && |q| + |s| == p.bpp
    decreases |s|
    ensures Run(p, DataBytes(s)) == Store(p, q + s)
  {
    var p1 := Step(p, Data(s[0]));
    var es := DataBytes(s);
    assert es[0] == Data(s[0]) && es[1..] == DataBytes(s[1..]);
    assert Run(p, es) == Run(p1, DataBytes(s[1..]));
    PixelByte(p, q, s[0]);
    if |s| == 1 {
      assert q + s == q + [s[0]];
      assert DataBytes(s[1..]) == [];
    } else {
      FinishPixel(p1, q + [s[0]], s[1..]);
      assert (q + [s[0]]) + s[1..] == q + s;
    }
  }

  /** One byte of a pixel: the last one stores the pixel, any other is
      held back. */
  lemma PixelByte(p: Panel, q: seq<Byte>, b: Byte)
    requires p.phase == Writing(q) && |q| < p.bpp
    ensures |q| + 1 == p.bpp ==> Step(p, Data(b)) == Store(p, q + [b])
    ensures |q| + 1 < p.bpp ==> Step(p, Data(b)) == p.(phase := Writing(q + [b]))
  {
  }

  /** Position k of a row-major walk over a window w pixels wide. */
  function Cell(x: int, y: int, w: int, k: int): (int, int)
    requires w > 0
  {
    (x + k % w, y + k / w)
  }

  /** The row-major walk with its pixel. */
  function RowMajor(x: int, y: int, w: int, k0: nat, n: nat, px: seq<Byte>): (r: seq<PixelWrite>)
    requires w > 0
    ensures |r| == n
    ensures forall i :: 0 <= i < n ==>
      r[i] == PixelWrite(Cell(x, y, w, k0 + i).0, Cell(x, y, w, k0 + i).1, px)
  {
    seq(n, i requires 0 <= i < n => PixelWrite(Cell(x, y, w, k0 + i).0, Cell(x, y, w, k0 + i).1, px))
  }

  /** The cursor advance is the next cell of the walk. */
  lemma AdvanceIsNextCell(p: Panel, k: nat)
    requires p.xe >= p.xs
    requires (p.cx, p.cy) == Cell(p.xs, p.ys, p.xe - p.xs + 1, k)
    ensures var a := Advance(p); (a.cx, a.cy) == Cell(p.xs, p.ys, p.xe - p.xs + 1, k + 1)
  {
    var w := p.xe - p.xs + 1;
    if k % w < w - 1 {
      DivModOf(k + 1, w, k / w, k % w + 1);
    } else {
      DivModOf(k + 1, w, k / w + 1, 0);
    }
  }

  /** One pixel's bytes, sent at cell k of the walk, store that pixel there
      and move the cursor to cell k + 1; nothing else changes. */
  lemma PixelStep(q: Panel, px: seq<Byte>, k: nat)
    requires q.phase == Writing([]) && |px| == q.bpp && |px| > 0 && q.xe >= q.xs
    requires (q.cx, q.cy) == Cell(q.xs, q.ys, q.xe - q.xs + 1, k)
    ensures var r := Run(q, DataBytes(px));
      r == q.(written := q.written + [PixelWrite(q.cx, q.cy, px)], cx := r.cx, cy := r.cy)
      && (r.cx, r.cy) == Cell(q.xs, q.ys, q.xe - q.xs + 1, k + 1)
  {
    FinishPixel(q, [], px);
    assert [] + px == px;
    AdvanceIsNextCell(q.(written := q.written + [PixelWrite(q.cx, q.cy, px)], phase := Writing([])), k);
  }

  /** A burst of n pixels from cell k0 stores them along the row-major walk. */
  lemma {:induction false} BurstWalk(p: Panel, px: seq<Byte>, n: nat, k0: nat)
    requires p.phase == Writing([]) && |px| == p.bpp && |px| > 0 && p.xe >= p.xs
    requires (p.cx, p.cy) == Cell(p.xs, p.ys, p.xe - p.xs + 1, k0)
    decreases n
    ensures var q := Run(p, Burst(px, n)); var w := p.xe - p.xs + 1;
      q == p.(written := q.written, cx := q.cx, cy := q.cy)
      && q.written == p.written + RowMajor(p.xs, p.ys, w, k0, n, px)
      && (q.cx, q.cy) == Cell(p.xs, p.ys, w, k0 + n)
  {
    var w := p.xe - p.xs + 1;
    if n > 0 {
      BurstWalk(p, px, n - 1, k0);
      var q := Run(p, Burst(px, n - 1));
      assert Burst(px, n) == Burst(px, n - 1) + DataBytes(px);
      RunAppend(p, Burst(px, n - 1), DataBytes(px));
      PixelStep(q, px, k0 + n - 1);
      assert RowMajor(p.xs, p.ys, w, k0, n, px)
        == RowMajor(p.xs, p.ys, w, k0, n - 1, px) + [PixelWrite(q.cx, q.cy, px)];
    } else {
      assert Burst(px, 0) == [];
    }
  }

  /** The row-major walk with its pixels, one per step. */
  function Walk(x: int, y: int, w: int, k0: nat, ps: seq<seq<Byte>>): (r: seq<PixelWrite>)
    requires w > 0
    ensures |r| == |ps|
    ensures forall i :: 0 <= i < |ps| ==>
      r[i] == PixelWrite(Cell(x, y, w, k0 + i).0, Cell(x, y, w, k0 + i).1, ps[i])
  {
    seq(|ps|, i requires 0 <= i < |ps| => PixelWrite(Cell(x, y, w, k0 + i).0, Cell(x, y, w, k0 + i).1, ps[i]))
  }

  /** A stream of pixel groups from cell k0 stores each group at the next
      cell of the row-major walk. */
  lemma {:induction false} StreamWalk(p: Panel, ps: seq<seq<Byte>>, k0: nat)
    requires p.phase == Writing([]) && p.bpp > 0 && p.xe >= p.xs
    requires forall i :: 0 <= i < |ps| ==> |ps[i]| == p.bpp
    requires (p.cx, p.cy) == Cell(p.xs, p.ys, p.xe - p.xs + 1, k0)
    decreases |ps|
    ensures var q := Run(p, PixelStream(ps)); q == p.(written := q.written, cx := q.cx, cy := q.cy)
    ensures Run(p, PixelStream(ps)).written == p.written + Walk(p.xs, p.ys, p.xe - p.xs + 1, k0, ps)
    ensures var q := Run(p, PixelStream(ps)); (q.cx, q.cy) == Cell(p.xs, p.ys, p.xe - p.xs + 1, k0 + |ps|)
  {
    var w := p.xe - p.xs + 1;
    if |ps| > 0 {
      var n := |ps| - 1;
      var init, last := ps[..n], ps[n];
      StreamWalk(p, init, k0);
      var q := Run(p, PixelStream(init));
      assert PixelStream(ps) == PixelStream(init) + DataBytes(last);
      RunAppend(p, PixelStream(init), DataBytes(last));
      assert |last| == q.bpp;
      PixelStep(q, last, k0 + n);
      var r := Run(q, DataBytes(last));
      assert Run(p, PixelStream(ps)) == r;
      OnlyCursorMoves(p, q, r);
      assert ps == init + [last];
      WalkSnoc(p.xs, p.ys, w, k0, init, last);
      AppendChain(p.written, Walk(p.xs, p.ys, w, k0, init), PixelWrite(q.cx, q.cy, last),
        Walk(p.xs, p.ys, w, k0, ps), q.written, r.written);
    }
  }

  /** Appending one write to both sides of an equation keeps it. */
  lemma AppendChain(a: seq<PixelWrite>, b: seq<PixelWrite>, x: PixelWrite, walk: seq<PixelWrite>, q: seq<PixelWrite>, r: seq<PixelWrite>)
    requires q == a + b && r == q + [x] && walk == b + [x]
    ensures r == a + walk
  {
  }

  /** The walk of a stream is the walk of all but its last group, then
      the last group at the next cell. */
  lemma WalkSnoc(x: int, y: int, w: int, k0: nat, init: seq<seq<Byte>>, last: seq<Byte>)
    requires w > 0
    ensures var c := Cell(x, y, w, k0 + |init|);
      Walk(x, y, w, k0, init + [last]) == Walk(x, y, w, k0, init) + [PixelWrite(c.0, c.1, last)]
  {
  }

  /** Two steps that each change only the stored pixels and the cursor
      change only those together. */
  lemma OnlyCursorMoves(p: Panel, q: Panel, r: Panel)
    requires q == p.(written := q.written, cx := q.cx, cy := q.cy)
    requires r == q.(written := r.written, cx := r.cx, cy := r.cy)
    ensures r == p.(written := r.written, cx := r.cx, cy := r.cy)
  {
  }

  /** A window followed by a stream whose groups match the panel's pixel
      size stores the groups along the row-major walk of the window. */
  lemma WindowStreamWrites(p: Panel, x: int, y: int, w: int, h: int, ps: seq<seq<Byte>>)
    requires p.bpp > 0 && forall i :: 0 <= i < |ps| ==> |ps[i]| == p.bpp
    requires w >= 1 && h >= 1
    requires 0 <= x && x + w <= 0x10000 && 0 <= y && y + h <= 0x10000
    ensures Run(p, SetWindow(x, y, x + w - 1, y + h - 1) + PixelStream(ps)).written
      == p.written + Walk(x, y, w, 0, ps)
  {
    var win := SetWindow(x, y, x + w - 1, y + h - 1);
    RunAppend(p, win, PixelStream(ps));
    SetWindowEffect(p, x, y, x + w - 1, y + h - 1);
    DivModOf(0, w, 0, 0);
    StreamWalk(Run(p, win), ps, 0);
  }

  /** The same, cell by cell: the group for row r, column c of a w x h
      stream lands on pixel (x + c, y + r). */
  lemma WindowStreamCells(p: Panel, x: int, y: int, w: int, h: int, ps: seq<seq<Byte>>, r: int, c: int)
    requires p.bpp > 0 && forall i :: 0 <= i < |ps| ==> |ps[i]| == p.bpp
    requires w >= 1 && h >= 1 && |ps| == w * h && 0 <= r < h && 0 <= c < w
    requires 0 <= x && x + w <= 0x10000 && 0 <= y && y + h <= 0x10000
    ensures var q := Run(p, SetWindow(x, y, x + w - 1, y + h - 1) + PixelStream(ps));
      |q.written| == |p.written| + w * h && 0 <= r * w + c < w * h
      && q.written[|p.written| + r * w + c] == PixelWrite(x + c, y + r, ps[r * w + c])
  {
    WindowStreamWrites(p, x, y, w, h, ps);
    MulBelow(r, h, w);
    DivModOf(r * w + c, w, r, c);
  }

  /** With no command to open a register, data bytes, chip select and
      delays leave an idle panel as it is. */
  lemma {:induction false} IdleRun(p: Panel, t: Trace)
    requires p.phase == Idle
    requires forall i :: 0 <= i < |t| ==> !t[i].Cmd?
    ensures Run(p, t) == p
    decreases |t|
  {
    if |t| > 0 {
      assert Step(p, t[0]) == p;
      IdleRun(p, t[1..]);
    }
  }

  /** A vertical scroll start address (0x37 and its word) moves the
      display's read-out, not its memory: the panel only goes idle. */
  lemma ScrollAddressQuiet(p: Panel, start: int)
    ensures Run(p, VertScrollStartAddress(start)) == p.(phase := Idle)
  {
    var t := VertScrollStartAddress(start);
    assert t == [Cmd(0x37)] + t[1..];
    RunAppend(p, [Cmd(0x37)], t[1..]);
    RunOne(p, Cmd(0x37));
    IdleRun(p.(phase := Idle), t[1..]);
  }

  /** fill_rect on a panel whose pixel size matches the display's format
      stores w*h pixels of the colour along the row-major walk of the
      rectangle, nothing else. */
  lemma FillRectWrites(p: Panel, d: Display, x: int, y: int, w: int, h: int, color: int)
    requires p.bpp == BytesPerPixel(d.pixelFormat)
    requires w >= 1 && h >= 1
    requires 0 <= x && x + w <= 0x10000 && 0 <= y && y + h <= 0x10000
    ensures Run(p, FillRect(d, x, y, w, h, color)).written
      == p.written + RowMajor(x, y, w, 0, w * h, PixelBytes(d.pixelFormat, color))
    ensures Run(p, FillRect(d, x, y, w, h, color)).bpp == p.bpp
  {
    assert PixelCount(w, h) == w * h;
    WindowBurstWrites(p, x, y, w, h, PixelBytes(d.pixelFormat, color), w * h);
  }

  /** A window, a burst of n copies of one pixel and the chip-select
      release store the n copies along the window's row-major walk. */
  lemma WindowBurstWrites(p: Panel, x: int, y: int, w: int, h: int, px: seq<Byte>, n: nat)
    requires |px| == p.bpp && |px| > 0
    requires w >= 1 && h >= 1
    requires 0 <= x && x + w <= 0x10000 && 0 <= y && y + h <= 0x10000
    ensures Run(p, SetWindow(x, y, x + w - 1, y + h - 1) + Burst(px, n) + [CsHigh]).written
      == p.written + RowMajor(x, y, w, 0, n, px)
    ensures Run(p, SetWindow(x, y, x + w - 1, y + h - 1) + Burst(px, n) + [CsHigh]).bpp == p.bpp
  {
    var win := SetWindow(x, y, x + w - 1, y + h - 1);
    RunAppend(p, win + Burst(px, n), [CsHigh]);
    RunAppend(p, win, Burst(px, n));
    SetWindowEffect(p, x, y, x + w - 1, y + h - 1);
    var p1 := Run(p, win);
    DivModOf(0, w, 0, 0);
    BurstWalk(p1, px, n, 0);
    RunOne(Run(p1, Burst(px, n)), CsHigh);
  }

  /** Each step of the row-major walk over a w x h rectangle lands inside
      it. */
  lemma RowMajorInside(x: int, y: int, w: int, h: int, k: int)
    requires w >= 1 && h >= 1 && 0 <= k < w * h
    ensures InRect(Rect(x, y, w, h), Cell(x, y, w, k).0, Cell(x, y, w, k).1)
  {
    DivBelow(k, w, h);
  }

  /** Pixel (px, py) of the rectangle is step (py - y) * w + (px - x). */
  lemma RowMajorReaches(x: int, y: int, w: int, h: int, px: int, py: int)
    requires w >= 1 && h >= 1 && InRect(Rect(x, y, w, h), px, py)
    ensures var k := (py - y) * w + (px - x); 0 <= k < w * h && Cell(x, y, w, k) == (px, py)
  {
    var k := (py - y) * w + (px - x);
    DivModOf(k, w, py - y, px - x);
    MulBelow(py - y, h, w);
  }

  /** No two steps of the walk land on the same pixel. */
  lemma RowMajorInjective(x: int, y: int, w: int, k1: int, k2: int)
    requires w >= 1 && 0 <= k1 < k2
    ensures Cell(x, y, w, k1) != Cell(x, y, w, k2)
  {
  }

  /** draw_pixel stores exactly one pixel, at (x, y). */
  lemma DrawPixelWrites(p: Panel, d: Display, x: int, y: int, color: int)
    requires p.bpp == BytesPerPixel(d.pixelFormat)
    requires 0 <= x < 0x10000 && 0 <= y < 0x10000
    ensures Run(p, DrawPixel(d, x, y, color)).written
      == p.written + [PixelWrite(x, y, PixelBytes(d.pixelFormat, color))]
  {
    FillRectWrites(p, d, x, y, 1, 1, color);
    DrawPixelIsFillRect(d, x, y, color);
    DivModOf(0, 1, 0, 0);
  }

  /** A band that fill_rect can draw: at least one pixel each way, inside
      the 16-bit coordinate range of the address commands. */
  predicate Fits(b: Rect)
  {
    b.w >= 1 && b.h >= 1 && 0 <= b.x && b.x + b.w <= 0x10000 && 0 <= b.y && b.y + b.h <= 0x10000
  }

  /** The pixels fill_rect stores for a band: its row-major walk. */
  function BandPaint(b: Rect, px: seq<Byte>): (r: seq<PixelWrite>)
    requires Fits(b)
    ensures |r| == b.w * b.h
  {
    RowMajor(b.x, b.y, b.w, 0, b.w * b.h, px)
  }

  /** The pixels of each band in turn. */
  function Paints(bs: seq<Rect>, px: seq<Byte>): seq<PixelWrite>
    requires forall i :: 0 <= i < |bs| ==> Fits(bs[i])
    decreases |bs|
  {
    if |bs| == 0 then [] else Paints(bs[..|bs| - 1], px) + BandPaint(bs[|bs| - 1], px)
  }

  /** Filling bands one after the other stores each band's walk in turn,
      and keeps the pixel size. */
  lemma {:induction false} FillsWrites(p: Panel, d: Display, bs: seq<Rect>, color: int)
    requires p.bpp == BytesPerPixel(d.pixelFormat)
    requires forall i :: 0 <= i < |bs| ==> Fits(bs[i])
    decreases |bs|
    ensures Run(p, Fills(d, bs, color)).written == p.written + Paints(bs, PixelBytes(d.pixelFormat, color))
    ensures Run(p, Fills(d, bs, color)).bpp == p.bpp
  {
    var px := PixelBytes(d.pixelFormat, color);
    if |bs| == 0 {
      assert Fills(d, bs, color) == [];
    } else {
      var n := |bs| - 1;
      var init, b := bs[..n], bs[n];
      assert forall i :: 0 <= i < n ==> init[i] == bs[i];
      FillsWrites(p, d, init, color);
      FillsSnoc(d, bs, color);
      BandStep(p, d, Fills(d, init, color), b, color);
      assert Paints(bs, px) == Paints(init, px) + BandPaint(b, px);
      WritesChain(p.written, Paints(init, px), BandPaint(b, px),
        Run(p, Fills(d, init, color)).written, Run(p, Fills(d, bs, color)).written);
    }
  }

  /** Writes appended after writes that extend a, extend a by both. */
  lemma WritesChain(a: seq<PixelWrite>, b: seq<PixelWrite>, c: seq<PixelWrite>, q: seq<PixelWrite>, r: seq<PixelWrite>)
    requires q == a + b && r == q + c
    ensures r == a + (b + c)
  {
  }

  /** One more band filled after a trace stores that band's walk after
      whatever the trace stored. */
  lemma BandStep(p: Panel, d: Display, pre: Trace, b: Rect, color: int)
    requires Run(p, pre).bpp == BytesPerPixel(d.pixelFormat) && Fits(b)
    ensures var q := Run(p, pre + BandFill(d, b, color));
      q.written == Run(p, pre).written + BandPaint(b, PixelBytes(d.pixelFormat, color))
      && q.bpp == Run(p, pre).bpp
  {
    RunAppend(p, pre, BandFill(d, b, color));
    FillRectWrites(Run(p, pre), d, b.x, b.y, b.w, b.h, color);
  }

  /** draw_rect on a panel whose pixel size matches the display's format
      stores the colour along the top, left, bottom and right bands, in that
      order, and nothing else. */
  lemma DrawRectWrites(p: Panel, d: Display, x: int, y: int, w: int, h: int, color: int, t: int)
    requires p.bpp == BytesPerPixel(d.pixelFormat)
    requires w >= 1 && h >= 1 && t >= 1
    requires 0 <= x && x + w + t <= 0x10000 && 0 <= y && y + h + t <= 0x10000
    ensures var b, px := RectBands(x, y, w, h, t), PixelBytes(d.pixelFormat, color);
      Run(p, DrawRect(d, x, y, w, h, color, t)).written
        == p.written + BandPaint(b[0], px) + BandPaint(b[1], px) + BandPaint(b[2], px) + BandPaint(b[3], px)
  {
    FourFillsWrite(p, d, RectBands(x, y, w, h, t), color);
  }

  /** Four bands filled in turn store their walks in turn. */
  lemma FourFillsWrite(p: Panel, d: Display, bs: seq<Rect>, color: int)
    requires p.bpp == BytesPerPixel(d.pixelFormat)
    requires |bs| == 4 && forall i :: 0 <= i < 4 ==> Fits(bs[i])
    ensures var px := PixelBytes(d.pixelFormat, color);
      Run(p, Fills(d, bs, color)).written
        == p.written + BandPaint(bs[0], px) + BandPaint(bs[1], px) + BandPaint(bs[2], px) + BandPaint(bs[3], px)
  {
    var px := PixelBytes(d.pixelFormat, color);
    FillsWrites(p, d, bs, color);
    PaintsFour(bs, px);
    AppendFour(p.written, BandPaint(bs[0], px), BandPaint(bs[1], px), BandPaint(bs[2], px), BandPaint(bs[3], px));
  }

  lemma AppendFour<T>(w: seq<T>, a: seq<T>, b: seq<T>, c: seq<T>, e: seq<T>)
    ensures w + (a + b + c + e) == w + a + b + c + e
  {
  }

  lemma PaintsFour(bs: seq<Rect>, px: seq<Byte>)
    requires |bs| == 4 && forall i :: 0 <= i < 4 ==> Fits(bs[i])
    ensures Paints(bs, px) == BandPaint(bs[0], px) + BandPaint(bs[1], px) + BandPaint(bs[2], px) + BandPaint(bs[3], px)
  {
    assert bs[..4] == bs;
    forall k | 1 <= k <= 4
      ensures Paints(bs[..k], px) == Paints(bs[..k - 1], px) + BandPaint(bs[k - 1], px)
    {
      assert bs[..k][..k - 1] == bs[..k - 1];
    }
    assert Paints(bs[..0], px) == [];
  }

  /** A band's walk stores the colour on exactly the band's pixels. */
  lemma BandPaintCells(b: Rect, px: seq<Byte>, pw: PixelWrite)
    requires Fits(b)
    ensures pw in BandPaint(b, px) <==> pw.px == px && InRect(b, pw.x, pw.y)
  {
    var r := BandPaint(b, px);
    if pw in r {
      var k :| 0 <= k < |r| && r[k] == pw;
      RowMajorInside(b.x, b.y, b.w, b.h, k);
    }
    if pw.px == px && InRect(b, pw.x, pw.y) {
      RowMajorReaches(b.x, b.y, b.w, b.h, pw.x, pw.y);
      var k := (pw.y - b.y) * b.w + (pw.x - b.x);
      assert r[k] == pw;
    }
  }

  /** draw_rect adds writes after the ones already stored, and the added
      writes put the colour on exactly the pixels of the frame: the
      (w+t) x (h+t) box at (x, y) without its (w-t) x (h-t) interior. */
  lemma DrawRectPaints(p: Panel, d: Display, x: int, y: int, w: int, h: int, color: int, t: int)
    requires p.bpp == BytesPerPixel(d.pixelFormat)
    requires 1 <= t <= w && t <= h
    requires 0 <= x && x + w + t <= 0x10000 && 0 <= y && y + h + t <= 0x10000
    ensures var q, n := Run(p, DrawRect(d, x, y, w, h, color, t)), |p.written|;
      n <= |q.written| && q.written[..n] == p.written
      && forall pw :: pw in q.written[n..] <==>
        pw.px == PixelBytes(d.pixelFormat, color) && InFrame(x, y, w, h, t, pw.x, pw.y)
  {
    var b, px := RectBands(x, y, w, h, t), PixelBytes(d.pixelFormat, color);
    var q, n := Run(p, DrawRect(d, x, y, w, h, color, t)), |p.written|;
    DrawRectWrites(p, d, x, y, w, h, color, t);
    var added := BandPaint(b[0], px) + BandPaint(b[1], px) + BandPaint(b[2], px) + BandPaint(b[3], px);
    AppendFour(p.written, BandPaint(b[0], px), BandPaint(b[1], px), BandPaint(b[2], px), BandPaint(b[3], px));
    assert q.written == p.written + added;
    assert q.written[..n] == p.written && q.written[n..] == added;
    forall pw
      ensures pw in added <==> pw.px == px && InFrame(x, y, w, h, t, pw.x, pw.y)
    {
      BandPaintCells(b[0], px, pw);
      BandPaintCells(b[1], px, pw);
      BandPaintCells(b[2], px, pw);
      BandPaintCells(b[3], px, pw);
      RectBandsCoverFrame(x, y, w, h, t, pw.x, pw.y);
    }
  }
}
