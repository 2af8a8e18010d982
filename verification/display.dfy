/** The display object of ili9xxx_8b.py: its state (size, rotation, pixel
    format) and the bus traces of its configuration and filled-area drawing
    routines.  Traces are built from `Bus` events; the fast routines' register
    writes are those events lowered through the lookup table (see `Bus`). */
module Display {
  import opened Bits
  import opened Bus
  import opened Color

  datatype Display = Display(width: int, height: int, rotation: int, pixelFormat: Byte)

  /** The constructor's state: given size, rotation 0, format code from bits. */
  function NewDisplay(width: int, height: int, formatBits: int): (d: Display)
    ensures d.rotation == 0 && d.width == width && d.height == height
    ensures d.pixelFormat == FormatCode(formatBits)
  {
    Display(width, height, 0, FormatCode(formatBits))
  }

  /** Width and height of the panel in its unrotated orientation. */
  function NativeWidth(d: Display): int
  {
    if d.rotation % 2 == 1 then d.height else d.width
  }

  function NativeHeight(d: Display): int
  {
    if d.rotation % 2 == 1 then d.width else d.height
  }

  /** reset: pulse the reset line, then a software reset command. */
  function Reset(): (r: Trace)
    ensures |r| == 7 && r[..4] == [Rst(false), Sleep(10), Rst(true), Sleep(120)]
    ensures r[4..6] == WriteCommand(0x01) && r[6..] == [Sleep(120)]
  {
    [Rst(false), Sleep(10), Rst(true), Sleep(120)] + WriteCommand(0x01) + [Sleep(120)]
  }

  type Flag = x: int | 0 <= x <= 1

  /** The six MADCTL direction flags. */
  datatype Madctl = Madctl(my: Flag, mx: Flag, mv: Flag, ml: Flag, bgr: Flag, mh: Flag)

  /** The MADCTL parameter: MH at bit 2, BGR 3, ML 4, MV 5, MX 6, MY 7. */
  function MadctlByte(m: Madctl): (b: Byte)
    ensures b % 4 == 0
  {
    m.mh * 4 + m.bgr * 8 + m.ml * 16 + m.mv * 32 + m.mx * 64 + m.my * 128
  }

  /** How the controller reads a MADCTL parameter back into flags. */
  function MadctlOf(b: Byte): Madctl
  {
    Madctl((b / 128) % 2, (b / 64) % 2, (b / 32) % 2, (b / 16) % 2, (b / 8) % 2, (b / 4) % 2)
  }

  /** A flag f at weight p, below it lo < p, above it hi: (b / p) % 2 is f. */
  lemma FlagAt(b: int, p: int, hi: int, f: Flag, lo: int)
    requires p > 0 && 0 <= lo < p && b == hi * (2 * p) + f * p + lo
    ensures (b / p) % 2 == f
  {
    assert b == (hi * 2 + f) * p + lo;
    DivModOf(b, p, hi * 2 + f, lo);
    DivModOf(hi * 2 + f, 2, hi, f);
  }

  /** The controller recovers every flag from the byte the driver sends. */
  lemma MadctlRoundTrip(m: Madctl)
    ensures MadctlOf(MadctlByte(m)) == m
  {
    var b := MadctlByte(m);
    FlagAt(b, 128, 0, m.my, b - m.my * 128);
    FlagAt(b, 64, m.my, m.mx, b - m.my * 128 - m.mx * 64);
    FlagAt(b, 32, m.my * 2 + m.mx, m.mv, m.mh * 4 + m.bgr * 8 + m.ml * 16);
    FlagAt(b, 16, m.my * 4 + m.mx * 2 + m.mv, m.ml, m.mh * 4 + m.bgr * 8);
    FlagAt(b, 8, m.my * 8 + m.mx * 4 + m.mv * 2 + m.ml, m.bgr, m.mh * 4);
    FlagAt(b, 4, m.my * 16 + m.mx * 8 + m.mv * 4 + m.ml * 2 + m.bgr, m.mh, 0);
  }

  /** memory_access_control: command 0x36 with the MADCTL byte. */
  function MemoryAccessControl(m: Madctl): (r: Trace)
    ensures |r| == 4 && r[0] == Cmd(0x36) && r[2].Data? && MadctlOf(r[2].b) == m
  {
    MadctlRoundTrip(m);
    WriteCommand(0x36) + WriteData(MadctlByte(m))
  }

  /** The base class's rotation table: MADCTL 0x08, 0x68, 0xC8, 0xA8. */
  const BaseRotations: seq<Madctl> := [
    Madctl(0, 0, 0, 0, 1, 0),
    Madctl(0, 1, 1, 0, 1, 0),
    Madctl(1, 1, 0, 0, 1, 0),
    Madctl(1, 0, 1, 0, 1, 0)]

  datatype Rotated = Rotated(display: Display, trace: Trace, ok: bool)

  /** set_rotation with a controller's four MADCTL settings: an out-of-range
      rotation is refused and changes nothing; otherwise the MADCTL command
      is sent and width and height are exchanged iff the parity of the
      rotation changes. */
  function SetRotation(d: Display, rotation: int, table: seq<Madctl>): (r: Rotated)
    requires |table| == 4
    ensures !r.ok <==> rotation < 0 || rotation > 3
    ensures !r.ok ==> r.display == d && r.trace == []
    ensures r.ok ==> r.display.rotation == rotation && r.trace == MemoryAccessControl(table[rotation])
    ensures r.display.pixelFormat == d.pixelFormat
    ensures r.ok && rotation % 2 != d.rotation % 2 ==>
      r.display.width == d.height && r.display.height == d.width
    ensures r.ok && rotation % 2 == d.rotation % 2 ==>
      r.display.width == d.width && r.display.height == d.height
  {
    if rotation > 3 || rotation < 0 then Rotated(d, [], false)
    else
      var swap := rotation % 2 != d.rotation % 2;
      var w := if swap then d.height else d.width;
      var h := if swap then d.width else d.height;
      Rotated(Display(w, h, rotation, d.pixelFormat), MemoryAccessControl(table[rotation]), true)
  }

  /** Rotation never changes the panel's native size: any sequence of
      set_rotation calls keeps (native width, native height). */
  lemma {:induction false} RotationsKeepNativeSize(d: Display, rotations: seq<int>, table: seq<Madctl>)
    requires |table| == 4
    decreases |rotations|
    ensures var e := ApplyRotations(d, rotations, table);
      NativeWidth(e) == NativeWidth(d) && NativeHeight(e) == NativeHeight(d)
  {
    if |rotations| > 0 {
      var e := SetRotation(d, rotations[0], table).display;
      assert NativeWidth(e) == NativeWidth(d) && NativeHeight(e) == NativeHeight(d);
      RotationsKeepNativeSize(e, rotations[1..], table);
    }
  }

  function ApplyRotations(d: Display, rotations: seq<int>, table: seq<Madctl>): Display
    requires |table| == 4
    decreases |rotations|
  {
    if |rotations| == 0 then d
    else ApplyRotations(SetRotation(d, rotations[0], table).display, rotations[1..], table)
  }

  /** The base class's init_display. */
  function InitDisplay(pixelFormat: Byte): (r: Trace)
    ensures |r| == 22 && r[..7] == Reset() && r[7..9] == WriteCommand(0x28)
    ensures r[9..13] == WriteCommand(0x36) + WriteData(0x48)
    ensures r[13..17] == WriteCommand(0x3A) + WriteData(pixelFormat)
    ensures r[17..20] == WriteCommand(0x11) + [Sleep(120)]
    ensures r[20..] == WriteCommand(0x29)
  {
    var r := Reset() + WriteCommand(0x28)
      + WriteCommand(0x36) + WriteData(0x48)
      + WriteCommand(0x3A) + WriteData(pixelFormat)
      + WriteCommand(0x11) + [Sleep(120)]
      + WriteCommand(0x29);
    r
  }

  /** Two bus bytes, high then low, as separate write_data calls. */
  function WriteWord(v: int): (r: Trace)
    ensures |r| == 4 && r[0].Data? && r[2].Data? && r[1] == CsHigh && r[3] == CsHigh
    ensures 0 <= v < 0x10000 ==> r[0].b * 256 + r[2].b == v
  {
    HiLoJoin(if 0 <= v < 0x10000 then v else 0);
    WriteData(Hi(v)) + WriteData(Lo(v))
  }

  /** vert_scroll: sent only when the three areas add up to the native
      height; otherwise nothing reaches the bus. */
  function VertScroll(d: Display, top: int, scroll: int, bot: int): (r: Trace)
    ensures r != [] <==> top + scroll + bot == NativeHeight(d)
    ensures r != [] ==> (|r| == 14 && r[..2] == WriteCommand(0x33)
      && r[2..6] == WriteWord(top) && r[6..10] == WriteWord(scroll) && r[10..] == WriteWord(bot))
  {
    if top + bot + scroll == NativeHeight(d) then
      WriteCommand(0x33) + WriteWord(top) + WriteWord(scroll) + WriteWord(bot)
    else []
  }

  /** vert_scroll_start_address */
  function VertScrollStartAddress(start: int): (r: Trace)
    ensures |r| == 6 && r[..2] == WriteCommand(0x37) && r[2..] == WriteWord(start)
  {
    WriteCommand(0x37) + WriteWord(start)
  }

  /** scroll: start addresses 1, 2, ..., native height, each followed by
      the delay. */
  function ScrollFrom(y: int, height: int, delay: nat): (r: Trace)
    decreases height - y
    ensures |r| == 7 * (if y < height then height - y else 0)
  {
    if y >= height then []
    else VertScrollStartAddress(y + 1) + [Sleep(delay)] + ScrollFrom(y + 1, height, delay)
  }

  /** Step k of the scroll sets start address y + k + 1 and waits. */
  lemma {:induction false} ScrollFromStep(y: int, height: int, delay: nat, k: nat)
    requires k < height - y
    decreases k
    ensures ScrollFrom(y, height, delay)[7 * k .. 7 * k + 7] == VertScrollStartAddress(y + k + 1) + [Sleep(delay)]
  {
    var head := VertScrollStartAddress(y + 1) + [Sleep(delay)];
    var tail := ScrollFrom(y + 1, height, delay);
    assert ScrollFrom(y, height, delay) == head + tail;
    if k > 0 {
      ScrollFromStep(y + 1, height, delay, k - 1);
      assert (head + tail)[7 * k .. 7 * k + 7] == tail[7 * (k - 1) .. 7 * (k - 1) + 7];
    }
  }

  /** scroll: for every row of the native height, in order, the start
      address one below it, then the delay. */
  function Scroll(d: Display, delay: nat): (r: Trace)
    ensures |r| == 7 * (if NativeHeight(d) > 0 then NativeHeight(d) else 0)
    ensures forall k :: 0 <= k < NativeHeight(d) ==>
      r[7 * k .. 7 * k + 7] == VertScrollStartAddress(k + 1) + [Sleep(delay)]
  {
    var r := ScrollFrom(0, NativeHeight(d), delay);
    forall k | 0 <= k < NativeHeight(d)
      ensures r[7 * k .. 7 * k + 7] == VertScrollStartAddress(k + 1) + [Sleep(delay)]
    {
      ScrollFromStep(0, NativeHeight(d), delay, k);
    }
    r
  }

  /** set_window: column range (0x2A), page range (0x2B), then memory write
      (0x2C), every coordinate high byte first, CS left low. */
  function SetWindow(x0: int, y0: int, x1: int, y1: int): (r: Trace)
    ensures |r| == 11 && r[0] == Cmd(0x2A) && r[5] == Cmd(0x2B) && r[10] == Cmd(0x2C)
    ensures forall k :: 0 <= k < 11 && k != 0 && k != 5 && k != 10 ==> r[k].Data?
  {
    [Cmd(0x2A), Data(Hi(x0)), Data(Lo(x0)), Data(Hi(x1)), Data(Lo(x1)),
     Cmd(0x2B), Data(Hi(y0)), Data(Lo(y0)), Data(Hi(y1)), Data(Lo(y1)),
     Cmd(0x2C)]
  }

  /** Each coordinate that fits in 16 bits is recovered from its two data
      bytes. */
  lemma SetWindowDecodes(x0: int, y0: int, x1: int, y1: int)
    ensures var r := SetWindow(x0, y0, x1, y1);
      && (0 <= x0 < 0x10000 ==> r[1].b * 256 + r[2].b == x0)
      && (0 <= x1 < 0x10000 ==> r[3].b * 256 + r[4].b == x1)
      && (0 <= y0 < 0x10000 ==> r[6].b * 256 + r[7].b == y0)
      && (0 <= y1 < 0x10000 ==> r[8].b * 256 + r[9].b == y1)
  {
    HiLoJoin(if 0 <= x0 < 0x10000 then x0 else 0);
    HiLoJoin(if 0 <= x1 < 0x10000 then x1 else 0);
    HiLoJoin(if 0 <= y0 < 0x10000 then y0 else 0);
    HiLoJoin(if 0 <= y1 < 0x10000 then y1 else 0);
  }

  /** n copies of one pixel's bytes, as strobes. */
  function Burst(px: seq<Byte>, n: nat): (r: Trace)
    requires |px| > 0
    ensures |r| == n * |px|
    ensures forall k :: 0 <= k < |r| ==> r[k] == Data(px[k % |px|])
  {
    if n == 0 then []
    else
      var prev := Burst(px, n - 1);
      var r := prev + DataBytes(px);
      assert forall k :: |prev| <= k < |r| ==> k % |px| == k - |prev| by {
        forall k | |prev| <= k < |r|
          ensures k % |px| == k - |prev|
        {
          DivModOf(k, |px|, n - 1, k - |prev|);
        }
      }
      r
  }

  /** draw_pixel: a one-pixel window, the pixel's bytes, CS released;
      the same events as fill_rect of the 1 x 1 rectangle at (x, y). */
  function DrawPixel(d: Display, x: int, y: int, color: int): (r: Trace)
    ensures |r| == 12 + |PixelBytes(d.pixelFormat, color)|
  {
    SetWindow(x, y, x, y) + DataBytes(PixelBytes(d.pixelFormat, color)) + [CsHigh]
  }

  /** draw_pixel sends what fill_rect sends for the 1 × 1 box at (x, y). */
  lemma DrawPixelIsFillRect(d: Display, x: int, y: int, color: int)
    ensures DrawPixel(d, x, y, color) == FillRect(d, x, y, 1, 1, color)
  {
    var px := PixelBytes(d.pixelFormat, color);
    assert Burst(px, 1) == DataBytes(px);
  }

  /** Pixel groups written back to back with no chip-select release in
      between, as the image, bitmap and glyph loops do. */
  function PixelStream(ps: seq<seq<Byte>>): (r: Trace)
    ensures forall i :: 0 <= i < |r| ==> r[i].Data?
  {
    if |ps| == 0 then [] else PixelStream(ps[..|ps| - 1]) + DataBytes(ps[|ps| - 1])
  }

  /** One more group sends its bytes after the others. */
  lemma PixelStreamSnoc(ps: seq<seq<Byte>>, last: seq<Byte>)
    ensures PixelStream(ps + [last]) == PixelStream(ps) + DataBytes(last)
  {
    assert (ps + [last])[..|ps|] == ps;
  }

  /** One draw_pixel per point, in order: each a window, the colour's bytes
      and the chip-select release. */
  function DrawPixels(d: Display, pts: seq<(int, int)>, color: int): (r: Trace)
    ensures var c := 12 + |PixelBytes(d.pixelFormat, color)|;
      |r| == |pts| * c
      && (forall i :: 0 <= i < |pts| ==>
            0 <= i * c && i * c + c <= |r| && r[i * c .. i * c + c] == DrawPixel(d, pts[i].0, pts[i].1, color))
  {
    var c := 12 + |PixelBytes(d.pixelFormat, color)|;
    var f := (j: int) => var p := if 0 <= j < |pts| then pts[j] else (0, 0); DrawPixel(d, p.0, p.1, color);
    forall j
      ensures |f(j)| == c
    {
      var p := if 0 <= j < |pts| then pts[j] else (0, 0);
      assert f(j) == DrawPixel(d, p.0, p.1, color);
    }
    BlocksAll(f, |pts|, c);
    Blocks(f, |pts|)
  }

  /** The number of pixels fill_rect sends: `amount = x_len * y_len`,
      counted down while positive. */
  function PixelCount(w: int, h: int): (n: nat)
    ensures n > 0 <==> w * h > 0
  {
    if w * h > 0 then w * h else 0
  }

  /** fill_rect */
  function FillRect(d: Display, x: int, y: int, w: int, h: int, color: int): (r: Trace)
    ensures var n := PixelCount(w, h); var px := PixelBytes(d.pixelFormat, color);
      |r| == 12 + n * |px| && r[..11] == SetWindow(x, y, x + w - 1, y + h - 1)
      && r[11..|r| - 1] == Burst(px, n) && r[|r| - 1] == CsHigh
  {
    SetWindow(x, y, x + w - 1, y + h - 1) + Burst(PixelBytes(d.pixelFormat, color), PixelCount(w, h)) + [CsHigh]
  }

  /** fill_screen: one window over the whole current screen, filled with
      width x height pixels of the colour. */
  function FillScreen(d: Display, color: int): (r: Trace)
    ensures var px := PixelBytes(d.pixelFormat, color);
      |r| == 12 + PixelCount(d.width, d.height) * |px|
      && r[..11] == SetWindow(0, 0, d.width - 1, d.height - 1)
      && r[11..|r| - 1] == Burst(px, PixelCount(d.width, d.height)) && r[|r| - 1] == CsHigh
  {
    FillRect(d, 0, 0, d.width, d.height, color)
  }

  /** draw_vline: a window `thickness` columns wide and `height` rows
      tall from (x, y), filled with the colour. */
  function DrawVline(d: Display, x: int, y: int, height: int, color: int, thickness: int): (r: Trace)
    ensures var px := PixelBytes(d.pixelFormat, color);
      |r| == 12 + PixelCount(thickness, height) * |px|
      && r[..11] == SetWindow(x, y, x + thickness - 1, y + height - 1)
      && r[11..|r| - 1] == Burst(px, PixelCount(thickness, height)) && r[|r| - 1] == CsHigh
  {
    FillRect(d, x, y, thickness, height, color)
  }

  /** draw_hline: a window `width` columns wide and `thickness` rows tall
      from (x, y), filled with the colour. */
  function DrawHline(d: Display, x: int, y: int, width: int, color: int, thickness: int): (r: Trace)
    ensures var px := PixelBytes(d.pixelFormat, color);
      |r| == 12 + PixelCount(width, thickness) * |px|
      && r[..11] == SetWindow(x, y, x + width - 1, y + thickness - 1)
      && r[11..|r| - 1] == Burst(px, PixelCount(width, thickness)) && r[|r| - 1] == CsHigh
  {
    FillRect(d, x, y, width, thickness, color)
  }

  /** The four bands draw_rect fills: top, left, bottom, right. */
  datatype Rect = Rect(x: int, y: int, w: int, h: int)

  function RectBands(x: int, y: int, w: int, h: int, t: int): (r: seq<Rect>)
    ensures |r| == 4
  {
    [Rect(x, y, w, t), Rect(x, y + t, t, h), Rect(x + t, y + h, w, t), Rect(x + w, y, t, h)]
  }

  /** The window fill_rect opens for a band. */
  function BandWindow(b: Rect): (r: Trace)
    ensures |r| == 11
  {
    SetWindow(b.x, b.y, b.x + b.w - 1, b.y + b.h - 1)
  }

  /** fill_rect of one band. */
  function BandFill(d: Display, b: Rect, color: int): (r: Trace)
    ensures |r| >= 12 && r[..11] == BandWindow(b)
  {
    FillRect(d, b.x, b.y, b.w, b.h, color)
  }

  /** fill_rect of each band, in the order of the bands. */
  function BandFills(d: Display, bs: seq<Rect>, color: int): (ps: seq<Trace>)
    decreases |bs|
    ensures |ps| == |bs|
  {
    if |bs| == 0 then [] else BandFills(d, bs[..|bs| - 1], color) + [BandFill(d, bs[|bs| - 1], color)]
  }

  /** Entry i of BandFills is the fill of band i. */
  lemma {:induction false} BandFillsAt(d: Display, bs: seq<Rect>, color: int, i: nat)
    requires i < |bs|
    decreases |bs|
    ensures BandFills(d, bs, color)[i] == BandFill(d, bs[i], color)
  {
    var n := |bs| - 1;
    if i < n {
      BandFillsAt(d, bs[..n], color, i);
      assert bs[..n][i] == bs[i];
    }
  }

  /** The pieces one after the other. */
  function Join<T>(ps: seq<seq<T>>): seq<T>
    decreases |ps|
  {
    if |ps| == 0 then [] else Join(ps[..|ps| - 1]) + ps[|ps| - 1]
  }

  /** Where the fill of band i starts: after the fills of the bands before
      it. */
  function Offset(d: Display, bs: seq<Rect>, color: int, i: nat): nat
    requires i <= |bs|
  {
    |Join(BandFills(d, bs, color)[..i])|
  }

  /** fill_rect of each band in turn: piece i of the trace, starting
      after the fills of the bands before it, is the fill of band i. */
  function Fills(d: Display, bs: seq<Rect>, color: int): (r: Trace)
    ensures |r| == Offset(d, bs, color, |bs|)
    ensures forall i :: 0 <= i < |bs| ==>
      var o, f := Offset(d, bs, color, i), BandFill(d, bs[i], color);
      o + |f| <= |r| && r[o .. o + |f|] == f
  {
    var ps := BandFills(d, bs, color);
    assert ps[..|bs|] == ps;
    forall i | 0 <= i < |bs|
      ensures var o, f := Offset(d, bs, color, i), BandFill(d, bs[i], color);
        o + |f| <= |Join(ps)| && Join(ps)[o .. o + |f|] == f
    {
      BandFillsAt(d, bs, color, i);
      PieceOf(ps, i, BandFill(d, bs[i], color));
    }
    Join(ps)
  }

  /** One more band: its fill comes after the fills of the others. */
  lemma FillsSnoc(d: Display, bs: seq<Rect>, color: int)
    requires |bs| > 0
    ensures Fills(d, bs, color) == Fills(d, bs[..|bs| - 1], color) + BandFill(d, bs[|bs| - 1], color)
  {
    var ps := BandFills(d, bs, color);
    assert ps[..|ps| - 1] == BandFills(d, bs[..|bs| - 1], color);
  }

  /** draw_rect: the fills of the top, left, bottom and right bands, one
      after the other. */
  function DrawRect(d: Display, x: int, y: int, w: int, h: int, color: int, t: int): (r: Trace)
    ensures var b := RectBands(x, y, w, h, t);
      |r| == Offset(d, b, color, 4)
      && forall i :: 0 <= i < 4 ==>
        var o, f := Offset(d, b, color, i), BandFill(d, b[i], color);
        o + |f| <= |r| && r[o .. o + |f|] == f
  {
    Fills(d, RectBands(x, y, w, h, t), color)
  }

  /** Joined pieces, cut at the running offset of piece i, give back
      piece i. */
  lemma {:induction false} JoinPiece<T>(ps: seq<seq<T>>, i: nat)
    requires i < |ps|
    decreases |ps|
    ensures var o := |Join(ps[..i])|; o + |ps[i]| <= |Join(ps)| && Join(ps)[o .. o + |ps[i]|] == ps[i]
  {
    var n := |ps| - 1;
    var init := ps[..n];
    assert Join(ps) == Join(init) + ps[n];
    if i == n {
      assert ps[..i] == init;
      assert (Join(init) + ps[n])[|Join(init)| .. |Join(init)| + |ps[n]|] == ps[n];
    } else {
      JoinPiece(init, i);
      assert init[..i] == ps[..i] && init[i] == ps[i];
      PrefixPiece(Join(init), ps[n], |Join(ps[..i])|, ps[i]);
    }
  }

  /** A piece equal to f is found as f at its running offset. */
  lemma PieceOf<T>(ps: seq<seq<T>>, i: nat, f: seq<T>)
    requires i < |ps| && ps[i] == f
    ensures var o := |Join(ps[..i])|; o + |f| <= |Join(ps)| && Join(ps)[o .. o + |f|] == f
  {
    JoinPiece(ps, i);
  }

  /** A piece of a, found at offset o, is found in a + b at o. */
  lemma PrefixPiece<T>(a: seq<T>, b: seq<T>, o: nat, f: seq<T>)
    requires o + |f| <= |a| && a[o .. o + |f|] == f
    ensures o + |f| <= |a + b| && (a + b)[o .. o + |f|] == f
  {
    forall k | 0 <= k < |f|
      ensures (a + b)[o .. o + |f|][k] == f[k]
    {
      assert a[o .. o + |f|][k] == f[k];
    }
  }

  predicate InRect(r: Rect, px: int, py: int)
  {
    r.x <= px < r.x + r.w && r.y <= py < r.y + r.h
  }

  /** The frame draw_rect outlines: the (w+t) x (h+t) box at (x, y)
      without its (w-t) x (h-t) interior at (x+t, y+t). */
  predicate InFrame(x: int, y: int, w: int, h: int, t: int, px: int, py: int)
  {
    InRect(Rect(x, y, w + t, h + t), px, py) && !InRect(Rect(x + t, y + t, w - t, h - t), px, py)
  }

  /** The bands of draw_rect cover exactly the frame. */
  lemma RectBandsCoverFrame(x: int, y: int, w: int, h: int, t: int, px: int, py: int)
    requires 1 <= t <= w && t <= h
    ensures var b := RectBands(x, y, w, h, t);
      (InRect(b[0], px, py) || InRect(b[1], px, py) || InRect(b[2], px, py) || InRect(b[3], px, py))
      <==> InFrame(x, y, w, h, t, px, py)
  {
  }
}
