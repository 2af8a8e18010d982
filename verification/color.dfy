/** Colours: the pixel-format codes, rgb() packing, the bytes one pixel puts
    on the bus, and the panel's reading of those bytes.

    The controllers take 16-bit pixels as two bytes R5 G6 B5, 18-bit pixels
    as three bytes with each 6-bit channel in bits 7..2, and 24-bit pixels as
    three full channel bytes.  `PanelChannels` is that reading; it is the
    reference the packing and splitting functions are proved against. */
module Color {
  import opened Bits

  const Format16: Byte := 0x55
  const Format18: Byte := 0x66
  const Format24: Byte := 0x77

  /** The constructor's pixel_format argument (in bits) to the COLMOD code. */
  function FormatCode(bits: int): (code: Byte)
    ensures code == Format16 || code == Format18 || code == Format24
    ensures code == Format24 <==> bits == 24
    ensures code == Format18 <==> bits == 18
  {
    if bits == 24 then Format24
    else if bits == 18 then Format18
    else Format16
  }

  /** Bytes per pixel: every routine treats 0x55 as 16-bit and anything else
      as a three-byte format. */
  function BytesPerPixel(code: int): (n: nat)
    ensures n == 2 || n == 3
    ensures n == 2 <==> code == Format16
  {
    if code == Format16 then 2 else 3
  }

  datatype Channels = Channels(r: int, g: int, b: int)

  /** How the panel reads one pixel's bytes in each format. */
  function PanelChannels(code: int, px: seq<Byte>): Channels
    requires |px| == BytesPerPixel(code)
  {
    if code == Format16 then Channels(px[0] / 8, (px[0] % 8) * 8 + px[1] / 32, px[1] % 32)
    else if code == Format18 then Channels(px[0] / 4, px[1] / 4, px[2] / 4)
    else Channels(px[0], px[1], px[2])
  }

  /** The channel precision of each format, from 8-bit channels. */
  function Quantize(code: int, r: Byte, g: Byte, b: Byte): Channels
  {
    if code == Format16 then Channels(r / 8, g / 4, b / 8)
    else if code == Format18 then Channels(r / 4, g / 4, b / 4)
    else Channels(r, g, b)
  }

  /** rgb() as written.  Each `(v << s) & mask` keeps the bits of v that
      land inside the mask, and the three masks are disjoint, so `|` adds:
        16-bit: `(r << 11) & 0xF800` is bits 0..4 of r at 11, `(g << 5) & 0x7E0`
                bits 0..5 of g at 5, `b & 0x1F` bits 0..4 of b;
        18-bit: `(r << 10) & 0x3F000` is bits 2..7 of r at 12, `(g << 4) & 0xFC0`
                bits 2..7 of g at 6, `(b >> 2) & 0x3F` bits 2..7 of b;
        24-bit: each channel's low byte in its own byte. */
  function RgbAsWritten(code: int, r: int, g: int, b: int): (c: int)
    ensures code == Format16 ==> 0 <= c < 0x10000
    ensures code == Format18 ==> 0 <= c < 0x40000
    ensures code != Format16 && code != Format18 ==> 0 <= c < 0x1000000
  {
    if code == Format16 then (r % 32) * 2048 + (g % 64) * 32 + b % 32
    else if code == Format18 then ((r / 4) % 64) * 4096 + ((g / 4) % 64) * 64 + (b / 4) % 64
    else (r % 256) * 65536 + (g % 256) * 256 + b % 256
  }

  /** rgb() with the 16-bit branch taking the top 5/6/5 bits of each 8-bit
      channel, `(r & 0xF8) << 8 | (g & 0xFC) << 3 | b >> 3`, as the 18-bit
      branch and the BMP path already do. */
  function Rgb(code: int, r: Byte, g: Byte, b: Byte): (c: int)
    ensures code == Format16 ==> 0 <= c < 0x10000
    ensures code == Format18 ==> 0 <= c < 0x40000
    ensures code != Format16 && code != Format18 ==> 0 <= c < 0x1000000
  {
    if code == Format16 then (r / 8) * 2048 + (g / 4) * 32 + b / 8
    else RgbAsWritten(code, r, g, b)
  }

  /** The 18-bit split as written: `(c >> 10) & 0xFF`, `(c >> 2) & 0xFF`,
      `(c << 4) & 0xF0`. */
  function Split18AsWritten(c: int): (px: seq<Byte>)
    ensures |px| == 3 && px[2] % 16 == 0
  {
    [(c / 1024) % 256, (c / 4) % 256, (c % 16) * 16]
  }

  /** The 18-bit split with each 6-bit channel in bits 7..2:
      `(c >> 10) & 0xFC`, `(c >> 4) & 0xFC`, `(c << 2) & 0xFC`. */
  function Split18(c: int): (px: seq<Byte>)
    ensures |px| == 3 && px[0] % 4 == 0 && px[1] % 4 == 0 && px[2] % 4 == 0
  {
    [((c / 4096) % 64) * 4, ((c / 64) % 64) * 4, (c % 64) * 4]
  }

  /** The bytes one pixel of colour c sends, as every drawing routine
      computes them (16-bit: high, low; 18-bit: the split as written;
      24-bit: `(c >> 16) & 0xFF`, `(c >> 8) & 0xFF`, `c & 0xFF`). */
  function PixelBytes(code: int, c: int): (px: seq<Byte>)
    ensures |px| == BytesPerPixel(code)
  {
    if code == Format16 then [Hi(c), Lo(c)]
    else if code == Format18 then Split18AsWritten(c)
    else [(c / 65536) % 256, Hi(c), Lo(c)]
  }

  /** The pixel split with the 18-bit case corrected; the other formats
      are sent as they are. */
  function CorrectedPixelBytes(code: int, c: int): (px: seq<Byte>)
    ensures |px| == BytesPerPixel(code)
    ensures code != Format18 ==> px == PixelBytes(code, c)
  {
    if code == Format18 then Split18(c) else PixelBytes(code, c)
  }

  /** rgb() followed by the corrected pixel split shows the panel every
      channel at the format's precision. */
  lemma RgbRoundTrip(code: int, r: Byte, g: Byte, b: Byte)
    ensures PanelChannels(code, CorrectedPixelBytes(code, Rgb(code, r, g, b))) == Quantize(code, r, g, b)
  {
    if code == Format16 {
      var R, G, B := r / 8, g / 4, b / 8;
      assert Rgb(code, r, g, b) == R * 2048 + G * 32 + B;
      Fields565(R, G, B);
    } else if code == Format18 {
      var R, G, B := r / 4, g / 4, b / 4;
      DivModOf(R, 64, 0, R);
      DivModOf(G, 64, 0, G);
      DivModOf(B, 64, 0, B);
      assert Rgb(code, r, g, b) == R * 4096 + G * 64 + B;
      Fields666(R, G, B);
    } else {
      var R, G, B: int := r, g, b;
      DivModOf(R, 256, 0, R);
      DivModOf(G, 256, 0, G);
      DivModOf(B, 256, 0, B);
      assert Rgb(code, r, g, b) == R * 65536 + G * 256 + B;
      Fields888(R, G, B);
    }
  }

  lemma Fields565(R: int, G: int, B: int)
    requires 0 <= R < 32 && 0 <= G < 64 && 0 <= B < 32
    ensures var c := R * 2048 + G * 32 + B;
      PanelChannels(Format16, PixelBytes(Format16, c)) == Channels(R, G, B)
  {
    var c := R * 2048 + G * 32 + B;
    var hi := R * 8 + G / 8;
    var lo := (G % 8) * 32 + B;
    assert c == hi * 256 + lo;
    DivModOf(c, 256, hi, lo);
    DivModOf(hi, 256, 0, hi);
    assert Hi(c) == hi && Lo(c) == lo;
    DivModOf(hi, 8, R, G / 8);
    DivModOf(lo, 32, G % 8, B);
  }

  lemma Fields666(R: int, G: int, B: int)
    requires 0 <= R < 64 && 0 <= G < 64 && 0 <= B < 64
    ensures var c := R * 4096 + G * 64 + B;
      PanelChannels(Format18, Split18(c)) == Channels(R, G, B)
  {
    var c := R * 4096 + G * 64 + B;
    DivModOf(c, 4096, R, G * 64 + B);
    DivModOf(R, 64, 0, R);
    DivModOf(c, 64, R * 64 + G, B);
    DivModOf(R * 64 + G, 64, R, G);
    DivModOf(c, 64, R * 64 + G, B);
  }

  lemma Fields888(R: int, G: int, B: int)
    requires 0 <= R < 256 && 0 <= G < 256 && 0 <= B < 256
    ensures var c := R * 65536 + G * 256 + B;
      PanelChannels(Format24, PixelBytes(Format24, c)) == Channels(R, G, B)
  {
    var c := R * 65536 + G * 256 + B;
    DivModOf(c, 65536, R, G * 256 + B);
    DivModOf(R, 256, 0, R);
    DivModOf(c, 256, R * 256 + G, B);
    DivModOf(R * 256 + G, 256, R, G);
  }

  /** Splitting and reading back a colour that fits the format is lossless
      for 16 and 24 bits. */
  lemma PixelBytesFaithful(code: int, c: int)
    requires code != Format18
    requires 0 <= c < (if code == Format16 then 0x10000 else 0x1000000)
    ensures var ch := PanelChannels(code, PixelBytes(code, c));
      if code == Format16 then ch.r * 2048 + ch.g * 32 + ch.b == c
      else ch.r * 65536 + ch.g * 256 + ch.b == c
  {
    if code == Format16 {
      var q, B := c / 32, c % 32;
      var R, G := q / 64, q % 64;
      assert R * 64 + G == q;
      assert c == (R * 64 + G) * 32 + B;
      assert c == R * 2048 + G * 32 + B;
      Fields565(R, G, B);
    } else {
      var q, B := c / 256, c % 256;
      var R, G := q / 256, q % 256;
      assert R * 256 + G == q;
      assert c == (R * 256 + G) * 256 + B;
      assert c == R * 65536 + G * 256 + B;
      Fields888(R, G, B);
    }
  }

  /** Every 18-bit colour reaches the panel with its three 6-bit fields. */
  lemma Split18Faithful(c: int)
    requires 0 <= c < 0x40000
    ensures var ch := PanelChannels(Format18, Split18(c));
      ch.r * 4096 + ch.g * 64 + ch.b == c
  {
    var q, B := c / 64, c % 64;
    var R, G := q / 64, q % 64;
    assert R * 64 + G == q;
    assert c == (R * 64 + G) * 64 + B;
    assert c == R * 4096 + G * 64 + B;
    Fields666(R, G, B);
  }

  /** rgb() as written keeps the low bits of each channel in 16-bit mode:
      mid grey comes out black. */
  lemma RgbAsWrittenDropsHighBits()
    ensures RgbAsWritten(Format16, 128, 128, 128) == 0
    ensures Quantize(Format16, 128, 128, 128) == Channels(16, 32, 16)
  {
  }

  /** The 18-bit split as written, which every drawing routine sends,
      shows the panel the wrong green and blue: mid grey (32, 32, 32)
      arrives as (32, 2, 0). */
  lemma Split18AsWrittenGarbles()
    ensures var c := Rgb(Format18, 128, 128, 128);
      c == 0x20820
      && PixelBytes(Format18, c) == [0x82, 0x08, 0x00]
      && PanelChannels(Format18, PixelBytes(Format18, c)) == Channels(32, 2, 0)
      && PanelChannels(Format18, CorrectedPixelBytes(Format18, c)) == Channels(32, 32, 32)
  {
  }
}
