# ILI9341 / ILI9486 / ILI9488 8-bit parallel display driver, modelled in Dafny

This project models the MicroPython driver for ILI9341, ILI9486 and ILI9488
TFT controllers on an 8-bit 8080-style parallel bus. It covers:

- the driver class `ILI9XXX_8B` and its three controller profiles;
- the resistive touch-screen reader for the RP2;
- the arithmetic of the touch calibration script;
- the wiring checker.

Everything the driver sends is modelled as a **bus trace**: a sequence of
events.

- Bytes are latched as commands (DC low) or as data (DC high).
- Chip select is released.
- The reset line is driven.
- The driver pauses.

The slow routines (`write_command`, `write_data`, `write_multy_data`) drive
pins one at a time. The fast routines store whole 32-bit words, taken from the
byte-to-GPIO lookup table, into the GPIO output register, and set the WR bit.
`Bus.Lower` turns events into those register writes and `Bus.Decode` reads
them back the way a logic analyser on the panel's pins would. `Bus.LowerDecode`
proves that lowering any trace of command and data strobes through a table
built from a captured baseline, then decoding, gives the trace back. So a
trace fixes what the pins carry. The fast routines' loops are themselves
modelled at trace level: each routine is the trace it sends, and no lemma
connects a viper loop's register stores to `Bus.Lower`.

`Panel` is a reference model of the controller side, following the ILI9341,
ILI9486 and ILI9488 datasheets for the 8080 interface:

- 0x2A and 0x2B set the window.
- 0x2C opens memory write at the window's top-left corner.
- Each pixel's bytes are stored at a cursor that advances row-major through
  the window.

Each drawing routine's trace is run on this panel. Lemmas then state which
pixel groups land on which pixels, with the bytes the driver computes. In
18-bit mode those are the bytes of the split as written, which do not carry
the colour intact (see Findings). For `draw_bmp` the panel lemmas cover both
the loop as written and the corrected one. `Profile.Receive` is a second
controller view, used for the init lists: the commands and parameters the
controller receives.

Modules, one per concept:

| module | models |
|---|---|
| `Bits` | shifts, masks, byte splits and bit sequences |
| `GpioTable` | `generate_byte2gpio`, `convert_byte2gpio` |
| `Bus` | the bus events, and the register writes of the fast path |
| `Color` | pixel formats, `rgb`, the per-pixel byte split |
| `Display` | state, reset, MADCTL, rotation, scrolling, window, pixel, rectangles |
| `Panel` | the controller's frame-memory writes |
| `Line` | `draw_line` (Bresenham) |
| `Glyphs` | `_draw_glyph`, `_draw_glyph_fast`, `draw_bitmap`, `draw_bitmap_fast` |
| `Text` | `draw_text`, `draw_text_fast`, `scroll_text` |
| `Images` | `draw_raw_image`, `draw_bmp` |
| `Profile` | the init-list shape shared by the three profiles |
| `Ili9341`, `Ili9486`, `Ili9488` | the three profiles |
| `Platform` | `controller_definition` and the GPIO register addresses |
| `Touch` | `resist_touch_rp2.py` |
| `Calibration` | `touch_calibration_ili9488.py` |
| `PinChecker` | `ili9xxx_pin_checker.py` |

Where behaviour is described one way and coded another, the model follows the
code:

- Every drawing routine sends the 18-bit split as written;
  `Color.CorrectedPixelBytes` is the corrected split, and only the findings
  use it.
- `draw_bmp` is modelled as written (`Images.DrawBmpAsWritten`: unsigned
  height, triplets fw down to 1, and bytes past the read buffer). A corrected
  `Images.DrawBmp` is modelled beside it.
- `rgb()` is modelled as written (`Color.RgbAsWritten`). The corrected
  `Color.Rgb` is the one the colour round trip is proved for.
- `draw_text` skips a space's width before drawing the space, so every space
  takes two widths.
- `draw_text_fast` and `scroll_text` draw a space a second time when a second
  one still fits.
- The BMP path takes the top 5/6/5 bits of each channel, while `rgb()` takes
  the low bits (see Findings).
- `read_touch` keeps sorted sample `NUM_SAMPLES // 2 + 1`, which is one above
  the median of eleven samples.

## Model

| member | source | states |
|---|---|---|
| GpioTable.Or | ili9xxx_8b.py:165 | bit k of `a \| b` is set iff it is set in a or in b |
| GpioTable.Place | ili9xxx_8b.py:182 | `bit << pin` sets exactly bit `pin`, and only when the bit is 1 |
| GpioTable.Scatter | ili9xxx_8b.py:182-189 | bit k of the OR of `((byte >> i) & 1) << data[i]` is set iff some data pin i sits at k with bit i of the byte set |
| GpioTable.ConvertByte2Gpio | ili9xxx_8b.py:172-189 | the word has bit k set iff one of the eight data pins is at k and carries a 1 bit of the byte |
| GpioTable.CaptureBaseline | ili9xxx_8b.py:152-157 | the captured word has CS low, DC high, WR low and every data pin low; every other pin keeps the register's level |
| GpioTable.ByteOf | ili9xxx_8b.py:164-167 | eight bits as a byte equal their little-endian value |
| GpioTable.WordBytes | ili9xxx_8b.py:165 | `to_bytes(4, 'little')` gives four bytes |
| GpioTable.TablePrefix | ili9xxx_8b.py:163-167 | the first n entries hold four bytes each, and bytes 4b..4b+4 are entry b |
| GpioTable.GenerateByte2Gpio | ili9xxx_8b.py:148-169 | the table has 1024 bytes; bytes 4b..4b+4 are the little-endian word `convert_byte2gpio(b) \| empty_mask` |
| GpioTable.WordBytesValue | ili9xxx_8b.py:165-167 | the four little-endian bytes read back as the word's value |
| GpioTable.TableWordIsEntry | ili9xxx_8b.py:365-377 | a 32-bit load of index b from the table gives entry b |
| GpioTable.EntryDrivesByte | ili9xxx_8b.py:163-165 | entry b drives the data pins to exactly byte b |
| GpioTable.EntryKeepsControlPins | ili9xxx_8b.py:163-165 | every pin that is not a data pin keeps its baseline level in every entry |
| GpioTable.CommandWordClearsDc | ili9xxx_8b.py:377 | `byte2gpio[c] - dc_bit` is entry c with DC cleared and nothing else changed |
| Profile.WriteCommandReceived | ili9xxx_8b.py:100-110 | after write_command the controller has one more command, with no parameters yet |
| Profile.WriteDataReceived | ili9xxx_8b.py:112-122 | write_data appends its byte to the parameters of the last command received, and is ignored before any command |
| Bus.DataBytes | ili9xxx_8b.py:130-134 | the strobes of a burst latch the bytes in order with DC high |
| Bus.WriteMultyData | ili9xxx_8b.py:124-135 | write_multy_data latches every byte in order under one selection and releases CS once at the end |
| Bus.DataBytesAppend | ili9xxx_8b.py:130-134 | a burst of a + b is the burst of a, then the burst of b |
| Bus.MultyDataOfOne | ili9xxx_8b.py:112-135 | a one-byte write_multy_data puts the same events on the bus as write_data |
| Bus.ReadDataByteIgnores | ili9xxx_8b.py:377 | clearing a non-data pin leaves the byte on the data pins unchanged |
| Bus.LatchDecodes | ili9xxx_8b.py:377-378 | a word with CS and WR low followed by setting WR latches the data-pin byte, as a command iff DC is low |
| Bus.DataEventDecodes | ili9xxx_8b.py:381-382 | a table word and a WR set decode to that data byte |
| Bus.CmdEventDecodes | ili9xxx_8b.py:377-378 | a table word minus dc_bit and a WR set decode to that command byte |
| Bus.LowerEventDecodes | ili9xxx_8b.py:377-408 | the register writes of one fast event decode back to that event |
| Bus.LowerDecode | ili9xxx_8b.py:359-408 | lowering any fast trace through a table built from a captured baseline, then decoding, gives the trace back |
| Color.FormatCode | ili9xxx_8b.py:52-57 | 24 bits gives 0x77, 18 gives 0x66, anything else 0x55 |
| Color.BytesPerPixel | ili9xxx_8b.py:473-490 | two bytes per pixel exactly for 0x55, three otherwise |
| Color.Rgb | ili9xxx_8b.py:687-698 | the corrected colour fits 16, 18 or 24 bits according to the format |
| Color.PixelBytes | ili9xxx_8b.py:473-490 | a pixel, as every drawing routine splits it (18-bit split as written), is as many bytes as the format's bytes per pixel |
| Color.CorrectedPixelBytes | ili9xxx_8b.py:473-490 | the corrected split has the format's size and differs from the driver's only in 18-bit mode |
| Color.RgbAsWritten | ili9xxx_8b.py:687-698 | rgb() as written fits 16, 18 or 24 bits according to the format |
| Color.Split18AsWritten | ili9xxx_8b.py:478-483 | the 18-bit split as written is three bytes, the last with its low four bits clear |
| Color.Split18 | ili9xxx_8b.py:478-483 | the corrected 18-bit split is three bytes, each with its two low bits clear |
| Color.RgbRoundTrip | ili9xxx_8b.py:687-698 | rgb() followed by the pixel split shows the panel every channel at the format's precision (5/6/5, 6/6/6 or 8/8/8 top bits) |
| Color.Fields565 | ili9xxx_8b.py:473-476 | the high/low split of an RGB565 value gives the panel its three fields |
| Color.Fields666 | ili9xxx_8b.py:478-483 | the corrected 18-bit split gives the panel its three 6-bit fields |
| Color.Fields888 | ili9xxx_8b.py:485-490 | the 24-bit split gives the panel its three bytes |
| Color.PixelBytesFaithful | ili9xxx_8b.py:473-490 | splitting a 16- or 24-bit colour and reading it back is lossless |
| Color.Split18Faithful | ili9xxx_8b.py:478-483 | every 18-bit colour reaches the panel with its three 6-bit fields |
| Color.RgbAsWrittenDropsHighBits | ili9xxx_8b.py:691-692 | rgb(128, 128, 128) as written is 0 (black) in 16-bit mode, where the top bits give (16, 32, 16) |
| Color.Split18AsWrittenGarbles | ili9xxx_8b.py:478-483 | mid grey in 18-bit mode reaches the panel as (32, 2, 0) with the split as written, and as (32, 32, 32) with the corrected split |
| Display.NewDisplay | ili9xxx_8b.py:49-59 | the new display has the given size, rotation 0, and the format code of the given bit depth |
| Display.Reset | ili9xxx_8b.py:91-98 | reset pulses RST low for 10 ms and high for 120 ms, sends software reset 0x01, and waits 120 ms |
| Display.MadctlByte | ili9xxx_8b.py:197-208 | the MADCTL byte has its two low bits clear |
| Display.MadctlRoundTrip | ili9xxx_8b.py:197-208 | the controller recovers all six flags from the byte memory_access_control sends |
| Display.MemoryAccessControl | ili9xxx_8b.py:197-208 | command 0x36, then one data byte that decodes to the given flags |
| Display.SetRotation | ili9xxx_8b.py:229-254 | a rotation outside 0..3 changes nothing and sends nothing; otherwise the table's MADCTL goes out, and width and height swap iff the rotation's parity changes |
| Display.RotationsKeepNativeSize | ili9xxx_8b.py:229-254 | after any sequence of set_rotation calls the unrotated width and height are unchanged |
| Display.InitDisplay | ili9xxx_8b.py:210-227 | the base init is reset, display off, command 0x36 with 0x48, command 0x3A with the pixel format, sleep out, 120 ms, display on, each at its place in the 22 events |
| Display.WriteWord | ili9xxx_8b.py:309-314 | two write_data calls, high byte then low, that recombine to any 16-bit value |
| Display.VertScroll | ili9xxx_8b.py:292-320 | 0x33 and three 16-bit words go out iff the three areas add up to the unrotated height; otherwise nothing is sent |
| Display.VertScrollStartAddress | ili9xxx_8b.py:322-329 | command 0x37 and the start row as a 16-bit word |
| Display.ScrollFrom | ili9xxx_8b.py:331-342 | scroll sends seven events per row of the unrotated height |
| Display.ScrollFromStep | ili9xxx_8b.py:340-342 | step k of scroll sets start address k + 1 and then waits for the delay |
| Display.Scroll | ili9xxx_8b.py:331-342 | scroll is one block of seven events per unrotated row; block k sets start address k + 1 and waits for the delay |
| Display.SetWindow | ili9xxx_8b.py:359-408 | set_window sends 0x2A, four data bytes, 0x2B, four data bytes, and 0x2C, with CS left low |
| Display.SetWindowDecodes | ili9xxx_8b.py:381-403 | every coordinate below 0x10000 is recovered from its high and low bytes |
| Display.Burst | ili9xxx_8b.py:584-622 | n copies of a pixel are n × (bytes per pixel) data strobes, cycling through the pixel's bytes |
| Display.DrawPixel | ili9xxx_8b.py:412-493 | draw_pixel sends 12 events plus the pixel's bytes |
| Display.DrawPixelIsFillRect | ili9xxx_8b.py:412-493 | draw_pixel sends the same events as fill_rect of the 1 × 1 box at (x, y) |
| Display.PixelStream | ili9xxx_8b.py:725-731 | back-to-back pixel groups are data strobes only |
| Display.PixelStreamSnoc | ili9xxx_8b.py:725-731 | one more group sends its bytes after the others |
| Display.DrawPixels | ili9xxx_8b.py:495-522 | block i of the trace, 12 events plus the pixel's bytes long, is draw_pixel of point i |
| Display.PixelCount | ili9xxx_8b.py:584-622 | fill_rect sends pixels iff `x_len * y_len` is positive |
| Display.FillRect | ili9xxx_8b.py:565-624 | fill_rect is the rectangle's window, `x_len * y_len` copies of the colour (none when that is not positive), and CS released |
| Display.FillScreen | ili9xxx_8b.py:626-631 | fill_screen is the whole screen's window, width × height copies of the colour, and CS released |
| Display.DrawVline | ili9xxx_8b.py:525-534 | draw_vline fills the thickness × height box at (x, y) |
| Display.DrawHline | ili9xxx_8b.py:537-546 | draw_hline fills the width × thickness box at (x, y) |
| Display.BandFill | ili9xxx_8b.py:565-583 | fill_rect of a band first opens that band's window |
| Display.BandFillsAt | ili9xxx_8b.py:549-562 | entry i of the list of band fills is fill_rect of band i |
| Display.Fills | ili9xxx_8b.py:549-562 | filling bands in turn puts fill_rect of band i right after the fills of the bands before it |
| Display.FillsSnoc | ili9xxx_8b.py:549-562 | one more band's fill comes after the fills of the others |
| Display.DrawRect | ili9xxx_8b.py:549-562 | draw_rect is fill_rect of the top, left, bottom and right bands in that order: piece i of its trace, after the fills before it, is fill_rect of band i |
| Display.RectBandsCoverFrame | ili9xxx_8b.py:549-562 | the four bands cover exactly the (w+t) × (h+t) box without its interior |
| Panel.RunAppend | ili9xxx_8b.py:359-624 | the panel runs a concatenated trace piece by piece |
| Panel.RunOne | ili9xxx_8b.py:359-624 | running one event is one panel step |
| Panel.RangeArgs | ili9xxx_8b.py:376-403 | 0x2A or 0x2B with four bytes sets the column or page range to the two high-first 16-bit values |
| Panel.SetWindowEffect | ili9xxx_8b.py:359-408 | after set_window the panel's window is the requested one, the cursor is at its top-left corner, and memory write is open |
| Panel.FinishPixel | ili9xxx_8b.py:473-490 | the last bytes of a pixel store it at the cursor |
| Panel.RowMajor | ili9xxx_8b.py:584-622 | entry i of the walk from cell k0 is cell k0 + i with the pixel |
| Panel.AdvanceIsNextCell | ili9xxx_8b.py:584-622 | the panel's cursor advance is the next cell of the row-major walk |
| Panel.BurstWalk | ili9xxx_8b.py:584-622 | a burst of n pixels stores them along the row-major walk and changes nothing else |
| Panel.Walk | ili9xxx_8b.py:725-731 | entry i of the walk is cell k0 + i with pixel group i |
| Panel.StreamWalk | ili9xxx_8b.py:725-731 | a stream of pixel groups stores group i at cell k0 + i and changes nothing else |
| Panel.WindowStreamWrites | ili9xxx_8b.py:701-735 | a window followed by a pixel stream stores the groups along the window's row-major walk |
| Panel.WindowStreamCells | ili9xxx_8b.py:701-735 | the group for row r, column c of the stream lands on pixel (x + c, y + r) |
| Panel.FillRectWrites | ili9xxx_8b.py:565-624 | fill_rect stores w × h pixels of the colour, row-major over the rectangle, and nothing else; the pixel size stays |
| Panel.WindowBurstWrites | ili9xxx_8b.py:565-624 | a window, n copies of a pixel and the CS release store the copies along the window's row-major walk and keep the pixel size |
| Panel.BandPaint | ili9xxx_8b.py:565-624 | the pixels fill_rect stores for a band are w × h in number |
| Panel.BandPaintCells | ili9xxx_8b.py:565-624 | a band's fill puts the colour on exactly the band's pixels |
| Panel.BandStep | ili9xxx_8b.py:549-562 | a band filled after earlier drawing stores the band's walk after what was already stored |
| Panel.FillsWrites | ili9xxx_8b.py:549-562 | filling bands in turn stores each band's walk in turn and keeps the pixel size |
| Panel.PaintsFour | ili9xxx_8b.py:549-562 | the walks of four bands in turn are the four walks one after the other |
| Panel.FourFillsWrite | ili9xxx_8b.py:549-562 | four bands filled in turn store their four walks in turn |
| Panel.DrawRectWrites | ili9xxx_8b.py:549-562 | draw_rect stores the colour along the top, left, bottom and right bands in that order, and nothing else |
| Panel.DrawRectPaints | ili9xxx_8b.py:549-562 | draw_rect keeps what was stored before and adds the colour on exactly the pixels of the frame: the (w+t) × (h+t) box at (x, y) without its (w-t) × (h-t) interior |
| Panel.RowMajorInside | ili9xxx_8b.py:565-624 | every step of the walk lands inside the rectangle |
| Panel.RowMajorReaches | ili9xxx_8b.py:565-624 | every pixel of the rectangle is reached, at step (py - y) × w + (px - x) |
| Panel.RowMajorInjective | ili9xxx_8b.py:565-624 | no pixel is written twice |
| Panel.DrawPixelWrites | ili9xxx_8b.py:412-493 | draw_pixel stores exactly one pixel, the colour's bytes, at (x, y) |
| Panel.IdleRun | ili9xxx_8b.py:322-329 | with no command, data bytes, CS releases and delays leave an idle panel unchanged |
| Panel.ScrollAddressQuiet | ili9xxx_8b.py:322-329 | a vertical scroll start address changes no pixel of frame memory |
| Line.StepsAppend | ili9xxx_8b.py:510-522 | one more unit step extends a chain of unit steps |
| Line.XEndGap | ili9xxx_8b.py:516-522 | once x is at its end and y is not, the error term is at most -dx |
| Line.YEndGap | ili9xxx_8b.py:516-522 | once y is at its end and x is not, the error term is at least dy |
| Line.StepMajorX | ili9xxx_8b.py:516-522 | on a mostly-horizontal line x moves on every pass and the error bound is kept |
| Line.StepMajorY | ili9xxx_8b.py:516-522 | on a mostly-vertical line y moves on every pass and the error bound is kept |
| Line.BresenhamStep | ili9xxx_8b.py:516-522 | one pass short of the end moves the major axis, passes neither end, and keeps the bound |
| Line.TracksEnd | ili9xxx_8b.py:514-515 | the loop stops exactly when both coordinates have taken all their steps |
| Line.NextTracks | ili9xxx_8b.py:510-522 | one pass moves the point one unit step toward the end point and shrinks the remaining distance |
| Line.DrawLine | ili9xxx_8b.py:495-522 | draw_line draws max(\|dx\|, \|dy\|) + 1 points from the start to the end point, each a unit step in the line's direction |
| Glyphs.Stride | ili9xxx_8b.py:1010-1036 | a glyph row is the fewest whole bytes that hold its width |
| Glyphs.InkRow | ili9xxx_8b.py:1012-1036 | a row's points are exactly its set bits, most significant bit first |
| Glyphs.DrawGlyph | ili9xxx_8b.py:997-1036 | _draw_glyph's trace is one draw_pixel block per point of the glyph's set bits, in order |
| Glyphs.GlyphPoints | ili9xxx_8b.py:997-1036 | _draw_glyph draws pixel (x + c, y + r) iff bit 7 - c % 8 of byte r × stride + c / 8 is set, over whole bytes (the padding bits included) |
| Glyphs.GlyphColours | ili9xxx_8b.py:1084-1206 | _draw_glyph_fast streams one pixel per dot of the width × height box |
| Glyphs.ByteDots | ili9xxx_8b.py:1118-1136 | the inner loop gives n dots, foreground when bit 7 - dot is set and background otherwise |
| Glyphs.GlyphRow | ili9xxx_8b.py:1116-1136 | a glyph row streams, column by column, the foreground for a set dot and the background otherwise |
| Glyphs.DotsInk | ili9xxx_8b.py:1118-1136 | the dots of one byte are the row's dots from that byte's first column on |
| Glyphs.GlyphColoursAt | ili9xxx_8b.py:1084-1206 | stream entry r × w + c is dot (r, c) in the foreground or background colour |
| Glyphs.GlyphFastTrace | ili9xxx_8b.py:1084-1206 | _draw_glyph_fast opens the glyph's box as the window |
| Glyphs.DrawGlyphFast | ili9xxx_8b.py:1084-1206 | _draw_glyph_fast sends exactly the glyph's window and the row-major dot stream |
| Glyphs.GlyphStream | ili9xxx_8b.py:1115-1206 | the row loop's dots, row after row, are exactly the row-major stream of dot colours |
| Glyphs.RowExtends | ili9xxx_8b.py:1115-1206 | one more glyph row extends the stream of the rows above it by that row's dots |
| Glyphs.GlyphFastOnPanel | ili9xxx_8b.py:1084-1206 | on the panel, dot (r, c) lands on (x + c, y + r) in the foreground colour when set and in the background otherwise |
| Glyphs.GlyphSlowFastAgree | ili9xxx_8b.py:997-1206 | inside the glyph's box the fast stream has the foreground colour exactly where _draw_glyph draws a pixel |
| Glyphs.BitmapRow | ili9xxx_8b.py:836-847 | a bitmap row (any int) has as points exactly its set bits below the size, least significant first |
| Glyphs.BitmapPoints | ili9xxx_8b.py:836-847 | draw_bitmap draws (x + c, y + r) iff bit c of row r is set, for every row of the bitmap and c below the size |
| Glyphs.DrawBitmap | ili9xxx_8b.py:836-847 | draw_bitmap's trace is one draw_pixel block per set bit, in order |
| Glyphs.FastRows | ili9xxx_8b.py:876-877 | the fast loop gets through size rows, or through the whole bitmap when it has fewer |
| Glyphs.BitmapColours | ili9xxx_8b.py:850-942 | draw_bitmap_fast streams size pixels for every row it reaches (none for a non-positive size) |
| Glyphs.DrawBitmapFast | ili9xxx_8b.py:850-942 | the window opens first; the call raises iff the bitmap has fewer than size rows, after streaming the rows it has and with CS left low; otherwise it ends by releasing CS |
| Glyphs.BitmapIndex | ili9xxx_8b.py:876-878 | stream entry r × size + c is bit c of row r |
| Glyphs.BitmapFastOnPanel | ili9xxx_8b.py:850-942 | on the panel, bit c of row r lands on (x + c, y + r) in the foreground colour when set and in the background otherwise |
| Glyphs.BitmapSlowFastAgree | ili9xxx_8b.py:836-942 | on a square bitmap the fast stream has the foreground colour exactly where draw_bitmap draws |
| Text.TextStep | ili9xxx_8b.py:971-994 | every glyph a pass draws fits above the bottom under the loop's test and is the font's glyph for the character (a tab drawn as a space) |
| Text.Layout | ili9xxx_8b.py:955-994 | a layout draws at most two glyphs per character, each ending at or above the bottom under the loop's test |
| Text.LayoutFits | ili9xxx_8b.py:955-994 | every glyph of a whole layout fits above the bottom and comes from the font |
| Text.NewlineForcesWrap | ili9xxx_8b.py:971-990 | after a newline the next glyph goes to the start x one glyph height lower, or the text stops when that row does not fit |
| Text.LayoutWellFormed | ili9xxx_8b.py:955-994 | every glyph a layout draws holds the bytes the glyph loops read |
| Text.SlowTrace | ili9xxx_8b.py:987-992 | one placed glyph sends exactly _draw_glyph of it |
| Text.SlowTraceAppend | ili9xxx_8b.py:971-994 | the trace of two layouts in sequence is the first's then the second's, so glyphs are drawn in layout order |
| Text.FastTrace | ili9xxx_8b.py:1075-1079 | one placed glyph sends exactly _draw_glyph_fast of it |
| Text.FastTraceAppend | ili9xxx_8b.py:1055-1079 | the fast trace of two layouts in sequence is the first's then the second's |
| Text.DrawText | ili9xxx_8b.py:955-994 | draw_text fails iff no font is set |
| Text.DrawTextFast | ili9xxx_8b.py:1038-1081 | the corrected draw_text_fast fails iff no font is set, and otherwise ends by releasing CS |
| Text.DrawTextFastAsWritten | ili9xxx_8b.py:1038-1081 | draw_text_fast as written fails iff no font is set, and otherwise ends by releasing CS |
| Text.FastAsWrittenDropsExactFit | ili9xxx_8b.py:1068-1073 | an 8 × 8 glyph on an 8 × 8 screen is drawn by draw_text and by the corrected fast loop, but not by the `>=` tests as written |
| Text.ScrollLine | ili9xxx_8b.py:1264-1269 | each scrolled line is a start address, a one-line fill and a delay, all of fixed length |
| Bus.BlockAt | ili9xxx_8b.py:1266-1269 | block i of k blocks of n events sits at events i × n .. i × n + n |
| Text.ScrollLineClears | ili9xxx_8b.py:1264-1269 | on the panel a scrolled line repaints screen line y + ys, columns 0 .. w - 1, with the background and writes nothing else |
| Text.ScrollRow | ili9xxx_8b.py:1264-1269 | _scroll_row sends one fixed-length line per line of the glyph height |
| Text.ScrollRowLine | ili9xxx_8b.py:1264-1269 | line ys of _scroll_row sets start address y + ys + 1, clears screen line y + ys with the background, and waits |
| Text.Place | ili9xxx_8b.py:1245-1251 | a glyph reaching the right edge (`>=`) wraps to the start x on the next row; if that row does not fit (`>`), scrolling starts and the row goes to the top; otherwise nothing moves |
| Text.PlacedTrace | ili9xxx_8b.py:1253-1257 | while scrolling, a wrapped row is cleared first, then the glyph's window opens at its place |
| Text.ScrollStep | ili9xxx_8b.py:1235-1261 | a newline only moves the cursor to the right edge and sends nothing; any other character sends at least its window; scrolling, once on, stays on |
| Text.GlyphStep | ili9xxx_8b.py:1245-1261 | a drawn glyph's trace starts with the placed glyph (any row clearing, then its window and dots), and the row and scrolling flag afterwards are the placement's |
| Text.ScrollRun | ili9xxx_8b.py:1233-1261 | the loop sends nothing iff every character is a newline |
| Text.ScrollingStaysOn | ili9xxx_8b.py:1233-1259 | once scrolling has started it stays on for the rest of the text |
| Text.ScrollWrapState | ili9xxx_8b.py:1245-1251 | a wrap that runs past the bottom starts scrolling at row 0; otherwise the row moves down one glyph height |
| Text.ScrollWrapClears | ili9xxx_8b.py:1253-1254 | while scrolling, each wrapped row's lines are scrolled and cleared before the glyph is drawn |
| Text.ScrollWrapDraws | ili9xxx_8b.py:1245-1257 | before scrolling starts, a wrapped glyph's window opens at once at the start x of the next row |
| Text.WrapWindow | ili9xxx_8b.py:1245-1257 | the same for one glyph pass: outside scrolling, a wrapped glyph's trace opens with its window at the start x |
| Text.ScrollTextAsWritten | ili9xxx_8b.py:1208-1262 | with no font the call fails; with empty text, vert_scroll has gone out and `text[0]` raises |
| Text.ScrollText | ili9xxx_8b.py:1208-1262 | the corrected call fails iff no font is set, and otherwise ends by releasing CS |
| Text.ScrollTextCorrection | ili9xxx_8b.py:1230-1231 | both versions agree on every non-empty text; on empty text the original raises and the corrected one sends only the scroll definition and the CS release |
| Images.RawPixels | ili9xxx_8b.py:725-731 | the file seen as m two-byte pixels |
| Images.RawPixelsSize | ili9xxx_8b.py:725-731 | every group is two bytes |
| Images.RawPixelsAt | ili9xxx_8b.py:725-731 | group k is file bytes 2k and 2k + 1 |
| Images.RawBytesArePixels | ili9xxx_8b.py:725-731 | sending the first 2m bytes one by one is sending m pixel groups |
| Images.RawCount | ili9xxx_8b.py:725-731 | the pixel count is height × width when both are positive, and 0 otherwise |
| Images.RawBytes | ili9xxx_8b.py:725-731 | 2 × width × height bytes go out; byte j is file byte j while the file lasts, and memory past the read buffer after |
| Images.DrawRawImage | ili9xxx_8b.py:701-735 | outside 16-bit mode nothing is sent; in 16-bit mode the window, every image byte as data, and the CS release, whether or not the file is long enough |
| Images.RawImageBytes | ili9xxx_8b.py:701-735 | when the file holds the image, the bus carries the window, the file's first 2 × width × height bytes in order, and the CS release |
| Images.RawPairsFromFile | ili9xxx_8b.py:725-731 | pixel k sent is file bytes 2k and 2k + 1 whenever the file has them |
| Images.ClosedWindowWrites | ili9xxx_8b.py:701-735 | a window, a pixel stream and the CS release store the groups row-major over the window |
| Images.ClosedWindowCells | ili9xxx_8b.py:701-735 | cell (r, c) of the window gets group r × w + c |
| Images.RawImageOnPanel | ili9xxx_8b.py:701-735 | on a 16-bit panel, pixel k sent lands at step k of the image box's row-major walk, and is file pixel k when the file has it |
| Images.FromLETwo | ili9xxx_8b.py:752-753 | a two-byte little-endian field is low + 256 × high |
| Images.ParseBmp | ili9xxx_8b.py:746 | the header is read iff the file starts with 'BM' |
| Images.ParseBmpFields | ili9xxx_8b.py:746-754 | offset, width, height, planes, depth and compression are the little-endian fields at 10, 18, 22, 26, 28 and 30 |
| Images.RowSize | ili9xxx_8b.py:756 | the row stride is a multiple of 4 and between 3 × width and 3 × width + 3 |
| Images.BmpHeightAsWritten | ili9xxx_8b.py:751-759 | the height is read unsigned and so is never negative |
| Images.BmpHeight | ili9xxx_8b.py:751-759 | a height field of 2^31 or more is a negative (top-down) height, and its magnitude is the row count |
| Images.TopDownHeight | ili9xxx_8b.py:751-759 | height -2 (FE FF FF FF) is 4294967294 rows unsigned and 2 rows signed |
| Images.Frame | ili9xxx_8b.py:761-767 | the frame is the image clipped to the screen's right and bottom edges, and no smaller |
| Images.BmpPixel | ili9xxx_8b.py:802-833 | a triplet sends as many bytes as the format's pixel size |
| Images.BmpPixel565 | ili9xxx_8b.py:806-816 | in 16-bit mode the two bytes are rgb()'s top-bits RGB565 value, high byte first |
| Images.BmpPixelOnPanel | ili9xxx_8b.py:802-833 | in every format the panel sees the triplet's colour at the format's precision |
| Images.ColumnsAsWritten | ili9xxx_8b.py:804-816 | the row loop reads triplets fw, fw - 1, ..., 1 |
| Images.Columns | ili9xxx_8b.py:804-816 | the corrected loop reads triplets fw - 1, ..., 0 |
| Images.ColumnsCoverRow | ili9xxx_8b.py:799-816 | the loop as written reads triplet fw, past the row, and never triplet 0; the corrected loop reads each triplet of the row once |
| Images.PrevRow | ili9xxx_8b.py:793-800 | when frame row fh - 1 is in the file, so is row fh - 2 |
| Images.BmpRow | ili9xxx_8b.py:793-833 | a frame row is fw pixel groups of the format's size |
| Images.BmpPixels | ili9xxx_8b.py:793-833 | the frame is fw × fh pixel groups |
| Images.BmpPixelsSize | ili9xxx_8b.py:793-833 | every group has the format's pixel size |
| Images.BmpPixelsAt | ili9xxx_8b.py:793-800 | group r × fw + c is column c of frame row r, read from `offset + r × rowsize` |
| Images.DrawBmp | ili9xxx_8b.py:746-755 | corrected draw_bmp: a file that is not 'BM', or not one plane of uncompressed 24-bit pixels, draws nothing |
| Images.DrawAccepted | ili9xxx_8b.py:755-775 | corrected draw_bmp of an accepted file fails iff the frame's rows are not all in the file, and otherwise opens the frame's window and ends by releasing CS |
| Images.BmpTrace | ili9xxx_8b.py:755-775 | corrected draw_bmp of an accepted file sends the frame's window, its pixels and the CS release |
| Images.DrawBmpOnPanel | ili9xxx_8b.py:737-834 | corrected draw_bmp stores the frame's pixels row-major over the frame |
| Images.BmpCell | ili9xxx_8b.py:793-833 | corrected draw_bmp: the pixel for frame column c of row r goes to (x + c, y + r) with the colour of the row's stored triplet fw - 1 - c |
| Images.ReadAt | ili9xxx_8b.py:793-800 | `f.read(n)` at a position gives at most n bytes, each the file's byte there, and all n when the file has them |
| Images.BufferByte | ili9xxx_8b.py:803-805 | a pointer read inside the buffer gives the buffer's byte, and memory past the buffer beyond it |
| Images.BmpRowAsWritten | ili9xxx_8b.py:793-833 | the row loop as written sends fw pixel groups of the format's size |
| Images.BmpRowShift | ili9xxx_8b.py:799-816 | a row as written, whole in the file, is the corrected row shifted one column right: column 0 comes from past the buffer, and the row's first stored triplet is never sent |
| Images.BmpPixelsAsWritten | ili9xxx_8b.py:793-833 | the frame as written is fw × fh pixel groups of the format's size |
| Images.BmpPixelsAsWrittenAt | ili9xxx_8b.py:793-800 | group r × fw + c is column c of frame row r as written, read from `offset + r × rowsize` |
| Images.DrawBmpAsWritten | ili9xxx_8b.py:737-776 | draw_bmp as written of a file that is not 'BM' or not accepted sends nothing |
| Images.FrameTrace | ili9xxx_8b.py:769-775 | a frame on the bus opens its window first and releases CS last |
| Images.AcceptedAsWritten | ili9xxx_8b.py:746-755 | an accepted header leaves draw_bmp as written to its drawing part |
| Images.BmpAsWrittenTrace | ili9xxx_8b.py:755-775 | draw_bmp as written of an accepted file sends the frame's window, its rows as written and the CS release, whatever the file's length |
| Images.TopDownAsWritten | ili9xxx_8b.py:751-775 | a top-down file's window as written runs to the screen's bottom edge, whereas the corrected frame is the image's own height when it fits |
| Images.BmpAsWrittenOnPanel | ili9xxx_8b.py:737-834 | on the panel, column c of frame row r as written lands on (x + c, y + r) |
| Profile.StepTrace | ili9341.py:63-139 | each init step starts with write_command of its command |
| Profile.InitTrace | ili9341.py:60-142 | every init list starts with the reset and ends with sleep out, 120 ms, display on |
| Profile.Sent | ili9341.py:63-142 | the steps deliver their commands and parameters in order |
| Profile.ReceiveCommand | ili9xxx_8b.py:100-135 | a command and its parameter bytes arrive as one entry |
| Profile.ReceiveStep | ili9xxx_8b.py:100-135 | one init step delivers exactly its command and parameters |
| Profile.ReceiveAppendSteps | ili9341.py:63-142 | a list of steps delivers exactly its commands, in order |
| Profile.ResetReceived | ili9xxx_8b.py:91-98 | the reset delivers the software reset command alone |
| Profile.InitReceived | ili9341.py:60-142 | the controller receives the software reset, then exactly the listed commands with their parameters |
| Profile.ReceivedAt | ili9341.py:60-142 | the controller's (i+1)-th command is the i-th step's |
| Profile.StepsTraceAppend | ili9341.py:63-142 | splitting the list splits the trace |
| Profile.ClosingSteps | ili9341.py:139-142 | the list ends with sleep out, 120 ms, display on |
| Ili9341.Default | ili9341.py:45 | the ILI9341 defaults to 240 × 320 at 16 bits |
| Ili9341.InitBody | ili9341.py:63-137 | nineteen steps, with display off first, MADCTL 0x48, the pixel format, and the two 15-byte gamma tables |
| Ili9341.InitCommands | ili9341.py:60-142 | the controller receives reset, display off, ..., MADCTL 0x48 and the pixel format as commands 12 and 13, both gamma tables, sleep out and display on: 22 commands |
| Ili9341.RotationBytes | ili9341.py:144-170 | the rotations send MADCTL 0x48, 0x28, 0x88 and 0xE8 |
| Ili9341.SetRotation | ili9341.py:144-170 | an out-of-range rotation changes nothing; otherwise MADCTL is sent and width and height swap iff the parity changes |
| Ili9486.Default | ili9486.py:44 | the ILI9486 defaults to 320 × 480 at 16 bits |
| Ili9486.InitBody | ili9486.py:52-95 | eleven steps, with MADCTL 0x08, the pixel format, and the two 15-byte gamma tables |
| Ili9486.InitCommands | ili9486.py:52-95 | the controller receives 14 commands: reset, MADCTL 0x08, the pixel format, both gamma tables, sleep out and display on |
| Ili9486.RotationBytes | ili9486.py:97-122 | the rotations send MADCTL 0x08, 0x68, 0xC8 and 0xA8 |
| Ili9486.SetRotation | ili9486.py:97-122 | an out-of-range rotation changes nothing; otherwise MADCTL is sent and width and height swap iff the parity changes |
| Ili9488.Default | ili9488.py:44 | the ILI9488 defaults to 320 × 480 at 16 bits |
| Ili9488.InitBody | ili9488.py:52-91 | nine steps: the gamma tables, VCOM with three bytes, MADCTL 0x48, inversion on, the pixel format |
| Ili9488.InitCommands | ili9488.py:52-91 | the controller receives 12 commands, with inversion on just before the pixel format, and sleep out and display on last |
| Ili9488.RotationBytes | ili9488.py:93-119 | the rotations send MADCTL 0x48, 0x28, 0x88 and 0xE8 |
| Ili9488.SetRotation | ili9488.py:93-119 | an out-of-range rotation changes nothing; otherwise MADCTL is sent and width and height swap iff the parity changes |
| Platform.Name | ili9341.py:22-33 | controller names start with "ESP" or are "RP2", or "Undefined"; comparing a name with each known one, as ili9341.py:37 and the pin checker do, gives back its controller |
| Platform.NamesDistinct | ili9xxx_pin_checker.py:73-80 | two controllers have the same name only when they are the same controller |
| Platform.ContainsOccurs | ili9341.py:24-26 | `sub in s` holds exactly when sub occurs at some offset of s |
| Platform.ControllerDefinition | ili9341.py:15-33 | esp32 is S3 if the machine string mentions ESP32S3, else C3 if it mentions ESP32C3, else plain ESP32; rp2 is RP2; anything else is undefined (each an iff) |
| Platform.S3WinsOverC3 | ili9341.py:24-27 | a machine string naming both S3 and C3 is an S3, wherever the tags sit |
| Platform.GpioRegisters | ili9xxx_8b.py:67-75 | S3 and C3 use 0x60004004, RP2 0xD0000010, anything else 0x3FF44004, each with the set register 4 bytes on |
| Touch.New | resist_touch_rp2.py:19-46 | the calibration starts at (8017, 55965, 3) and (8177, 58398, 0), with auto-calibration off, rotation 0 and previous point (-1, -1) |
| Touch.Pressure | resist_touch_rp2.py:102-115 | z = 65535 - z2 + z1 is below NOISE_PRESS iff z2 - z1 exceeds 65535 - NOISE_PRESS |
| Touch.Insert | resist_touch_rp2.py:131 | inserting into a sorted list keeps it sorted and adds exactly the value |
| Touch.Sort | resist_touch_rp2.py:131 | `list.sort()` gives a sorted permutation |
| Touch.InsertCounts | resist_touch_rp2.py:131 | insertion adds the value to the counts below and above any point |
| Touch.SortCounts | resist_touch_rp2.py:131 | sorting keeps how many samples lie on each side of any value |
| Touch.SortedCounts | resist_touch_rp2.py:132 | in a sorted list at least k + 1 entries are at most entry k, and at least n - k are at least it |
| Touch.Select | resist_touch_rp2.py:126-142 | the kept sample is one of the samples |
| Touch.SelectRank | resist_touch_rp2.py:132 | at least seven of the eleven samples are at most the kept one, and at least five at least it |
| Touch.ReadTouch | resist_touch_rp2.py:117-158 | a light press gives (-2000, -2000); an out-of-range sample gives (-8000, -8000); an in-range sample becomes the previous point; the samples are returned iff pressed, in range and steady; only an accepted reading with auto-calibration on changes the calibration, and then exactly as auto_calibrate on those samples does |
| Touch.FirstSampleRejected | resist_touch_rp2.py:145-158 | right after construction the first in-range touch is refused and an identical second one is accepted |
| Touch.AutoCalibrate | resist_touch_rp2.py:236-259 | auto_calibrate changes only the two ranges, never the direction codes |
| Touch.AutoCalibrateWidens | resist_touch_rp2.py:236-259 | the ranges only grow and end up holding the point; recalibration happens iff a bound moved |
| Touch.AutoCalibrateIdempotent | resist_touch_rp2.py:236-259 | a second call with the same point changes nothing |
| Touch.TupleAt | resist_touch_rp2.py:167-169 | indexing a tuple succeeds iff the index is in -len..len-1 |
| Touch.DirectionAt | resist_touch_rp2.py:167-169 | every index the tuple accepts gives the index modulo 4 |
| Touch.SetRotation | resist_touch_rp2.py:160-171 | the rotation is always stored; the codes become (dir - rotation) mod 4 unless an index is out of range, in which case both are unchanged |
| Touch.NewDirection | resist_touch_rp2.py:167-169 | the new code is (dir - rotation) mod 4 when the index is valid |
| Touch.RotationsCompose | resist_touch_rp2.py:160-171 | two rotations in 0..3 turn the codes back by their sum, modulo 4 |
| Touch.RotationInRange | resist_touch_rp2.py:160-171 | with codes and rotation in 0..3 nothing raises and the codes stay in 0..3 |
| Touch.DirectionsCompose | resist_touch_rp2.py:167-169 | two lookups compose to one lookup by the sum |
| Touch.Listening | resist_touch_rp2.py:213-234 | the first reading inside the rotated screen is returned, and none is returned iff no reading is inside |
| Touch.SentinelsOffScreen | resist_touch_rp2.py:213-234 | the refusal values (-2000, -2000) and (-8000, -8000) are never accepted by listening |
| Calibration.Side | touch_calibration_ili9488.py:131-163 | each edge is three cells of the 3 × 3 grid |
| Calibration.Opposite | touch_calibration_ili9488.py:148-163 | the facing edge is a different edge two steps round |
| Calibration.FindDirect | touch_calibration_ili9488.py:131-146 | the chosen edge has the largest average, and any earlier edge in up, right, down, left order has a strictly smaller one |
| Calibration.GetMinMax | touch_calibration_ili9488.py:148-163 | for a direction 0..3, the minimum over the facing edge and the maximum over the edge itself; any other code fails |
| Calibration.CalibrateTouch | touch_calibration_ili9488.py:165-172 | each axis gets find_direct's edge and get_min_max's range, and the range is never empty |
| Calibration.RangeOrdered | touch_calibration_ili9488.py:131-163 | for the edge find_direct picks, the minimum of the facing edge is at most the maximum of the edge |
| Calibration.GrowingRightward | touch_calibration_ili9488.py:131-163 | readings growing left to right choose the right edge, with the range from the left column to the right |
| Calibration.GrowingDownward | touch_calibration_ili9488.py:131-163 | readings growing top to bottom choose the bottom edge |
| Calibration.FlatPrefersUp | touch_calibration_ili9488.py:131-146 | equal readings choose up |
| PinChecker.InvalidPins | ili9xxx_pin_checker.py:73-80 | ESP32 refuses 0 and 34..47; ESP32-S3 refuses 0, 12, 26..32 and 34..47; RP2 refuses 23, 24, 25 and 29; other boards refuse nothing (each an iff) |
| PinChecker.Range | ili9xxx_pin_checker.py:74-76 | the listed range holds exactly lo..hi-1 |
| PinChecker.AllPins | ili9xxx_pin_checker.py:101 | the checked list is the data pins followed by CS, DC, WR, RD and RST |
| PinChecker.CheckPins | ili9xxx_pin_checker.py:92-104 | the first invalid pin is reported, and nothing is reported iff no pin is invalid |
| PinChecker.UnknownBoardAcceptsAll | ili9xxx_pin_checker.py:79-80 | on an unknown board every wiring passes |
| PinChecker.ReadData | ili9xxx_pin_checker.py:164-187 | the byte read back is below 256 and drives exactly the levels read |
| PinChecker.DataPinsRoundTrip | ili9xxx_pin_checker.py:164-198 | reading the bus back after set_data_pins gives the byte written |
| PinChecker.TestDataBus | ili9xxx_pin_checker.py:149-162 | the test passes iff every test value reads back on every pin as driven |
| PinChecker.TestFrom | ili9xxx_pin_checker.py:155-162 | the remaining values pass iff each reads back as driven |
| PinChecker.BitsMatch | ili9xxx_pin_checker.py:158-161 | pins i..7 pass iff each shows its bit of the value |
| PinChecker.IdealBusPasses | ili9xxx_pin_checker.py:149-162 | pins that read back what was driven pass |
| PinChecker.StuckPinFails | ili9xxx_pin_checker.py:149-162 | a pin stuck at one level fails |
| PinChecker.ShortedPinsFail | ili9xxx_pin_checker.py:149-162 | two neighbouring pins shorted together fail |
| PinChecker.IdSumDecodes | ili9xxx_pin_checker.py:212-225 | `id1 << 16 \| id2 << 8 \| id3` is the base-256 number of the three bytes, and each byte is recovered from it |
| PinChecker.DisplayModel | ili9xxx_pin_checker.py:227-236 | the model number is below 0x10000 and its high and low bytes are the two bytes read |
| PinChecker.CheckModel | ili9xxx_pin_checker.py:238-243 | a known model is reported as read |
| PinChecker.UnknownModel | ili9xxx_pin_checker.py:227-243 | the display is reported unknown iff both model bytes read 0x80 |

## Left out

- Pins, ADC reads, `sleep_ms`, `uname()` and file I/O are not modelled. Pins
  and the register are bus events or register writes; ADC samples, pin
  read-backs and `uname()` strings are parameters; a file is its byte
  sequence; a pause is a `Sleep` event.
- `reinit_pins`, `set_data_pins` and `current_gpio_state` of the driver are
  covered only through the events and baseline they produce.
- `invert_display`, `idle_mode`, `set_adaptive_brightness` and
  `tearing_effect` are left out. Each is one fixed command with a flag
  byte, and nothing else depends on them.
- `draw_circle` and `fill_circle` are left out. They are a midpoint-circle
  loop over `draw_pixel` and `fill_rect`, and no other routine uses them.
- `ili9xxx_d1r32.py` is not part of this model. The profiles import it in
  place of `ili9xxx_8b.py` on plain ESP32 boards.
- `calc_coefs` and `read_coordinats` of the touch reader compute in floating
  point and are left out. `Touch.Listening` therefore takes the screen
  coordinates as its input.
- `test_pin`, `test_control_pins` and `test_data_pins` of the pin checker are
  left out: they drive real pins and print. `test_data_bus` is modelled with
  the read-back as a function.
- The calibration script's touch loop, drawing and printing are left out;
  only `find_direct`, `get_min_max` and `calibrate_touch` are modelled.
- Fonts are `get_ch` as a function from characters to glyphs; font files are
  not modelled.
- Touch.Listening: the source polls forever until a touch lands on the
  screen; the model takes the successive readings as a finite list and
  returns None when the list runs out.
- Touch.ReadTouch: requires exactly `NUM_SAMPLES` samples per axis, each a
  16-bit ADC value, which is what `read_u16` returns.
- Calibration.FindDirect: the source falls off its last test and returns
  None when no edge matches; the model proves that case never happens.
- Color.PixelBytesFaithful: covers 16 and 24 bits only; the 18-bit case is
  Color.Split18Faithful.
- Images.DrawBmp: the corrected routine (with Images.DrawAccepted,
  Images.BmpTrace and Images.DrawBmpOnPanel) returns None when the frame's
  rows run past the end of the file, and states nothing about that case;
  draw_bmp as written covers it (Images.DrawBmpAsWritten).
- Memory past a read buffer is not modelled as memory: what draw_raw_image
  and draw_bmp read there is the parameter `beyond`, indexed by row and
  offset.
- Glyphs.BitmapColours: sends `Hi(bg)`, the background's bits 15..8. The
  source indexes its 256-entry table with the unmasked `bg >> 8`
  (ili9xxx_8b.py:873), which reads outside the table for a background above
  0xFFFF or below zero; that case is not modelled.
- Integers are unbounded. Viper code wraps its `int` at 32 bits (for
  instance `amount = x_len * y_len` in fill_rect, ili9xxx_8b.py:584); the
  model assumes no such overflow, so a fill of 2^32 pixels or more is not
  modelled as the wrapped count.
- Line.DrawLine: returns the points handed to `draw_pixel`; the bus trace is
  Display.DrawPixels of those points.
- Text.DrawText, Text.DrawTextFast and Text.DrawTextFastAsWritten: their
  contracts state only the font check and the final CS release. Where the
  glyphs go is stated on the layout (Text.TextStep, Text.LayoutFits,
  Text.NewlineForcesWrap), and what each glyph draws in Glyphs.
- Panel: models only the commands the driver's drawing uses (0x2A, 0x2B,
  0x2C and 0x3A); every other command just ends an argument or pixel stream.

## Findings

| source | as written | input that shows it | evidently intended | confidence | as-written member | corrected member |
|---|---|---|---|---|---|---|
| ili9xxx_8b.py:691-692 | `rgb()` in 16-bit mode keeps the low 5/6/5 bits of each 8-bit channel | rgb(128, 128, 128) gives 0, black | the top 5/6/5 bits, `(r & 0xF8) << 8 \| (g & 0xFC) << 3 \| b >> 3`, as the 18-bit branch and the BMP path do | not executed | Color.RgbAsWrittenDropsHighBits | Color.RgbRoundTrip |
| ili9xxx_8b.py:478-483 | the 18-bit split sends `(c >> 10) & 0xFF`, `(c >> 2) & 0xFF`, `(c << 4) & 0xF0` | mid grey 0x20820 reaches the panel as (32, 2, 0) | each 6-bit field in bits 7..2 of its byte | not executed | Color.Split18AsWrittenGarbles | Color.Split18Faithful |
| ili9xxx_8b.py:751-759 | the height is read unsigned, so `if height < 0` never runs | a top-down bitmap with height -2 (FE FF FF FF) gives 4294967294 rows, clipped to the screen's bottom edge | the height read as a signed 32-bit value, and its magnitude used | not executed | Images.TopDownAsWritten | Images.BmpHeight |
| ili9xxx_8b.py:804-816 | the row loop reads triplet `col * 3` for col = frameWidth down to 1 | any row: triplet fw is past the 3 × fw bytes read, and triplet 0 is never sent | triplet `(col - 1) * 3`, covering the row exactly once | not executed | Images.BmpRowShift | Images.ColumnsCoverRow |
| ili9xxx_8b.py:1068-1073 | draw_text_fast wraps on `x + width >= screen_width` and stops on `y + height >= screen_height` | an 8 × 8 glyph on an 8 × 8 screen is not drawn, though draw_text draws it | the `>` tests of draw_text | not executed | Text.FastAsWrittenDropsExactFit | Text.DrawTextFast |
| ili9xxx_8b.py:1230-1231 | scroll_text reads `text[0]` for a glyph height that is overwritten before use | empty text raises IndexError after vert_scroll has been sent | no read of `text[0]`; empty text sends only the scroll definition | not executed | Text.ScrollTextAsWritten | Text.ScrollTextCorrection |
