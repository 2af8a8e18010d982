/** ili9341.py: the ILI9341 profile — its constructor defaults, its
    init_display list and its rotation table. */
module Ili9341 {
  import opened Bits
  import opened Bus
  import opened Display
  import opened Profile
  import Base = Display

  /** The constructor's defaults: 240 x 320 at 16 bits per pixel. */
  function Default(): (d: Display)
    ensures d.width == 240 && d.height == 320 && d.rotation == 0 && d.pixelFormat == 0x55
  {
    NewDisplay(240, 320, 16)
  }

  /** init_display between the reset and the closing pair; the pixel
      format is the only part that varies. */
  function InitBody(pixelFormat: Byte): (s: seq<Step>)
    ensures |s| == 19
    ensures s[0] == Step(0x28, [], 0) && s[11] == Step(0x36, [0x48], 0)
    ensures s[12].cmd == 0x3A && s[12].params == [pixelFormat]
    ensures s[17].cmd == 0xE0 && |s[17].params| == 15 && s[18].cmd == 0xE1 && |s[18].params| == 15
  {
    [ Step(0x28, [], 0),                                   // display off
      Step(0xCB, [0x39, 0x2C, 0x00, 0x34, 0x02], 0),       // power control A
      Step(0xCF, [0x00, 0xC1, 0x30], 0),                   // power control B
      Step(0xE8, [0x85, 0x00, 0x78], 0),                   // driver timing A
      Step(0xEA, [0x00, 0x00], 0),                         // driver timing B
      Step(0xED, [0x64, 0x03, 0x12, 0x81], 0),             // power-on sequence
      Step(0xF7, [0x20], 0),                               // pump ratio
      Step(0xC0, [0x23], 0),                               // power control 1
      Step(0xC1, [0x10], 0),                               // power control 2
      Step(0xC5, [0x3E, 0x28], 0),                         // VCOM 1
      Step(0xC7, [0x86], 0),                               // VCOM 2
      Step(0x36, [0x48], 0),                               // memory access control
      Step(0x3A, [pixelFormat], 0),                        // pixel format
      Step(0xB1, [0x00, 0x18], 0),                         // frame rate
      Step(0xB6, [0x08, 0x82, 0x27], 0),                   // display function
      Step(0xF2, [0x00], 0),                               // 3G off
      Step(0x26, [0x01], 0),                               // gamma curve
      Step(0xE0, [0x0F, 0x31, 0x2B, 0x0C, 0x0E, 0x08, 0x4E, 0xF1, 0x37, 0x07, 0x10, 0x03, 0x0E, 0x09, 0x00], 0),
      Step(0xE1, [0x00, 0x0E, 0x14, 0x03, 0x11, 0x07, 0x31, 0xC1, 0x48, 0x08, 0x0F, 0x0C, 0x31, 0x36, 0x0F], 0) ]
  }

  /** init_display: the reset, the listed steps, then the closing pair. */
  function InitDisplay(pixelFormat: Byte): Trace
  {
    InitTrace(InitBody(pixelFormat))
  }

  /** What the controller receives from init_display: the software reset,
      then display off; MADCTL 0x48 and the configured pixel format as the
      12th and 13th commands; both gamma tables with 15 bytes; sleep out
      and display on last. */
  lemma InitCommands(pixelFormat: Byte)
    ensures var rcv := Receive(InitDisplay(pixelFormat));
      && |rcv| == 22 && rcv[0] == Received(0x01, []) && rcv[1] == Received(0x28, [])
      && rcv[12] == Received(0x36, [0x48]) && rcv[13] == Received(0x3A, [pixelFormat])
      && rcv[18].cmd == 0xE0 && |rcv[18].params| == 15
      && rcv[19].cmd == 0xE1 && |rcv[19].params| == 15
      && rcv[20] == Received(0x11, []) && rcv[21] == Received(0x29, [])
  {
    var body := InitBody(pixelFormat);
    assert InitDisplay(pixelFormat) == InitTrace(body);
    ReceivedCount(body);
    ReceivedStep(body, 0, 0x28, []);
    ReceivedStep(body, 11, 0x36, [0x48]);
    ReceivedStep(body, 12, 0x3A, [pixelFormat]);
    ReceivedStep(body, 17, 0xE0, body[17].params);
    ReceivedStep(body, 18, 0xE1, body[18].params);
    ReceivedClosing(body);
  }

  /** The four MADCTL settings set_rotation chooses from. */
  const Rotations: seq<Madctl> := [
    Madctl(0, 1, 0, 0, 1, 0),
    Madctl(0, 0, 1, 0, 1, 0),
    Madctl(1, 0, 0, 0, 1, 0),
    Madctl(1, 1, 1, 0, 1, 0)]

  /** The MADCTL byte each rotation sends. */
  lemma RotationBytes()
    ensures MadctlByte(Rotations[0]) == 0x48 && MadctlByte(Rotations[1]) == 0x28
    ensures MadctlByte(Rotations[2]) == 0x88 && MadctlByte(Rotations[3]) == 0xE8
  {
  }

  /** set_rotation: MADCTL 0x48, 0x28, 0x88, 0xE8 for rotations 0 to 3;
      anything else is refused with no change; width and height are
      exchanged iff the parity of the rotation changes. */
  function SetRotation(d: Display, rotation: int): (r: Rotated)
    ensures !r.ok <==> rotation < 0 || rotation > 3
    ensures !r.ok ==> r.display == d && r.trace == []
    ensures r.ok ==>
      r.display.rotation == rotation
      && r.trace == WriteCommand(0x36) + WriteData([0x48, 0x28, 0x88, 0xE8][rotation])
    ensures r.ok ==>
      (r.display.width, r.display.height)
      == if rotation % 2 == d.rotation % 2 then (d.width, d.height) else (d.height, d.width)
  {
    RotationBytes();
    Base.SetRotation(d, rotation, Rotations)
  }
}
