/** ili9486.py: the ILI9486 profile — its constructor defaults, its
    init_display list and its rotation table. */
module Ili9486 {
  import opened Bits
  import opened Bus
  import opened Display
  import opened Profile
  import Base = Display

  /** The constructor's defaults: 320 x 480 at 16 bits per pixel. */
  function Default(): (d: Display)
    ensures d.width == 320 && d.height == 480 && d.rotation == 0 && d.pixelFormat == 0x55
  {
    NewDisplay(320, 480, 16)
  }

  /** init_display between the reset and the closing pair; the pixel
      format is the only part that varies. */
  function InitBody(pixelFormat: Byte): (s: seq<Step>)
    ensures |s| == 11
    ensures s[3] == Step(0x36, [0x08], 0) && s[8].cmd == 0x3A && s[8].params == [pixelFormat]
    ensures s[9].cmd == 0xE0 && |s[9].params| == 15 && s[10].cmd == 0xE1 && |s[10].params| == 15
  {
    [ Step(0xF2, [0x18, 0xA3, 0x12, 0x02, 0xB2, 0x12, 0xFF, 0x10, 0x00], 0),
      Step(0xF8, [0x21, 0x04], 0),
      Step(0x13, [], 0),                                   // normal display mode
      Step(0x36, [0x08], 0),                               // memory access control
      Step(0xB4, [0x02], 0),                               // 2-dot inversion
      Step(0xB6, [0x02, 0x22, 0x3B], 0),                   // display function
      Step(0xC1, [0x41], 0),                               // power control 2
      Step(0xC5, [0x00, 0x18], 0),                         // VCOM 1
      Step(0x3A, [pixelFormat], 50),                       // pixel format, 50 ms
      Step(0xE0, [0x0F, 0x24, 0x1C, 0x0A, 0x0F, 0x08, 0x43, 0x88, 0x32, 0x0F, 0x10, 0x06, 0x0F, 0x07, 0x00], 0),
      Step(0xE1, [0x0F, 0x38, 0x30, 0x09, 0x0F, 0x0F, 0x4E, 0x77, 0x3C, 0x07, 0x10, 0x05, 0x23, 0x1B, 0x00], 0) ]
  }

  /** init_display: the reset, the listed steps, then the closing pair. */
  function InitDisplay(pixelFormat: Byte): Trace
  {
    InitTrace(InitBody(pixelFormat))
  }

  /** What the controller receives from init_display: the software reset
      first; MADCTL 0x08; the configured pixel format; both gamma tables
      with 15 bytes; sleep out and display on last. */
  lemma InitCommands(pixelFormat: Byte)
    ensures var rcv := Receive(InitDisplay(pixelFormat));
      && |rcv| == 14 && rcv[0] == Received(0x01, [])
      && rcv[4] == Received(0x36, [0x08]) && rcv[9] == Received(0x3A, [pixelFormat])
      && rcv[10].cmd == 0xE0 && |rcv[10].params| == 15
      && rcv[11].cmd == 0xE1 && |rcv[11].params| == 15
      && rcv[12] == Received(0x11, []) && rcv[13] == Received(0x29, [])
  {
    var body := InitBody(pixelFormat);
    assert InitDisplay(pixelFormat) == InitTrace(body);
    ReceivedCount(body);
    ReceivedStep(body, 3, 0x36, [0x08]);
    ReceivedStep(body, 8, 0x3A, [pixelFormat]);
    ReceivedStep(body, 9, 0xE0, body[9].params);
    ReceivedStep(body, 10, 0xE1, body[10].params);
    ReceivedClosing(body);
  }

  /** The four MADCTL settings set_rotation chooses from. */
  const Rotations: seq<Madctl> := [
    Madctl(0, 0, 0, 0, 1, 0),
    Madctl(0, 1, 1, 0, 1, 0),
    Madctl(1, 1, 0, 0, 1, 0),
    Madctl(1, 0, 1, 0, 1, 0)]

  /** The MADCTL byte each rotation sends. */
  lemma RotationBytes()
    ensures MadctlByte(Rotations[0]) == 0x08 && MadctlByte(Rotations[1]) == 0x68
    ensures MadctlByte(Rotations[2]) == 0xC8 && MadctlByte(Rotations[3]) == 0xA8
  {
  }

  /** set_rotation: MADCTL 0x08, 0x68, 0xC8, 0xA8 for rotations 0 to 3;
      anything else is refused with no change; width and height are
      exchanged iff the parity of the rotation changes. */
  function SetRotation(d: Display, rotation: int): (r: Rotated)
    ensures !r.ok <==> rotation < 0 || rotation > 3
    ensures !r.ok ==> r.display == d && r.trace == []
    ensures r.ok ==>
      r.display.rotation == rotation
      && r.trace == WriteCommand(0x36) + WriteData([0x08, 0x68, 0xC8, 0xA8][rotation])
    ensures r.ok ==>
      (r.display.width, r.display.height)
      == if rotation % 2 == d.rotation % 2 then (d.width, d.height) else (d.height, d.width)
  {
    RotationBytes();
    Base.SetRotation(d, rotation, Rotations)
  }
}
