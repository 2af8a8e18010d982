/** ili9488.py: the ILI9488 profile — its constructor defaults, its
    init_display list and its rotation table. */
module Ili9488 {
  import opened Bits
  import opened Bus
  import opened Display
  import opened Profile
  import Base = Display

  /** The constructor's defaults: 320 x 480 at 16 bits per pixel. */
  function Default(): (d: Display)
    ensures d.width == 320 && d.height == 480 && d.rotation == 0 && d.pixelFormat == 0x55
  {
    NewDisplay(320, 480, 16)
  }

  /** init_display between the reset and the closing pair; the pixel
      format is the only part that varies. */
  function InitBody(pixelFormat: Byte): (s: seq<Step>)
    ensures |s| == 9
    ensures s[1].cmd == 0xE0 && |s[1].params| == 15 && s[2].cmd == 0xE1 && |s[2].params| == 15
    ensures s[5].cmd == 0xC5 && |s[5].params| == 3 && s[6] == Step(0x36, [0x48], 0)
    ensures s[7] == Step(0x21, [], 0) && s[8].cmd == 0x3A && s[8].params == [pixelFormat]
  {
    [ Step(0x13, [], 0),                                   // normal display mode
      Step(0xE0, [0x00, 0x03, 0x09, 0x08, 0x16, 0x0A, 0x3F, 0x78, 0x4C, 0x09, 0x0A, 0x08, 0x16, 0x1A, 0x0F], 0),
      Step(0xE1, [0x00, 0x16, 0x19, 0x03, 0x0F, 0x05, 0x32, 0x45, 0x46, 0x04, 0x0E, 0x0D, 0x35, 0x37, 0x0F], 0),
      Step(0xC0, [0x17, 0x15], 0),                         // power control 1
      Step(0xC1, [0x41], 0),                               // power control 2
      Step(0xC5, [0x00, 0x12, 0x80], 0),                   // VCOM
      Step(0x36, [0x48], 0),                               // memory access control
      Step(0x21, [], 0),                                   // inversion on
      Step(0x3A, [pixelFormat], 0) ]                      // pixel format
  }

  /** init_display: the reset, the listed steps, then the closing pair. */
  function InitDisplay(pixelFormat: Byte): Trace
  {
    InitTrace(InitBody(pixelFormat))
  }

  /** What the controller receives from init_display: the software reset
      first; both gamma tables with 15 bytes and VCOM with 3; MADCTL 0x48;
      inversion on immediately before the configured pixel format; sleep
      out and display on last. */
  lemma InitCommands(pixelFormat: Byte)
    ensures var rcv := Receive(InitDisplay(pixelFormat));
      && |rcv| == 12 && rcv[0] == Received(0x01, [])
      && rcv[2].cmd == 0xE0 && |rcv[2].params| == 15
      && rcv[3].cmd == 0xE1 && |rcv[3].params| == 15
      && rcv[6].cmd == 0xC5 && |rcv[6].params| == 3
      && rcv[7] == Received(0x36, [0x48])
      && rcv[8] == Received(0x21, []) && rcv[9] == Received(0x3A, [pixelFormat])
      && rcv[10] == Received(0x11, []) && rcv[11] == Received(0x29, [])
  {
    var body := InitBody(pixelFormat);
    assert InitDisplay(pixelFormat) == InitTrace(body);
    ReceivedCount(body);
    ReceivedStep(body, 1, 0xE0, body[1].params);
    ReceivedStep(body, 2, 0xE1, body[2].params);
    ReceivedStep(body, 5, 0xC5, body[5].params);
    ReceivedStep(body, 6, 0x36, [0x48]);
    ReceivedStep(body, 7, 0x21, []);
    ReceivedStep(body, 8, 0x3A, [pixelFormat]);
    ReceivedClosing(body);
  }

  /** The four MADCTL settings set_rotation chooses from. */
  const Rotations: seq<Madctl> := [
    Madctl(0, 1, 0, 0, 1, 0),
    Madctl(0, 0, 1, 0, 1, 0),
    Madctl(1, 0, 0, 0, 1, 0),
    Madctl(1, 1, 1, 0, 1, 0)]

  /** The MADCTL byte each rotation sends. */
  lemma RotationBytes()
    ensures MadctlByte(Rotations[0]) == 0x48 && MadctlByte(Rotations[1]) == 0x28
    ensures MadctlByte(Rotations[2]) == 0x88 && MadctlByte(Rotations[3]) == 0xE8
  {
  }

  /** set_rotation: MADCTL 0x48, 0x28, 0x88, 0xE8 for rotations 0 to 3;
      anything else is refused with no change; width and height are
      exchanged iff the parity of the rotation changes. */
  function SetRotation(d: Display, rotation: int): (r: Rotated)
    ensures !r.ok <==> rotation < 0 || rotation > 3
    ensures !r.ok ==> r.display == d && r.trace == []
    ensures r.ok ==>
      r.display.rotation == rotation
      && r.trace == WriteCommand(0x36) + WriteData([0x48, 0x28, 0x88, 0xE8][rotation])
    ensures r.ok ==>
      (r.display.width, r.display.height)
      == if rotation % 2 == d.rotation % 2 then (d.width, d.height) else (d.height, d.width)
  {
    RotationBytes();
    Base.SetRotation(d, rotation, Rotations)
  }
}
