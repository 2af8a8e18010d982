/** The board the code runs on, as the profiles and the pin checker work it
    out from the `uname()` strings, and the GPIO output registers the driver
    picks for it. */
module Platform {
  datatype Controller = Esp32S3 | Esp32C3 | Esp32 | Rp2 | Undefined

  /** A controller name read back by comparing it, as the profiles and the
      pin checker do, with each known name in turn; any other string stands
      for an unknown controller. */
  function Named(s: string): Controller
  {
    if s == "ESP32-S3" then Esp32S3
    else if s == "ESP32-C3" then Esp32C3
    else if s == "ESP32" then Esp32
    else if s == "RP2" then Rp2
    else Undefined
  }

  /** The controller names the source passes around; they are pairwise
      distinct, so comparing names tells the controllers apart. */
  function Name(c: Controller): (s: string)
    ensures |s| >= 3 && (c != Undefined ==> s[..3] == "ESP" || s == "RP2")
    ensures Named(s) == c
  {
    match c
    case Esp32S3 => "ESP32-S3"
    case Esp32C3 => "ESP32-C3"
    case Esp32 => "ESP32"
    case Rp2 => "RP2"
    case Undefined => "Undefined"
  }

  /** Two controllers share a name only when they are the same one. */
  lemma NamesDistinct(c: Controller, c': Controller)
    ensures Name(c) == Name(c') <==> c == c'
  {
  }

  /** Python's `sub in s` on strings, searched offset by offset. */
  function Contains(s: string, sub: string): bool
    decreases |s|
  {
    if |sub| > |s| then false
    else if s[..|sub|] == sub then true
    else Contains(s[1..], sub)
  }

  /** sub sits in s at offset i. */
  predicate OccursAt(s: string, sub: string, i: int)
  {
    0 <= i <= |s| - |sub| && s[i..i + |sub|] == sub
  }

  lemma TailSlice(s: string, i: int, n: nat)
    requires 1 <= i <= |s| - n
    ensures s[1..][i - 1..i - 1 + n] == s[i..i + n]
  {
    var a, b := s[1..][i - 1..i - 1 + n], s[i..i + n];
    forall k | 0 <= k < n
      ensures a[k] == b[k]
    {
    }
  }

  /** The search finds sub exactly when it occurs at some offset. */
  lemma {:induction false} ContainsOccurs(s: string, sub: string)
    decreases |s|
    ensures Contains(s, sub) <==> exists i :: OccursAt(s, sub, i)
  {
    if |sub| > |s| {
    } else if s[..|sub|] == sub {
      assert OccursAt(s, sub, 0);
    } else {
      ContainsOccurs(s[1..], sub);
      if Contains(s[1..], sub) {
        var i :| OccursAt(s[1..], sub, i);
        TailSlice(s, i + 1, |sub|);
        assert OccursAt(s, sub, i + 1);
      } else {
        forall i | OccursAt(s, sub, i)
          ensures false
        {
          if i > 0 {
            TailSlice(s, i, |sub|);
            assert OccursAt(s[1..], sub, i - 1);
          }
        }
      }
    }
  }

  /** controller_definition: esp32 boards are told apart by the machine
      string, S3 before C3; rp2 is the Pico; anything else is undefined. */
  function ControllerDefinition(sysname: string, machine: string): (c: Controller)
    ensures c == Esp32S3 <==> sysname == "esp32" && Contains(machine, "ESP32S3")
    ensures c == Esp32C3 <==> sysname == "esp32" && !Contains(machine, "ESP32S3") && Contains(machine, "ESP32C3")
    ensures c == Esp32 <==> sysname == "esp32" && !Contains(machine, "ESP32S3") && !Contains(machine, "ESP32C3")
    ensures c == Rp2 <==> sysname == "rp2"
    ensures c == Undefined <==> sysname != "esp32" && sysname != "rp2"
  {
    if sysname == "esp32" then
      if Contains(machine, "ESP32S3") then Esp32S3
      else if Contains(machine, "ESP32C3") then Esp32C3
      else Esp32
    else if sysname == "rp2" then Rp2
    else Undefined
  }

  /** An S3 board is recognised wherever "ESP32S3" sits in the machine
      string, even when a C3 tag comes first. */
  lemma S3WinsOverC3(prefix: string, middle: string, suffix: string)
    ensures ControllerDefinition("esp32", prefix + "ESP32C3" + middle + "ESP32S3" + suffix) == Esp32S3
  {
    var m := prefix + "ESP32C3" + middle + "ESP32S3" + suffix;
    var i := |prefix| + 7 + |middle|;
    assert m[i..i + 7] == "ESP32S3";
    assert OccursAt(m, "ESP32S3", i);
    ContainsOccurs(m, "ESP32S3");
  }

  datatype OutRegisters = OutRegisters(out: nat, outSet: nat)

  /** The memory-mapped output register and its bit-set companion for each
      controller; unknown controllers get the ESP32 addresses. */
  function GpioRegisters(c: Controller): (r: OutRegisters)
    ensures r.outSet == r.out + 4
    ensures r.out == 0x6000_4004 <==> c == Esp32S3 || c == Esp32C3
    ensures r.out == 0xD000_0010 <==> c == Rp2
    ensures r.out == 0x3FF4_4004 <==> c == Esp32 || c == Undefined
  {
    match c
    case Esp32S3 | Esp32C3 => OutRegisters(0x6000_4004, 0x6000_4008)
    case Rp2 => OutRegisters(0xD000_0010, 0xD000_0014)
    case _ => OutRegisters(0x3FF4_4004, 0x3FF4_4008)
  }
}
