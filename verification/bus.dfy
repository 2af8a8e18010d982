/** What the driver puts on the 8-bit parallel bus, at two levels.

    `BusEvent` is the panel's view: a byte latched as a command (DC low) or as
    a parameter/pixel byte (DC high), chip select released, the reset line
    driven, or a pause.  The pin-by-pin routines write_command, write_data and
    write_multy_data produce these directly.

    `RegWrite` is the fast path's view: a whole word stored to the GPIO
    output register, or a mask stored to the bit-set register.  A byte goes
    out as a table word followed by setting the WR bit; CS is released by
    setting the CS bit.  `Lower` turns events into register writes the way the
    fast routines do, and `Decode` reads them back as a bus analyser on the
    panel's pins would. */
module Bus {
  import opened Bits
  import opened Results
  import opened GpioTable

  datatype BusEvent =
    | Cmd(b: Byte)        // byte latched with DC low
    | Data(b: Byte)       // byte latched with DC high
    | CsHigh              // chip select released
    | Rst(level: bool)    // reset line driven
    | Sleep(ms: nat)      // sleep_ms

  type Trace = seq<BusEvent>

  /** write_command: select, command mode, one strobe, deselect. */
  function WriteCommand(c: Byte): Trace
  {
    [Cmd(c), CsHigh]
  }

  /** write_data: select, data mode, one strobe, deselect. */
  function WriteData(d: Byte): Trace
  {
    [Data(d), CsHigh]
  }

  /** The strobes of a data burst, without the final deselect. */
  function DataBytes(ds: seq<Byte>): (r: Trace)
    ensures |r| == |ds|
    ensures forall i :: 0 <= i < |ds| ==> r[i] == Data(ds[i])
  {
    if |ds| == 0 then [] else [Data(ds[0])] + DataBytes(ds[1..])
  }

  /** write_multy_data: one selection for the whole array. */
  function WriteMultyData(ds: seq<Byte>): (r: Trace)
    ensures |r| == |ds| + 1 && r[|ds|] == CsHigh
    ensures forall i :: 0 <= i < |ds| ==> r[i] == Data(ds[i])
  {
    DataBytes(ds) + [CsHigh]
  }

  lemma DataBytesAppend(a: seq<Byte>, b: seq<Byte>)
    ensures DataBytes(a + b) == DataBytes(a) + DataBytes(b)
  {
  }

  /** A one-byte array costs the same bus events as write_data. */
  lemma MultyDataOfOne(d: Byte)
    ensures WriteMultyData([d]) == WriteData(d)
  {
  }

  /** Events the fast routines emit through the lookup table. */
  predicate FastEvent(e: BusEvent)
  {
    e.Cmd? || e.Data? || e.CsHigh?
  }

  datatype RegWrite =
    | Out(word: int)      // GPIO_OUT[0] = word
    | SetBits(mask: int)  // GPIO_OUT_S[0] = mask

  /** The register writes of one fast event. */
  function LowerEvent(table: seq<Byte>, p: BusPins, e: BusEvent): seq<RegWrite>
    requires |table| == 1024 && FastEvent(e)
  {
    match e
    case Cmd(c) => [Out(CommandWord(table, p, c)), SetBits(Pow2(p.wr))]
    case Data(d) => [Out(TableWord(table, d)), SetBits(Pow2(p.wr))]
    case CsHigh => [SetBits(Pow2(p.cs))]
  }

  function Lower(table: seq<Byte>, p: BusPins, es: Trace): seq<RegWrite>
    requires |table| == 1024 && forall i :: 0 <= i < |es| ==> FastEvent(es[i])
  {
    if |es| == 0 then [] else LowerEvent(table, p, es[0]) + Lower(table, p, es[1..])
  }

  function Prepend(e: BusEvent, rest: Option<Trace>): Option<Trace>
  {
    if rest.Some? then Some([e] + rest.value) else None
  }

  /** What a bus analyser sees: a word store followed by a WR set latches the
      data pins (a command if DC is low) provided CS and WR are low in the
      word; a CS set releases the chip.  Anything else is not a bus cycle. */
  function Decode(p: BusPins, ws: seq<RegWrite>): Option<Trace>
    requires ValidPins(p)
    decreases |ws|
  {
    if |ws| == 0 then Some([])
    else match ws[0]
      case SetBits(m) =>
        if m == Pow2(p.cs) then Prepend(CsHigh, Decode(p, ws[1..])) else None
      case Out(v) =>
        if |ws| >= 2 && ws[1] == SetBits(Pow2(p.wr)) && 0 <= v < Pow2(32) then
          var w := ToBits(v, 32);
          if w[p.cs] || w[p.wr] then None
          else
            var b := ReadDataByte(w, p);
            Prepend(if w[p.dc] then Data(b) else Cmd(b), Decode(p, ws[2..]))
        else None
  }

  /** Clearing a non-data pin does not change the byte on the data pins. */
  lemma ReadDataByteIgnores(w: Word, p: BusPins, k: nat)
    requires ValidPins(p) && k < 32 && !IsDataPin(p, k)
    ensures ReadDataByte(w[k := false], p) == ReadDataByte(w, p)
  {
    var a := seq(8, i requires 0 <= i < 8 => w[k := false][p.data[i]]);
    var b := seq(8, i requires 0 <= i < 8 => w[p.data[i]]);
    assert a == b;
  }

  /** A latch cycle decodes to the event given by the word's DC bit and
      data pins. */
  lemma LatchDecodes(p: BusPins, v: int, rest: seq<RegWrite>)
    requires ValidPins(p) && 0 <= v < Pow2(32)
    requires var w := ToBits(v, 32); !w[p.cs] && !w[p.wr]
    ensures var w := ToBits(v, 32); var b := ReadDataByte(w, p);
      Decode(p, [Out(v), SetBits(Pow2(p.wr))] + rest)
        == Prepend(if w[p.dc] then Data(b) else Cmd(b), Decode(p, rest))
  {
    var ws := [Out(v), SetBits(Pow2(p.wr))] + rest;
    assert ws[0] == Out(v) && ws[1] == SetBits(Pow2(p.wr));
    assert ws[2..] == rest;
  }

  lemma DataEventDecodes(base: Word, p: BusPins, d: Byte, rest: seq<RegWrite>)
    requires ValidPins(p) && Baseline(base, p)
    ensures Decode(p, LowerEvent(GenerateByte2Gpio(base, p), p, Data(d)) + rest) == Prepend(Data(d), Decode(p, rest))
  {
    DataWordShows(base, p, d);
    LatchDecodes(p, TableWord(GenerateByte2Gpio(base, p), d), rest);
  }

  /** Table entry d, stored to the register, holds CS and WR low and DC
      high, and shows d on the data pins. */
  lemma DataWordShows(base: Word, p: BusPins, d: Byte)
    requires ValidPins(p) && Baseline(base, p)
    ensures var v := TableWord(GenerateByte2Gpio(base, p), d); var u := ToBits(v, 32);
      0 <= v < Pow2(32) && !u[p.cs] && !u[p.wr] && u[p.dc] && ReadDataByte(u, p) == d
  {
    var w := Entry(base, p, d);
    var v := TableWord(GenerateByte2Gpio(base, p), d);
    TableWordIsEntry(base, p, d);
    FromBitsBound(w);
    ToFromBits(w);
    assert ToBits(v, 32) == w;
    EntryDrivesByte(base, p, d);
    EntryKeepsControlPins(base, p, d, p.cs);
    EntryKeepsControlPins(base, p, d, p.wr);
    EntryKeepsControlPins(base, p, d, p.dc);
  }

  lemma CmdEventDecodes(base: Word, p: BusPins, c: Byte, rest: seq<RegWrite>)
    requires ValidPins(p) && Baseline(base, p)
    ensures Decode(p, LowerEvent(GenerateByte2Gpio(base, p), p, Cmd(c)) + rest) == Prepend(Cmd(c), Decode(p, rest))
  {
    CommandWordShows(base, p, c);
    LatchDecodes(p, CommandWord(GenerateByte2Gpio(base, p), p, c), rest);
  }

  /** Entry c less the DC bit, stored to the register, holds CS, WR and DC
      low, and shows c on the data pins. */
  lemma CommandWordShows(base: Word, p: BusPins, c: Byte)
    requires ValidPins(p) && Baseline(base, p)
    ensures var v := CommandWord(GenerateByte2Gpio(base, p), p, c); var u := ToBits(v, 32);
      0 <= v < Pow2(32) && !u[p.cs] && !u[p.wr] && !u[p.dc] && ReadDataByte(u, p) == c
  {
    var w := Entry(base, p, c);
    var u := w[p.dc := false];
    var v := CommandWord(GenerateByte2Gpio(base, p), p, c);
    CommandWordClearsDc(base, p, c);
    FromBitsBound(u);
    ToFromBits(u);
    assert ToBits(v, 32) == u;
    EntryDrivesByte(base, p, c);
    ReadDataByteIgnores(w, p, p.dc);
    EntryKeepsControlPins(base, p, c, p.cs);
    EntryKeepsControlPins(base, p, c, p.wr);
  }

  /** The register writes of one event decode back to that event. */
  lemma LowerEventDecodes(base: Word, p: BusPins, e: BusEvent, rest: seq<RegWrite>)
    requires ValidPins(p) && Baseline(base, p) && FastEvent(e)
    ensures Decode(p, LowerEvent(GenerateByte2Gpio(base, p), p, e) + rest) == Prepend(e, Decode(p, rest))
  {
    match e
    case CsHigh =>
      assert ([SetBits(Pow2(p.cs))] + rest)[1..] == rest;
    case Data(d) => DataEventDecodes(base, p, d, rest);
    case Cmd(c) => CmdEventDecodes(base, p, c, rest);
  }

  /** Lowering a fast trace through a table generated from a captured
      baseline and decoding the register writes gives the trace back: every
      word has CS and WR low, the right DC level and the byte on the data
      pins. */
  lemma {:induction false} LowerDecode(base: Word, p: BusPins, es: Trace)
    requires ValidPins(p) && Baseline(base, p)
    requires forall i :: 0 <= i < |es| ==> FastEvent(es[i])
    ensures Decode(p, Lower(GenerateByte2Gpio(base, p), p, es)) == Some(es)
  {
    var table := GenerateByte2Gpio(base, p);
    if |es| > 0 {
      LowerDecode(base, p, es[1..]);
      LowerEventDecodes(base, p, es[0], Lower(table, p, es[1..]));
      assert [es[0]] + es[1..] == es;
    }
  }

  /** f(0) + f(1) + ... + f(k - 1). */
  function Blocks<T>(f: int -> seq<T>, k: int): seq<T>
    decreases k
  {
    if k <= 0 then [] else Blocks(f, k - 1) + f(k - 1)
  }

  lemma {:induction false} BlocksLength<T>(f: int -> seq<T>, k: int, n: nat)
    requires forall j :: |f(j)| == n
    decreases k
    ensures |Blocks(f, k)| == (if k > 0 then k * n else 0)
  {
    if k > 0 {
      BlocksLength(f, k - 1, n);
    }
  }

  /** With blocks of n elements, block i sits at i * n .. i * n + n. */
  lemma {:induction false} BlockAt<T>(f: int -> seq<T>, k: int, n: nat, i: nat)
    requires i < k && forall j :: |f(j)| == n
    decreases k
    ensures |Blocks(f, k)| == k * n && 0 <= i * n && i * n + n <= k * n
    ensures Blocks(f, k)[i * n .. i * n + n] == f(i)
  {
    BlocksLength(f, k - 1, n);
    assert Blocks(f, k) == Blocks(f, k - 1) + f(k - 1);
    BlockSnoc(Blocks(f, k - 1), f(k - 1), k - 1, n, i);
    if i < k - 1 {
      BlockAt(f, k - 1, n, i);
    }
  }

  /** Every block of k blocks of n elements, in place. */
  lemma BlocksAll<T>(f: int -> seq<T>, k: nat, n: nat)
    requires forall j :: |f(j)| == n
    ensures |Blocks(f, k)| == k * n
    ensures forall i :: 0 <= i < k ==>
      0 <= i * n && i * n + n <= k * n && Blocks(f, k)[i * n .. i * n + n] == f(i)
  {
    BlocksLength(f, k, n);
    forall i | 0 <= i < k
      ensures 0 <= i * n && i * n + n <= k * n && Blocks(f, k)[i * n .. i * n + n] == f(i)
    {
      BlockAt(f, k, n, i);
    }
  }

  /** Block i of `prev + last`, when prev is n blocks of c and last is one
      more block: a block of prev, or last itself. */
  lemma BlockSnoc<T>(prev: seq<T>, last: seq<T>, n: nat, c: nat, i: nat)
    requires |prev| == n * c && |last| == c && i <= n
    ensures |prev + last| == (n + 1) * c && i * c + c <= |prev + last|
    ensures i < n ==> i * c + c <= |prev| && (prev + last)[i * c .. i * c + c] == prev[i * c .. i * c + c]
    ensures i == n ==> (prev + last)[i * c .. i * c + c] == last
  {
    if i < n && c > 0 {
      MulBelow(i, n, c);
    }
  }
}
