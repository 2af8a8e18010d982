/** The byte-to-GPIO lookup table of ili9xxx_8b.py: for each of the 256 bus
    bytes, the full 32-bit output-register word that drives the eight data
    pins to that byte while CS is low (selected), DC is high (data) and WR is
    low (ready to strobe).  Every fast drawing routine writes such a word to
    the output register and then sets the WR bit to latch the byte. */
module GpioTable {
  import opened Bits

  /** Pin numbers of the parallel bus: D0..D7, chip select, data/command,
      write strobe, read strobe and reset. */
  datatype BusPins = BusPins(data: seq<nat>, cs: nat, dc: nat, wr: nat, rd: nat, rst: nat)

  /** The table trick needs eight data pins and CS, DC, WR all inside the one
      32-bit output register, and no pin doing two jobs. */
  predicate ValidPins(p: BusPins)
  {
    && |p.data| == 8
    && (forall i :: 0 <= i < 8 ==> p.data[i] < 32)
    && (forall i, j :: 0 <= i < j < 8 ==> p.data[i] != p.data[j])
    && p.cs < 32 && p.dc < 32 && p.wr < 32
    && p.cs != p.dc && p.cs != p.wr && p.dc != p.wr
    && (forall i :: 0 <= i < 8 ==> p.data[i] != p.cs && p.data[i] != p.dc && p.data[i] != p.wr)
  }

  predicate IsDataPin(p: BusPins, k: nat)
  {
    exists i :: 0 <= i < |p.data| && p.data[i] == k
  }

  function Zero(): Word { seq(32, _ => false) }

  /** `a | b` on register words. */
  function Or(a: Word, b: Word): (r: Word)
    ensures forall k :: 0 <= k < 32 ==> (r[k] <==> a[k] || b[k])
  {
    seq(32, k requires 0 <= k < 32 => a[k] || b[k])
  }

  /** `bit << pin` for a one-bit value. */
  function Place(bit: bool, pin: nat): (r: Word)
    ensures forall k :: 0 <= k < 32 ==> (r[k] <==> bit && k == pin)
  {
    seq(32, k requires 0 <= k < 32 => bit && k == pin)
  }

  /** The OR of `((byte >> i) & 1) << data[i]` for i below n: bit k of the
      result is set exactly when some data pin i < n sits at k and bit i of
      the byte is set. */
  function Scatter(b: int, data: seq<nat>, n: nat): (r: Word)
    requires n <= |data|
    ensures forall k :: 0 <= k < 32 ==>
      (r[k] <==> exists i :: 0 <= i < n && data[i] == k && Bit(b, i))
  {
    if n == 0 then Zero()
    else Or(Scatter(b, data, n - 1), Place(Bit(b, n - 1), data[n - 1]))
  }

  /** convert_byte2gpio: the data-pin image of one byte. */
  function ConvertByte2Gpio(b: Byte, data: seq<nat>): (r: Word)
    requires |data| == 8
    ensures forall k :: 0 <= k < 32 ==>
      (r[k] <==> exists i :: 0 <= i < 8 && data[i] == k && Bit(b, i))
  {
    Scatter(b, data, 8)
  }

  /** The register word read back after CS is driven low, DC high, WR low and
      all data pins low (later assignments win, as on the hardware). */
  function CaptureBaseline(reg: Word, p: BusPins): (r: Word)
    requires ValidPins(p)
    ensures !r[p.cs] && r[p.dc] && !r[p.wr]
    ensures forall i :: 0 <= i < 8 ==> !r[p.data[i]]
    ensures forall k :: 0 <= k < 32 && k != p.cs && k != p.dc && k != p.wr && !IsDataPin(p, k) ==>
      r[k] == reg[k]
  {
    seq(32, k requires 0 <= k < 32 =>
      if IsDataPin(p, k) then false
      else if k == p.wr then false
      else if k == p.dc then true
      else if k == p.cs then false
      else reg[k])
  }

  /** A baseline as captured: selected, data mode, WR low, data bus low. */
  predicate Baseline(base: Word, p: BusPins)
    requires ValidPins(p)
  {
    !base[p.cs] && base[p.dc] && !base[p.wr] && forall i :: 0 <= i < 8 ==> !base[p.data[i]]
  }

  /** Table entry for byte b: `convert_byte2gpio(b) | empty_mask`. */
  function Entry(base: Word, p: BusPins, b: Byte): Word
    requires ValidPins(p)
  {
    Or(ConvertByte2Gpio(b, p.data), base)
  }

  /** Eight bits as a byte. */
  function ByteOf(bits: seq<bool>): (r: Byte)
    requires |bits| == 8
    ensures r == FromBits(bits)
  {
    FromBitsBound(bits);
    FromBits(bits)
  }

  /** `gpio.to_bytes(4, 'little')` */
  function WordBytes(w: Word): (r: seq<Byte>)
    ensures |r| == 4
  {
    [ByteOf(w[0..8]), ByteOf(w[8..16]), ByteOf(w[16..24]), ByteOf(w[24..32])]
  }

  /** The first n entries, four little-endian bytes each. */
  function TablePrefix(base: Word, p: BusPins, n: nat): (r: seq<Byte>)
    requires ValidPins(p) && n <= 256
    ensures |r| == 4 * n
    ensures forall b :: 0 <= b < n ==> r[4 * b .. 4 * b + 4] == WordBytes(Entry(base, p, b))
  {
    if n == 0 then []
    else TablePrefix(base, p, n - 1) + WordBytes(Entry(base, p, n - 1))
  }

  /** generate_byte2gpio: the 1024-byte table. */
  function GenerateByte2Gpio(base: Word, p: BusPins): (r: seq<Byte>)
    requires ValidPins(p)
    ensures |r| == 1024
    ensures forall b :: 0 <= b < 256 ==> r[4 * b .. 4 * b + 4] == WordBytes(Entry(base, p, b))
  {
    TablePrefix(base, p, 256)
  }

  /** `ptr32(BYTE2GPIO)[b]`: a little-endian 32-bit load from the table. */
  function TableWord(table: seq<Byte>, b: Byte): nat
    requires |table| == 1024
  {
    var i: int := 4 * b as int;
    FromLE(table[i .. i + 4])
  }

  /** `byte2gpio[c] - dc_bit`: the word that sends c as a command. */
  function CommandWord(table: seq<Byte>, p: BusPins, c: Byte): int
    requires |table| == 1024
  {
    TableWord(table, c) - Pow2(p.dc)
  }

  /** The byte the eight data pins show in register word w: bit i of the
      result is the level of pin data[i]. */
  function ReadDataByte(w: Word, p: BusPins): (r: Byte)
    requires ValidPins(p)
  {
    ByteOf(seq(8, i requires 0 <= i < 8 => w[p.data[i]]))
  }

  lemma WordBytesValue(w: Word)
    ensures FromLE(WordBytes(w)) == FromBits(w)
  {
    var bs := WordBytes(w);
    FromLEFour(bs);
    var w1, w2, w3 := w[8..], w[16..], w[24..];
    FromBitsSplit8(w);
    FromBitsSplit8(w1);
    FromBitsSplit8(w2);
    assert w[..8] == w[0..8] && w1[..8] == w[8..16] && w2[..8] == w[16..24];
    assert w1[8..] == w2 && w2[8..] == w3 && w3 == w[24..32];
  }

  /** Loading word b from the generated table gives entry b's value. */
  lemma TableWordIsEntry(base: Word, p: BusPins, b: Byte)
    requires ValidPins(p)
    ensures TableWord(GenerateByte2Gpio(base, p), b) == FromBits(Entry(base, p, b))
  {
    var table := GenerateByte2Gpio(base, p);
    var i: int := 4 * b as int;
    assert table[i .. i + 4] == WordBytes(Entry(base, p, b));
    WordBytesValue(Entry(base, p, b));
  }

  /** Entry b drives the data pins to exactly b. */
  lemma EntryDrivesByte(base: Word, p: BusPins, b: Byte)
    requires ValidPins(p) && Baseline(base, p)
    ensures ReadDataByte(Entry(base, p, b), p) == b
  {
    var w := Entry(base, p, b);
    var levels := seq(8, i requires 0 <= i < 8 => w[p.data[i]]);
    forall i | 0 <= i < 8
      ensures levels[i] == Bit(b, i)
    {
      var k := p.data[i];
      if exists j :: 0 <= j < 8 && p.data[j] == k && Bit(b, j) {
        var j :| 0 <= j < 8 && p.data[j] == k && Bit(b, j);
        assert i == j;
      }
    }
    assert levels == ToBits(b, 8);
    assert Pow2(8) == 256;
    FromToBits(b, 8);
  }

  /** Entry b keeps every pin that is not a data pin at its baseline level:
      CS low, DC high, WR low, everything else untouched. */
  lemma EntryKeepsControlPins(base: Word, p: BusPins, b: Byte, k: nat)
    requires ValidPins(p) && k < 32 && !IsDataPin(p, k)
    ensures Entry(base, p, b)[k] == base[k]
  {
  }

  /** Subtracting the DC bit from an entry clears DC and changes nothing
      else, because every entry has DC set. */
  lemma CommandWordClearsDc(base: Word, p: BusPins, c: Byte)
    requires ValidPins(p) && Baseline(base, p)
    ensures CommandWord(GenerateByte2Gpio(base, p), p, c) == FromBits(Entry(base, p, c)[p.dc := false])
  {
    TableWordIsEntry(base, p, c);
    FromBitsClear(Entry(base, p, c), p.dc);
  }
}
