/** The pin checker: which GPIO numbers each board refuses, the check of a
    proposed wiring, the bit logic of the data-bus test, and the assembly
    of the identification bytes the display answers with.  Driving and
    reading real pins is left out; a pin read-back is a parameter. */
module PinChecker {
  import opened Bits
  import opened Results
  import opened Platform

  /** Python's `|` on non-negative integers, bit by bit. */
  function Or(a: nat, b: nat): nat
    decreases a + b
  {
    if a == 0 then b
    else if b == 0 then a
    else (if a % 2 == 1 || b % 2 == 1 then 1 else 0) + 2 * Or(a / 2, b / 2)
  }

  /** Or-ing a value into the zero low bits of another adds it. */
  lemma {:induction false} OrDisjoint(a: nat, b: nat, k: nat)
    requires a % Pow2(k) == 0 && b < Pow2(k)
    decreases k
    ensures Or(a, b) == a + b
  {
    if a != 0 && b != 0 {
      assert k > 0;
      var p := Pow2(k - 1);
      var q := a / Pow2(k);
      assert a == 2 * (p * q);
      assert a % 2 == 0 && a / 2 == p * q;
      assert (a / 2) % p == 0 by {
        DivModOf(a / 2, p, q, 0);
      }
      OrDisjoint(a / 2, b / 2, k - 1);
    }
  }

  lemma {:induction false} OrComm(a: nat, b: nat)
    decreases a + b
    ensures Or(a, b) == Or(b, a)
  {
    if a != 0 && b != 0 {
      OrComm(a / 2, b / 2);
    }
  }

  /** The pins the constructor refuses for each board; boards it does not
      know (the ESP32-C3 among them) refuse nothing. */
  function InvalidPins(c: Controller): (s: seq<int>)
    ensures c == Esp32 ==> forall p :: p in s <==> p == 0 || 34 <= p <= 47
    ensures c == Esp32S3 ==>
      forall p :: p in s <==> p == 0 || p == 12 || 26 <= p <= 32 || 34 <= p <= 47
    ensures c == Rp2 ==> forall p :: p in s <==> p == 23 || p == 24 || p == 25 || p == 29
    ensures c == Esp32C3 || c == Undefined ==> s == []
  {
    match c
    case Esp32 => [0] + Range(34, 48)
    case Esp32S3 => [0, 12] + Range(26, 33) + Range(34, 48)
    case Rp2 => [23, 24, 25, 29]
    case _ => []
  }

  /** The integers lo, lo + 1, ..., hi - 1. */
  function Range(lo: int, hi: int): (s: seq<int>)
    decreases hi - lo
    ensures forall p :: p in s <==> lo <= p < hi
  {
    if lo >= hi then [] else [lo] + Range(lo + 1, hi)
  }

  /** check_pins goes through the data pins, then CS, DC, WR, RD and RST. */
  function AllPins(dataPins: seq<int>, cs: int, dc: int, wr: int, rd: int, rst: int): (s: seq<int>)
    ensures |s| == |dataPins| + 5 && s[..|dataPins|] == dataPins
  {
    dataPins + [cs, dc, wr, rd, rst]
  }

  /** check_pins: the first pin found on the invalid list is reported (the
      ValueError); None when every pin passes. */
  method CheckPins(pins: seq<int>, invalid: seq<int>) returns (bad: Option<int>)
    ensures bad.None? <==> forall k :: 0 <= k < |pins| ==> pins[k] !in invalid
    ensures bad.Some? ==> exists k :: 0 <= k < |pins| && pins[k] == bad.value && FirstInvalid(pins, invalid, k)
  {
    var i := 0;
    while i < |pins|
      invariant 0 <= i <= |pins|
      invariant forall k :: 0 <= k < i ==> pins[k] !in invalid
    {
      if pins[i] in invalid {
        assert FirstInvalid(pins, invalid, i);
        return Some(pins[i]);
      }
      i := i + 1;
    }
    return None;
  }

  /** pins[k] is invalid and no earlier pin is. */
  predicate FirstInvalid(pins: seq<int>, invalid: seq<int>, k: int)
    requires 0 <= k < |pins|
  {
    pins[k] in invalid && forall j :: 0 <= j < k ==> pins[j] !in invalid
  }

  /** On a board the checker does not know, every wiring passes. */
  lemma UnknownBoardAcceptsAll(pins: seq<int>, c: Controller)
    requires c == Esp32C3 || c == Undefined
    ensures forall k :: 0 <= k < |pins| ==> pins[k] !in InvalidPins(c)
  {
  }

  /** The pin levels read back after a value is written. */
  type Levels = s: seq<bool> | |s| == 8 witness [false, false, false, false, false, false, false, false]

  /** The levels set_data_pins drives on D0..D7: (value >> i) & 1. */
  function SetDataPins(value: int): (levels: Levels)
  {
    ToBits(value, 8)
  }

  /** read_data: the eight levels OR-ed together, D0 as bit 0. */
  method ReadData(levels: seq<bool>) returns (data: nat)
    requires |levels| == 8
    ensures data < 256 && SetDataPins(data) == levels
  {
    data := 0;
    var i := 0;
    while i < 8
      invariant 0 <= i <= 8
      invariant data == FromBits(levels[..i])
    {
      var bit: nat := if levels[i] then 1 else 0;
      assert data < Pow2(i) by {
        FromBitsBound(levels[..i]);
      }
      assert Or(data, bit * Pow2(i)) == data + bit * Pow2(i) by {
        OrComm(data, bit * Pow2(i));
        OrDisjoint(bit * Pow2(i), data, i);
      }
      assert levels[..i + 1] == levels[..i] + [levels[i]];
      FromBitsAppend(levels[..i], [levels[i]]);
      data := Or(data, bit * Pow2(i));
      i := i + 1;
    }
    assert levels[..8] == levels;
    FromBitsBound(levels);
    ToFromBits(levels);
  }

  /** Reading the bus back after set_data_pins gives the byte written. */
  lemma DataPinsRoundTrip(value: Byte)
    ensures FromBits(SetDataPins(value)) == value
  {
    FromToBits(value, 8);
  }

  const TestValues: seq<Byte> := [0x00, 0xFF, 0x55, 0xAA]

  /** test_data_bus: every test value, written and read back, shows bit i
      of the value on pin i. */
  function TestDataBus(readBack: Byte -> Levels): (ok: bool)
    ensures ok <==> forall k :: 0 <= k < |TestValues| ==> readBack(TestValues[k]) == SetDataPins(TestValues[k])
  {
    TestFrom(readBack, TestValues)
  }

  function TestFrom(readBack: Byte -> Levels, values: seq<Byte>): (ok: bool)
    ensures ok <==> forall k :: 0 <= k < |values| ==> readBack(values[k]) == SetDataPins(values[k])
  {
    if |values| == 0 then true
    else BitsMatch(readBack(values[0]), values[0], 0) && TestFrom(readBack, values[1..])
  }

  /** The inner loop: pins i..7 show bits i..7 of value. */
  function BitsMatch(levels: Levels, value: Byte, i: nat): (ok: bool)
    requires i <= 8
    decreases 8 - i
    ensures ok <==> forall j :: i <= j < 8 ==> levels[j] == Bit(value, j)
  {
    if i == 8 then true else levels[i] == Bit(value, i) && BitsMatch(levels, value, i + 1)
  }

  /** Pins that read back what was driven pass the test. */
  lemma IdealBusPasses()
    ensures TestDataBus(v => SetDataPins(v))
  {
  }

  /** A pin stuck at one level fails the test: 0x00 and 0xFF drive every
      pin both ways. */
  lemma StuckPinFails(readBack: Byte -> Levels, i: nat, level: bool)
    requires i < 8 && forall v: Byte :: readBack(v)[i] == level
    ensures !TestDataBus(readBack)
  {
    var lo, hi := SetDataPins(0x00), SetDataPins(0xFF);
    assert lo[i] == Bit(0, i) && hi[i] == Bit(0xFF, i);
    if level {
      assert !Bit(0, i) by {
        BitZero(i);
      }
      assert readBack(TestValues[0]) != SetDataPins(TestValues[0]) by {
        assert readBack(0x00)[i] != lo[i];
      }
    } else {
      assert Bit(0xFF, i) by {
        BitOfFF(i);
      }
      assert readBack(TestValues[1]) != SetDataPins(TestValues[1]) by {
        assert readBack(0xFF)[i] != hi[i];
      }
    }
  }

  lemma {:induction false} BitZero(i: nat)
    decreases i
    ensures !Bit(0, i)
  {
    if i > 0 {
      BitZero(i - 1);
    }
  }

  /** Every bit of 2^n - 1 below n is set. */
  lemma {:induction false} BitAllOnes(n: nat, i: nat)
    requires i < n
    decreases n
    ensures Bit(Pow2(n) - 1, i)
  {
    if i > 0 {
      assert (Pow2(n) - 1) / 2 == Pow2(n - 1) - 1;
      BitAllOnes(n - 1, i - 1);
    }
  }

  lemma BitOfFF(i: nat)
    requires i < 8
    ensures Bit(0xFF, i)
  {
    Pow2Values();
    BitAllOnes(8, i);
  }

  /** Two neighbouring pins shorted together fail the test: 0x55 and 0xAA
      drive them to opposite levels. */
  lemma ShortedPinsFail(readBack: Byte -> Levels, i: nat)
    requires i < 7 && forall v: Byte :: readBack(v)[i] == readBack(v)[i + 1]
    ensures !TestDataBus(readBack)
  {
    var s := SetDataPins(0x55);
    assert s[i] != s[i + 1] by {
      assert Bit(0x55, 0) && !Bit(0x55, 1) && Bit(0x55, 2) && !Bit(0x55, 3);
      assert Bit(0x55, 4) && !Bit(0x55, 5) && Bit(0x55, 6) && !Bit(0x55, 7);
    }
    assert readBack(TestValues[2]) != SetDataPins(TestValues[2]) by {
      assert readBack(0x55)[i] == readBack(0x55)[i + 1];
    }
  }

  /** read_display_ids: id1 << 16 | id2 << 8 | id3. */
  function IdSum(id1: Byte, id2: Byte, id3: Byte): (sum: nat)
  {
    Or(Or(id1 * 0x1_0000, id2 * 0x100), id3)
  }

  /** The OR of the shifted bytes is their base-256 number, so the three
      bytes can be read back out of it. */
  lemma IdSumDecodes(id1: Byte, id2: Byte, id3: Byte)
    ensures var sum := IdSum(id1, id2, id3);
      && sum == id1 * 0x1_0000 + id2 * 0x100 + id3 && sum < 0x100_0000
      && sum / 0x1_0000 == id1 && Hi(sum) == id2 && Lo(sum) == id3
  {
    assert Pow2(8) == 0x100 && Pow2(16) == 0x1_0000 by {
      Pow2Values();
    }
    OrDisjoint(id1 * 0x1_0000, id2 * 0x100, 16);
    var high := id1 * 0x1_0000 + id2 * 0x100;
    assert high == 0x100 * (id1 * 0x100 + id2);
    OrDisjoint(high, id3, 8);
    var sum := high + id3;
    DivModOf(sum, 0x1_0000, id1, id2 * 0x100 + id3);
    DivModOf(sum, 0x100, id1 * 0x100 + id2, id3);
    DivModOf(id1 * 0x100 + id2, 0x100, id1, id2);
  }

  lemma Pow2Values()
    ensures Pow2(8) == 0x100 && Pow2(16) == 0x1_0000
  {
    assert Pow2(4) == 16;
    assert Pow2(8) == 0x100;
    assert Pow2(12) == 0x1000;
  }

  /** read_display_model: (model1 << 8) + model2. */
  function DisplayModel(model1: Byte, model2: Byte): (model: nat)
    ensures model < 0x1_0000 && Hi(model) == model1 && Lo(model) == model2
  {
    DivModOf(model1 * 0x100 + model2, 0x100, model1, model2);
    model1 * 0x100 + model2
  }

  datatype ModelReport = Unknown | Known(model: nat)

  /** check_model: 0x8080 is reported as an unknown display. */
  function CheckModel(model: nat): (r: ModelReport)
    ensures r.Known? ==> r.model == model
  {
    if model == 0x8080 then Unknown else Known(model)
  }

  /** The display is reported unknown exactly when both model bytes read
      0x80. */
  lemma UnknownModel(model1: Byte, model2: Byte)
    ensures CheckModel(DisplayModel(model1, model2)) == Unknown <==> model1 == 0x80 && model2 == 0x80
  {
    var model := DisplayModel(model1, model2);
    if model1 == 0x80 && model2 == 0x80 {
      assert model == 0x80 * 0x100 + 0x80;
    }
    if model == 0x8080 {
      assert Hi(model) == 0x80 && Lo(model) == 0x80;
    }
  }
}
