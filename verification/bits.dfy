/** Integer bit arithmetic shared by the whole model: powers of two, the
    `(v >> i) & 1` bit test, little-endian bit sequences, and the
    `(v >> 8) & 0xFF` / `v & 0xFF` byte split used for every 16-bit
    coordinate and colour sent over the 8-bit bus.

    Python's `>>` floors and `& 0xFF` keeps the low eight bits of the two's
    complement, so on every integer (negative ones included) they agree with
    Dafny's Euclidean `/` and `%` by a positive power of two. */
module Bits {

  type Byte = x: int | 0 <= x < 256

  /** A 32-bit GPIO register word, bit k at index k. */
  type Word = w: seq<bool> | |w| == 32 witness seq(32, _ => false)

  function Pow2(n: nat): (r: nat)
    ensures r >= 1
  {
    if n == 0 then 1 else 2 * Pow2(n - 1)
  }

  /** `(v >> i) & 1 == 1` */
  predicate Bit(v: int, i: nat)
    decreases i
  {
    if i == 0 then v % 2 == 1 else Bit(v / 2, i - 1)
  }

  /** The value of a little-endian bit sequence (bit 0 first). */
  function FromBits(bits: seq<bool>): nat
  {
    if |bits| == 0 then 0
    else (if bits[0] then 1 else 0) + 2 * FromBits(bits[1..])
  }

  /** The low `n` bits of `v`, bit 0 first. */
  function ToBits(v: int, n: nat): (r: seq<bool>)
    ensures |r| == n
    ensures forall i :: 0 <= i < n ==> r[i] == Bit(v, i)
  {
    seq(n, i requires 0 <= i < n => Bit(v, i))
  }

  /** `int.from_bytes(bs, 'little')` (unsigned). */
  function FromLE(bs: seq<Byte>): nat
  {
    if |bs| == 0 then 0 else bs[0] as int + 256 * FromLE(bs[1..])
  }

  /** `v & 0xFF` */
  function Lo(v: int): Byte
  {
    v % 256
  }

  /** `(v >> 8) & 0xFF` */
  function Hi(v: int): Byte
  {
    (v / 256) % 256
  }

  lemma {:induction false} FromBitsBound(bits: seq<bool>)
    ensures FromBits(bits) < Pow2(|bits|)
  {
    if |bits| > 0 {
      FromBitsBound(bits[1..]);
    }
  }

  /** Reading back the low `n` bits of a value below 2^n gives the value. */
  lemma {:induction false} FromToBits(v: int, n: nat)
    requires 0 <= v < Pow2(n)
    ensures FromBits(ToBits(v, n)) == v
  {
    if n > 0 {
      var bits := ToBits(v, n);
      assert bits[1..] == ToBits(v / 2, n - 1) by {
        forall i | 0 <= i < n - 1
          ensures bits[1..][i] == Bit(v / 2, i)
        {
          assert bits[1..][i] == Bit(v, i + 1);
        }
      }
      FromToBits(v / 2, n - 1);
      assert Bit(v, 0) <==> v % 2 == 1;
    }
  }

  /** Splitting a bit sequence at the value of its bits. */
  lemma {:induction false} ToFromBits(bits: seq<bool>)
    ensures ToBits(FromBits(bits), |bits|) == bits
  {
    if |bits| > 0 {
      var v := FromBits(bits);
      var rest := bits[1..];
      ToFromBits(rest);
      assert v / 2 == FromBits(rest);
      assert v % 2 == 1 <==> bits[0];
      forall i | 0 <= i < |bits|
        ensures Bit(v, i) == bits[i]
      {
        if i > 0 {
          assert Bit(v, i) == Bit(v / 2, i - 1);
          assert ToBits(FromBits(rest), |rest|)[i - 1] == rest[i - 1];
        }
      }
    }
  }

  lemma {:induction false} FromBitsAppend(a: seq<bool>, b: seq<bool>)
    ensures FromBits(a + b) == FromBits(a) + Pow2(|a|) * FromBits(b)
  {
    if |a| > 0 {
      var bit := if a[0] then 1 else 0;
      var x, p, v := FromBits(a[1..]), Pow2(|a| - 1), FromBits(b);
      assert (a + b)[1..] == a[1..] + b;
      assert FromBits(a + b) == bit + 2 * FromBits(a[1..] + b);
      FromBitsAppend(a[1..], b);
      Scale(bit, x, p, v);
    } else {
      assert a + b == b;
    }
  }

  lemma Scale(bit: int, x: int, p: int, v: int)
    ensures bit + 2 * (x + p * v) == (bit + 2 * x) + (2 * p) * v
  {
  }

  /** Four little-endian bytes, digit by digit. */
  lemma FromLEFour(bs: seq<Byte>)
    requires |bs| == 4
    ensures FromLE(bs) == bs[0] as int + 256 * (bs[1] as int + 256 * (bs[2] as int + 256 * bs[3] as int))
  {
    var t1, t2, t3 := bs[1..], bs[2..], bs[3..];
    assert t1[1..] == t2 && t2[1..] == t3 && t3[1..] == [];
    assert FromLE(t3) == bs[3] as int;
  }

  /** The low byte of a bit sequence and the rest. */
  lemma FromBitsSplit8(bits: seq<bool>)
    requires |bits| >= 8
    ensures FromBits(bits) == FromBits(bits[..8]) + 256 * FromBits(bits[8..])
  {
    assert bits == bits[..8] + bits[8..];
    FromBitsAppend(bits[..8], bits[8..]);
    assert Pow2(8) == 256;
  }

  /** Clearing a set bit subtracts its weight: the source marks a command
      word by subtracting the DC bit from a table word that has it set. */
  lemma {:induction false} FromBitsClear(bits: seq<bool>, k: nat)
    requires k < |bits| && bits[k]
    ensures FromBits(bits[k := false]) == FromBits(bits) - Pow2(k)
  {
    if k > 0 {
      assert bits[k := false][1..] == bits[1..][k - 1 := false];
      FromBitsClear(bits[1..], k - 1);
    }
  }

  /** Quotient and remainder are determined by any decomposition with the
      remainder in range. */
  lemma DivModOf(c: int, d: int, q: int, r: int)
    requires d > 0 && 0 <= r < d && c == q * d + r
    ensures c / d == q && c % d == r
  {
    var q', r' := c / d, c % d;
    assert c == q' * d + r';
    var k := q - q';
    assert k * d == r' - r;
    if k >= 1 {
      MulAtLeast(k, d);
    } else if k <= -1 {
      MulAtLeast(-k, d);
    }
  }

  lemma MulAtLeast(k: int, d: int)
    requires k >= 1 && d >= 0
    ensures k * d >= d
  {
  }

  lemma MulNonneg(a: int, b: int)
    requires a >= 0 && b >= 0
    ensures a * b >= 0
  {
  }

  lemma MulAtLeastBoth(a: int, b: int, w: int)
    requires a >= b && w >= 1
    ensures a * w >= b * w
  {
  }

  /** Row a of a w-wide, h-high grid ends at or before the grid's end. */
  lemma MulBelow(a: int, h: int, w: int)
    requires 0 <= a < h && w >= 1
    ensures (a + 1) * w <= h * w
  {
    MulAtLeastBoth(h, a + 1, w);
  }

  /** A stretch of w entries from a on, equal to line, extends the prefix
      up to a by line. */
  lemma SliceExtends<T>(all: seq<T>, a: int, w: int, line: seq<T>)
    requires 0 <= a && 0 <= w && a + w <= |all| && |line| == w
    requires forall c :: 0 <= c < w ==> line[c] == all[a + c]
    ensures all[..a + w] == all[..a] + line
  {
  }

  /** A cell before the end of a w-wide, h-high grid is in a row below h. */
  lemma DivBelow(k: int, w: int, h: int)
    requires w >= 1 && 0 <= k < w * h
    ensures k / w < h
  {
    if k / w >= h {
      MulAtLeastBoth(k / w, h, w);
    }
  }

  /** The byte split is a bijection on 16-bit values. */
  lemma HiLoJoin(v: int)
    requires 0 <= v < 0x10000
    ensures Hi(v) * 256 + Lo(v) == v
  {
  }
}
