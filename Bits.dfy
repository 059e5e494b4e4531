/**
 * Byte and bit arithmetic shared by the bit channel and the container format:
 * most-significant-bit-first packing of bit runs into bytes, the bit at a
 * given bit offset of a byte stream, and little-endian fixed-width integers.
 */
module Bits {

  type Byte = b: int | 0 <= b < 256

  const UByteLimit: nat := 0x100
  const UShortLimit: nat := 0x1_0000
  const UIntLimit: nat := 0x1_0000_0000

  function Pow2(n: nat): (p: nat)
    ensures p >= 1
  {
    if n == 0 then 1 else 2 * Pow2(n - 1)
  }

  type Bit = b: int | b == 0 || b == 1

  /** The integer whose binary digits, most significant first, are `bits`:
      what `bitValue = (bitValue << 1) + bit` accumulates. */
  function BitsValue(bits: seq<Bit>): nat {
    if bits == [] then 0 else 2 * BitsValue(bits[..|bits| - 1]) + bits[|bits| - 1]
  }

  function Zeros(n: nat): (z: seq<Bit>)
    ensures |z| == n
  {
    seq(n, _ => 0)
  }

  /** The byte emitted for a group of at most eight bits: the bits in the high
      positions, zeros below. */
  function ByteOf(bits: seq<Bit>): Byte
    requires |bits| <= 8
  {
    var padded := bits + Zeros(8 - |bits|);
    BitsValueRange(padded);
    assert Pow2(8) == 256 by { Pow2Values(); }
    BitsValue(padded)
  }

  /** A bit run packed into bytes, eight bits per byte, the last byte zero-padded. */
  function PackBits(bits: seq<Bit>): (r: seq<Byte>)
        ensures |r| == (|bits| + 7) / 8
    decreases |bits|
  {
    if bits == [] then []
    else if |bits| <= 8 then [ByteOf(bits)]
    else [ByteOf(bits[..8])] + PackBits(bits[8..])
  }

  /** Bit `c % 8` (most significant first) of byte `c / 8` of `data`. */
  function StreamBit(data: seq<Byte>, c: nat): Bit
    requires c < 8 * |data|
  {
    (data[c / 8] / Pow2(7 - c % 8)) % 2
  }

  /** `v` as `width` bytes, least significant byte first. */
  function LE(v: nat, width: nat): (r: seq<Byte>)
    ensures |r| == width
  {
    if width == 0 then [] else [v % 256] + LE(v / 256, width - 1)
  }

  /** The value of little-endian bytes. */
  function FromLE(bytes: seq<Byte>): nat {
    if bytes == [] then 0 else bytes[0] + 256 * FromLE(bytes[1..])
  }

  function Pow256(width: nat): (p: nat)
    ensures p >= 1
  {
    if width == 0 then 1 else 256 * Pow256(width - 1)
  }

  /** The bit a code character stands for, as `int(num)` reads '0' and '1'. */
  function BitOf(ch: char): Bit {
    if ch == '1' then 1 else 0
  }

  /** The code character for a bit, as `str(bit)` writes 0 and 1. */
  function Digit(b: Bit): char {
    if b == 1 then '1' else '0'
  }

  predicate IsCode(code: string) {
    forall i :: 0 <= i < |code| ==> code[i] == '0' || code[i] == '1'
  }

  /** The bits a code string stands for. */
  function ToBits(code: string): (r: seq<Bit>)
    ensures |r| == |code|
  {
    seq(|code|, i requires 0 <= i < |code| => BitOf(code[i]))
  }

  // ---------------------------------------------------------------- lemmas

  lemma Pow2Values()
    ensures Pow2(1) == 2 && Pow2(2) == 4 && Pow2(3) == 8 && Pow2(4) == 16
    ensures Pow2(5) == 32 && Pow2(6) == 64 && Pow2(7) == 128 && Pow2(8) == 256
  {
  }

  lemma {:induction false} Pow2Add(a: nat, b: nat)
    ensures Pow2(a) * Pow2(b) == Pow2(a + b)
    decreases a
  {
    if a > 0 {
      Pow2Add(a - 1, b);
    }
  }

  lemma {:induction false} BitsValueRange(bits: seq<Bit>)
        ensures 0 <= BitsValue(bits) < Pow2(|bits|)
    decreases |bits|
  {
    if bits != [] {
      BitsValueRange(bits[..|bits| - 1]);
    }
  }

  /** Appending k zero bits shifts the value left by k, as `bitValue << (8 - numberOfBits)` does. */
  lemma {:induction false} BitsValueZeros(bits: seq<Bit>, k: nat)
    ensures BitsValue(bits + Zeros(k)) == BitsValue(bits) * Pow2(k)
    decreases k
  {
    if k > 0 {
      var longer := bits + Zeros(k);
      assert longer[..|longer| - 1] == bits + Zeros(k - 1);
      assert longer[|longer| - 1] == 0;
      BitsValueZeros(bits, k - 1);
      DoubleProduct(BitsValue(bits), Pow2(k - 1));
    } else {
      assert bits + Zeros(0) == bits;
    }
  }

  lemma DoubleProduct(a: int, p: int)
    ensures 2 * (a * p) == a * (2 * p)
  {
  }

  lemma DivUnique(x: int, d: int, q: int, r: int)
    requires d > 0 && 0 <= r < d && x == q * d + r
    ensures x / d == q && x % d == r
  {
    var q', r' := x / d, x % d;
    assert (q' - q) * d == r - r';
    if q' > q {
      MulAtLeast(q' - q, d);
    } else if q' < q {
      MulAtLeast(q - q', d);
    }
  }

  lemma MulAtLeast(k: int, d: int)
    requires k >= 1 && d >= 1
    ensures k * d >= d
  {
    assert k * d == (k - 1) * d + d;
  }

  lemma DivHalf(v: int, l: int, p: int)
    requires v >= 0 && 0 <= l <= 1 && p >= 1
    ensures (2 * v + l) / (2 * p) == v / p
  {
    var q, r := v / p, v % p;
    assert 2 * v + l == q * (2 * p) + (2 * r + l);
    DivUnique(2 * v + l, 2 * p, q, 2 * r + l);
  }

  /** Reading the i-th of a run of bits back out of their value. */
  lemma {:induction false} BitsValueBit(bits: seq<Bit>, i: nat)
    requires i < |bits|
    ensures (BitsValue(bits) / Pow2(|bits| - 1 - i)) % 2 == bits[i]
    decreases |bits|
  {
    var n := |bits|;
    var front, last := bits[..n - 1], bits[n - 1];
    assert BitsValue(bits) == 2 * BitsValue(front) + last;
    if i < n - 1 {
      BitsValueBit(front, i);
      assert front[i] == bits[i];
      BitStep(BitsValue(bits), BitsValue(front), last, Pow2(n - 2 - i), Pow2(n - 1 - i), bits[i]);
    } else {
      assert Pow2(n - 1 - i) == 1;
      LastBit(BitsValue(front), last);
    }
  }

  lemma BitStep(w: nat, v: nat, l: Bit, p: nat, q: nat, b: Bit)
    requires w == 2 * v + l && q == 2 * p && p >= 1 && (v / p) % 2 == b
    ensures (w / q) % 2 == b
  {
    DivHalf(v, l, p);
  }

  lemma LastBit(v: nat, l: Bit)
    ensures ((2 * v + l) / 1) % 2 == l
  {
  }

  lemma MulDivCancel(a: int, p: int, q: int)
    requires a >= 0 && p >= 1 && q >= 1
    ensures (a * p) / (p * q) == a / q
  {
    var k, r := a / q, a % q;
    assert a * p == k * (p * q) + r * p;
    assert r * p < q * p;
    DivUnique(a * p, p * q, k, r * p);
  }

  /** Bit 7 of a byte shifted left m times is bit m (most significant first) of the byte. */
  lemma ShiftedTopBit(b: int, m: nat)
    requires b >= 0 && m <= 7
    ensures (b * Pow2(m) / 128) % 2 == (b / Pow2(7 - m)) % 2
  {
    Pow2Add(m, 7 - m);
    Pow2Values();
    MulDivCancel(b, Pow2(m), Pow2(7 - m));
  }

  lemma ByteOfBit(bits: seq<Bit>, i: nat)
    requires |bits| <= 8 && i < |bits|
    ensures (ByteOf(bits) / Pow2(7 - i)) % 2 == bits[i]
  {
    var padded := bits + Zeros(8 - |bits|);
    BitsValueBit(padded, i);
  }

  /** Every bit of a packed run can be read back at its bit offset. */
  lemma {:induction false} PackBitsAt(bits: seq<Bit>, j: nat)
    requires j < |bits|
    ensures j < 8 * |PackBits(bits)| && StreamBit(PackBits(bits), j) == bits[j]
    decreases |bits|
  {
    if |bits| <= 8 {
      ByteOfBit(bits, j);
    } else if j < 8 {
      ByteOfBit(bits[..8], j);
    } else {
      PackBitsAt(bits[8..], j - 8);
      var rest := PackBits(bits[8..]);
      assert PackBits(bits) == [ByteOf(bits[..8])] + rest;
      assert j / 8 == (j - 8) / 8 + 1 && j % 8 == (j - 8) % 8;
    }
  }

  lemma StreamBitShift(pre: seq<Byte>, data: seq<Byte>, post: seq<Byte>, j: nat)
    requires j < 8 * |data|
    ensures 8 * |pre| + j < 8 * |pre + data + post|
    ensures StreamBit(pre + data + post, 8 * |pre| + j) == StreamBit(data, j)
  {
    var c := 8 * |pre| + j;
    assert c / 8 == |pre| + j / 8 && c % 8 == j % 8;
  }

  /** Packing splits at any byte boundary of the run. */
  lemma {:induction false} PackBitsAppend(a: seq<Bit>, b: seq<Bit>)
    requires |a| % 8 == 0
    ensures PackBits(a + b) == PackBits(a) + PackBits(b)
    decreases |a|
  {
    if a != [] {
      var ab := a + b;
      assert ab[..8] == a[..8];
      assert ab[8..] == a[8..] + b;
      if |a| == 8 {
        assert a[8..] == [];
        assert a[..8] == a;
        if b == [] {
          assert ab == a;
        }
      } else {
        PackBitsAppend(a[8..], b);
      }
    } else {
      assert a + b == b;
    }
  }

  /** The byte emitted for pending bits is their value shifted to the high end. */
  lemma ByteOfShifted(bits: seq<Bit>)
    requires 1 <= |bits| <= 8
    ensures ByteOf(bits) == BitsValue(bits) * Pow2(8 - |bits|)
  {
    BitsValueZeros(bits, 8 - |bits|);
  }

  lemma {:induction false} LERoundTrip(v: nat, width: nat)
    requires v < Pow256(width)
    ensures FromLE(LE(v, width)) == v
    decreases width
  {
    if width > 0 {
      LERoundTrip(v / 256, width - 1);
      assert LE(v, width)[1..] == LE(v / 256, width - 1);
    }
  }

  lemma {:induction false} FromLEBound(bytes: seq<Byte>)
    ensures FromLE(bytes) < Pow256(|bytes|)
    decreases |bytes|
  {
    if bytes != [] {
      FromLEBound(bytes[1..]);
    }
  }

  /** Sequence concatenation regroups. */
  lemma Assoc<T>(a: seq<T>, b: seq<T>, c: seq<T>)
    ensures a + b + c == a + (b + c)
  {
  }

  lemma ToBitsAppend(a: string, b: string)
    ensures ToBits(a + b) == ToBits(a) + ToBits(b)
  {
  }

  lemma DigitOfBit(code: string, i: nat)
    requires IsCode(code) && i < |code|
    ensures Digit(ToBits(code)[i]) == code[i]
  {
  }
}
