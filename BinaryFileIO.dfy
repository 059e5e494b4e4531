/**
 * The bit channel: a writer and a reader of single bits and of 8-, 16- and
 * 32-bit unsigned little-endian integers over a byte stream, which is kept in
 * memory here (the writer's `out`, the reader's `data` and `pos`).
 */
module BinaryFileIO {
  import opened Bits
  import opened Wrappers

  /** The reader's one failure: fewer bytes remain than a read needs. */
  datatype ReadError = EndOfFile

  /**
   * Writer state: `out` holds the bytes written so far; `bitValue` accumulates
   * the `numberOfBits` bits not yet written as a byte.
   *
   * The ghost view: `Committed` is the output up to the last fixed-width write
   * or forced flush; the bits written since form the current run, `Full` (the
   * whole bytes of it already in `out`) followed by `Pending` (the bits in the
   * accumulator). The file the writer leaves behind once closed is `Image()`.
   */
  class Writer {
    var out: seq<Byte>
    var bitValue: int
    var numberOfBits: int
    ghost var Committed: seq<Byte>
    ghost var Full: seq<Bit>
    ghost var Pending: seq<Bit>

    /** The state inside `writeBit`, when the eighth pending bit may have arrived. */
    ghost predicate Buffered()
      reads this
    {
      && |Full| % 8 == 0
      && numberOfBits == |Pending| <= 8
      && out == Committed + PackBits(Full)
      && bitValue == BitsValue(Pending)
    }

    /** The state between calls: fewer than eight pending bits. */
    ghost predicate Valid()
      reads this
    {
      Buffered() && numberOfBits < 8
    }

    /** The bits written since the run began. */
    ghost function Run(): seq<Bit>
      reads this
    {
      Full + Pending
    }

    ghost function Image(): seq<Byte>
      reads this
      requires Buffered()
    {
      Committed + PackBits(Run())
    }

    constructor ()
      ensures Valid() && out == [] && Committed == [] && Run() == []
    {
      out := [];
      bitValue := 0;
      numberOfBits := 0;
      Committed := [];
      Full, Pending := [], [];
    }

    /** Fixed-width write of one byte: pending bits go out first. */
    method WriteUByte(value: int)
      requires Valid() && 0 <= value < UByteLimit
      modifies this
      ensures Valid() && Run() == [] && numberOfBits == 0
      ensures out == Committed == old(Image()) + [value]
      decreases numberOfBits, 1
    {
      FlushBits();
      out := out + [value];
      Committed := out;
    }

    method WriteUShort(value: int)
      requires Valid() && 0 <= value < UShortLimit
      modifies this
      ensures Valid() && Run() == [] && numberOfBits == 0
      ensures out == Committed == old(Image()) + LE(value, 2)
    {
      FlushBits();
      out := out + LE(value, 2);
      Committed := out;
    }

    method WriteUInt(value: int)
      requires Valid() && 0 <= value < UIntLimit
      modifies this
      ensures Valid() && Run() == [] && numberOfBits == 0
      ensures out == Committed == old(Image()) + LE(value, 4)
    {
      FlushBits();
      out := out + LE(value, 4);
      Committed := out;
    }

    /**
     * Appends one bit to the current run. The eighth pending bit, or a bit
     * written with `flushByte`, sends the pending byte out; only `flushByte`
     * ends the run.
     */
    method WriteBit(bit: int, flushByte: bool)
      requires Valid() && (bit == 0 || bit == 1)
      modifies this
      ensures Valid()
      ensures !flushByte ==> Committed == old(Committed) && Run() == old(Run()) + [bit]
      ensures flushByte ==> Committed == out == old(Committed) + PackBits(old(Run()) + [bit]) && Run() == []
    {
      AppendBitValue(Pending, bit);
      bitValue, numberOfBits, Pending := bitValue * 2 + bit, numberOfBits + 1, Pending + [bit];
      if numberOfBits == 8 || flushByte {
        ghost var committed, run := Committed, Run();
        assert run == old(Run()) + [bit];
        FlushBits();
        if !flushByte {
          Committed, Full := committed, run;
        }
      }
    }

    /** Sends pending bits out as one byte, high bits first, zeros below. */
    method FlushBits()
      requires Buffered()
      modifies this
      ensures Valid() && Run() == [] && numberOfBits == 0 && bitValue == 0
      ensures out == Committed == old(Image())
      decreases numberOfBits, 0
    {
      if numberOfBits != 0 {
        ghost var image := Image();
        FlushedImage(Committed, Full, Pending);
        bitValue := bitValue * Pow2(8 - numberOfBits);
        numberOfBits := 0;
        var b := bitValue;
        Committed, Full, Pending := out, [], [];
        // The source zeroes bitValue after writing the byte; nothing reads it in between.
        bitValue := 0;
        WriteUByte(b);
        assert out == image;
      } else {
        assert Full + Pending == Full;
        Committed, Full := out, [];
      }
    }

    method Close()
      requires Valid()
      modifies this
      ensures Valid() && Run() == [] && numberOfBits == 0
      ensures out == old(Image())
    {
      FlushBits();
    }
  }

  /** Flushing pending bits appends their value shifted to the high end: the last byte of the image. */
  lemma FlushedImage(committed: seq<Byte>, full: seq<Bit>, pending: seq<Bit>)
    requires |full| % 8 == 0 && 1 <= |pending| <= 8
    ensures 0 <= BitsValue(pending) * Pow2(8 - |pending|) < UByteLimit
    ensures committed + PackBits(full + pending)
         == committed + PackBits(full) + [BitsValue(pending) * Pow2(8 - |pending|)]
  {
    PackBitsAppend(full, pending);
    ByteOfShifted(pending);
  }

  lemma AppendBitValue(bits: seq<Bit>, bit: Bit)
    ensures BitsValue(bits + [bit]) == 2 * BitsValue(bits) + bit
  {
    assert (bits + [bit])[..|bits|] == bits;
  }

  /** A read's value paired with the cursor after it. */
  function WithCursor<T>(r: Result<T, ReadError>, c: nat): Result<(T, nat), ReadError> {
    match r
    case Ok(v) => Ok((v, c))
    case Err(e) => Err(e)
  }

  /**
   * A fixed-width read at bit cursor `c` (bits consumed so far): leftover bits
   * of a partly read byte are dropped, then `width` whole bytes are read.
   */
  function ReadFixed(data: seq<Byte>, c: nat, width: nat): (r: Result<(nat, nat), ReadError>)
    requires width >= 1
    ensures r.Ok? ==> c < r.value.1 <= 8 * |data| && r.value.1 % 8 == 0
    ensures r.Ok? <==> (c + 7) / 8 + width <= |data|
    ensures r.Ok? ==> r.value.0 < Pow256(width)
  {
    var p := (c + 7) / 8;
    if p + width <= |data| then
      FromLEBound(data[p..p + width]);
      Ok((FromLE(data[p..p + width]), 8 * (p + width)))
    else Err(EndOfFile)
  }

  /** A single-bit read at bit cursor `c`. */
  function ReadBitAt(data: seq<Byte>, c: nat): (r: Result<(Bit, nat), ReadError>)
    ensures r.Ok? ==> r.value.1 == c + 1 <= 8 * |data|
    ensures r.Ok? <==> c < 8 * |data|
  {
    if c < 8 * |data| then Ok((StreamBit(data, c), c + 1)) else Err(EndOfFile)
  }

  /**
   * Reader state: `pos` bytes of `data` consumed; of the last of them
   * `numberOfBits` bits are still to be handed out, `bitValue` being that
   * byte shifted left once per bit already handed out.
   */
  class Reader {
    const data: seq<Byte>
    var pos: nat
    var bitValue: int
    var numberOfBits: int

    ghost predicate Valid()
      reads this
    {
      && pos <= |data|
      && 0 <= numberOfBits < 8
      && (numberOfBits > 0 ==> 0 < pos && bitValue == data[pos - 1] * Pow2(8 - numberOfBits))
    }

    /** The number of bits of `data` consumed so far. */
    ghost function Cursor(): nat
      reads this
      requires Valid()
    {
      8 * pos - numberOfBits
    }

    constructor (file: seq<Byte>)
      ensures Valid() && data == file && Cursor() == 0
    {
      data := file;
      pos := 0;
      bitValue := 0;
      numberOfBits := 0;
    }

    method ResetBits()
      requires Valid()
      modifies this
      ensures Valid() && pos == old(pos) && numberOfBits == 0 && bitValue == 0
    {
      bitValue := 0;
      numberOfBits := 0;
    }

    /** Up to `count` raw bytes from the stream (fewer at its end). */
    method ReadRaw(count: nat) returns (s: seq<Byte>)
      requires Valid() && numberOfBits == 0
      modifies this
      ensures Valid() && numberOfBits == 0
      ensures old(pos) + count <= |data| ==> s == data[old(pos)..old(pos) + count] && pos == old(pos) + count
      ensures old(pos) + count > |data| ==> |s| < count && pos == |data|
    {
      var end := if pos + count <= |data| then pos + count else |data|;
      s := data[pos..end];
      pos := end;
    }

    method ReadUByte() returns (r: Result<nat, ReadError>)
      requires Valid()
      modifies this
      ensures Valid() && numberOfBits == 0
      ensures WithCursor(r, Cursor()) == ReadFixed(data, old(Cursor()), 1)
    {
      ResetBits();
      var s := ReadRaw(1);
      if |s| != 1 {
        return Err(EndOfFile);
      }
      r := Ok(FromLE(s));
    }

    method ReadUShort() returns (r: Result<nat, ReadError>)
      requires Valid()
      modifies this
      ensures Valid() && numberOfBits == 0
      ensures WithCursor(r, Cursor()) == ReadFixed(data, old(Cursor()), 2)
    {
      ResetBits();
      var s := ReadRaw(2);
      if |s| != 2 {
        return Err(EndOfFile);
      }
      r := Ok(FromLE(s));
    }

    method ReadUInt() returns (r: Result<nat, ReadError>)
      requires Valid()
      modifies this
      ensures Valid() && numberOfBits == 0
      ensures WithCursor(r, Cursor()) == ReadFixed(data, old(Cursor()), 4)
    {
      ResetBits();
      var s := ReadRaw(4);
      if |s| != 4 {
        return Err(EndOfFile);
      }
      r := Ok(FromLE(s));
    }

    /** Hands out the next bit, most significant first, fetching a byte only when none is left. */
    method ReadBit() returns (r: Result<Bit, ReadError>)
      requires Valid()
      modifies this
      ensures Valid()
      ensures WithCursor(r, Cursor()) == ReadBitAt(data, old(Cursor()))
    {
      if numberOfBits == 0 {
        ReadByteAligned(data, pos);
        var v := ReadUByte();
        if v.Err? {
          return Err(v.error);
        }
        bitValue := v.value;
        numberOfBits := 8;
      }
      TopBitIsStreamBit(data, pos, numberOfBits, bitValue);
      // (bitValue & 128) >> 7 on a non-negative bitValue
      var b := (bitValue / 128) % 2;
      bitValue := bitValue * 2;
      numberOfBits := numberOfBits - 1;
      r := Ok(b);
    }
  }

  lemma ReadByteAligned(data: seq<Byte>, p: nat)
    ensures ReadFixed(data, 8 * p, 1) == if p < |data| then Ok((data[p], 8 * (p + 1))) else Err(EndOfFile)
  {
    assert (8 * p + 7) / 8 == p;
    if p < |data| {
      assert FromLE(data[p..p + 1]) == data[p] + 256 * FromLE([]);
    }
  }

  /** What `readBit` extracts from its shifted byte is the stream's bit at the cursor. */
  lemma TopBitIsStreamBit(data: seq<Byte>, pos: nat, n: int, bv: int)
    requires 1 <= n <= 8 && 1 <= pos <= |data| && bv == data[pos - 1] * Pow2(8 - n)
    ensures 8 * pos - n < 8 * |data|
    ensures (bv / 128) % 2 == StreamBit(data, 8 * pos - n)
    ensures bv * 2 == data[pos - 1] * Pow2(8 - (n - 1))
  {
    var c := 8 * pos - n;
    assert c / 8 == pos - 1 && c % 8 == 8 - n;
    ShiftedTopBit(data[pos - 1], 8 - n);
    DoubleProduct(data[pos - 1], Pow2(8 - n));
  }

  // ---------------------------------------------------------------- round trips

  /** A fixed-width read at the offset where a fixed-width write put its bytes returns the value written. */
  lemma ReadFixedOfLE(pre: seq<Byte>, v: nat, width: nat, post: seq<Byte>, c: nat)
    requires 1 <= width && v < Pow256(width)
    requires c <= 8 * |pre| < c + 8
    ensures ReadFixed(pre + LE(v, width) + post, c, width) == Ok((v, 8 * (|pre| + width)))
  {
    var data := pre + LE(v, width) + post;
    assert (c + 7) / 8 == |pre|;
    assert data[|pre|..|pre| + width] == LE(v, width);
    LERoundTrip(v, width);
  }

  /** Single-bit reads over a packed run return the run's bits in order. */
  lemma ReadBitOfPack(pre: seq<Byte>, bits: seq<Bit>, post: seq<Byte>, j: nat)
    requires j < |bits|
    ensures ReadBitAt(pre + PackBits(bits) + post, 8 * |pre| + j) == Ok((bits[j], 8 * |pre| + j + 1))
  {
    PackBitsAt(bits, j);
    StreamBitShift(pre, PackBits(bits), post, j);
  }
}
