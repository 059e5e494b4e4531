/**
 * The decompressor: reads the header, rebuilds the code-to-symbol dictionary
 * from the key table, then decodes exactly as many symbols as the header's
 * total, each by reading bits until they spell a code of the dictionary.
 *
 * Each step is specified by a function of the file and the reader's bit
 * cursor (bits consumed so far) that returns the value read and the cursor
 * after it; the methods drive a `Reader` and are proved to agree with them.
 */
module Decompress {
  import opened Bits
  import opened Wrappers
  import opened BinaryFileIO

  /** What `decompress` ends with: the decoded text, the soft failure for a
      missing header, or the reader's error past the header. */
  datatype Outcome = Text(text: string) | NothingToDecompress | Failed(error: ReadError)

  // ---------------------------------------------------------------- specification

  /** `n` single-bit reads from cursor `c`, as the digits '0' and '1'. */
  function ReadBits(file: seq<Byte>, c: nat, n: nat): (r: Result<(string, nat), ReadError>)
    ensures r.Ok? <==> n == 0 || c + n <= 8 * |file|
    ensures r.Ok? ==> r.value.1 == c + n && |r.value.0| == n
    ensures r.Ok? ==> forall j :: 0 <= j < n ==> r.value.0[j] == Digit(StreamBit(file, c + j))
  {
    if n == 0 then Ok(([], c))
    else
      match ReadBits(file, c, n - 1)
      case Err(e) => Err(e)
      case Ok((code, c1)) =>
        match ReadBitAt(file, c1)
        case Err(e) => Err(e)
        case Ok((b, c2)) => Ok((code + [Digit(b)], c2))
  }

  /** The key loop: entries of (symbol byte, 16-bit length, that many bits) are
      read into the dictionary until it holds `amntUniqueChar` codes. */
  function ReadKeyF(file: seq<Byte>, c: nat, amntUniqueChar: nat, keyDict: map<string, char>)
    : (r: Result<(map<string, char>, nat), ReadError>)
    ensures r.Ok? ==> |r.value.0| >= amntUniqueChar && r.value.1 >= c
    ensures r.Ok? && |keyDict| < amntUniqueChar ==> r.value.1 <= 8 * |file|
    decreases 8 * |file| - c
  {
    if |keyDict| >= amntUniqueChar then Ok((keyDict, c))
    else
      match ReadFixed(file, c, 1)
      case Err(e) => Err(e)
      case Ok((symbol, c1)) =>
        match ReadFixed(file, c1, 2)
        case Err(e) => Err(e)
        case Ok((amntBits, c2)) =>
          match ReadBits(file, c2, amntBits)
          case Err(e) => Err(e)
          case Ok((bitCode, c3)) => ReadKeyF(file, c3, amntUniqueChar, keyDict[bitCode := symbol as char])
  }

  /** Bits are appended to `currentBitCode` until it is a code of the dictionary;
      an empty code matches before any bit is read. */
  function ReadSymbolF(file: seq<Byte>, c: nat, keyDict: map<string, char>, currentBitCode: string)
    : (r: Result<(char, nat), ReadError>)
    ensures r.Ok? ==> r.value.0 in keyDict.Values && r.value.1 >= c
    decreases 8 * |file| - c
  {
    if currentBitCode in keyDict then Ok((keyDict[currentBitCode], c))
    else
      match ReadBitAt(file, c)
      case Err(e) => Err(e)
      case Ok((b, c1)) => ReadSymbolF(file, c1, keyDict, currentBitCode + [Digit(b)])
  }

  /** The data loop: symbols are decoded onto `data` until it holds `totalBytes` of them. */
  function ReadDataF(file: seq<Byte>, c: nat, keyDict: map<string, char>, totalBytes: nat, data: string)
    : (r: Result<(string, nat), ReadError>)
    ensures r.Ok? && |data| <= totalBytes ==> |r.value.0| == totalBytes && data <= r.value.0
    ensures r.Ok? ==> forall i :: |data| <= i < |r.value.0| ==> r.value.0[i] in keyDict.Values
    decreases totalBytes - |data|
  {
    if |data| >= totalBytes then Ok((data, c))
    else
      match ReadSymbolF(file, c, keyDict, "")
      case Err(e) => Err(e)
      case Ok((symbol, c1)) => ReadDataF(file, c1, keyDict, totalBytes, data + [symbol])
  }

  /** The whole of `decompress`: a header that cannot be read is the soft failure;
      later read errors surface as they are. */
  function DecodeFile(file: seq<Byte>): Outcome {
    match ReadFixed(file, 0, 4)
    case Err(_) => NothingToDecompress
    case Ok((totalBytes, c1)) =>
      match ReadFixed(file, c1, 2)
      case Err(_) => NothingToDecompress
      case Ok((amntUniqueChar, c2)) =>
        match ReadKeyF(file, c2, amntUniqueChar, map[])
        case Err(e) => Failed(e)
        case Ok((keyDict, c3)) =>
          match ReadDataF(file, c3, keyDict, totalBytes, "")
          case Err(e) => Failed(e)
          case Ok((data, _)) => Text(data)
  }

  /** Only a file shorter than the six header bytes has nothing to decompress. */
  lemma DecodeNothing(file: seq<Byte>)
    ensures DecodeFile(file) == NothingToDecompress <==> |file| < 6
  {
    if 4 <= |file| {
      assert ReadFixed(file, 0, 4).Ok?;
      assert ReadFixed(file, 0, 4).value.1 == 32;
    }
  }

  // ---------------------------------------------------------------- the reader loops

  /** Reads the key table through `reader`. */
  method ReadKey(reader: Reader, amntUniqueChar: nat) returns (r: Result<map<string, char>, ReadError>)
    requires reader.Valid()
    modifies reader
    ensures reader.Valid()
    ensures WithCursor(r, reader.Cursor()) == ReadKeyF(reader.data, old(reader.Cursor()), amntUniqueChar, map[])
  {
    var keyDict: map<string, char> := map[];
    while |keyDict| < amntUniqueChar
      invariant reader.Valid()
      invariant ReadKeyF(reader.data, old(reader.Cursor()), amntUniqueChar, map[])
        == ReadKeyF(reader.data, reader.Cursor(), amntUniqueChar, keyDict)
      decreases 8 * |reader.data| - reader.Cursor()
    {
      var symbol := reader.ReadUByte();
      if symbol.Err? {
        return Err(symbol.error);
      }
      var amntBits := reader.ReadUShort();
      if amntBits.Err? {
        return Err(amntBits.error);
      }
      var bitCode := ReadCode(reader, amntBits.value);
      if bitCode.Err? {
        return Err(bitCode.error);
      }
      keyDict := keyDict[bitCode.value := symbol.value as char];
    }
    r := Ok(keyDict);
  }

  /** Reads `amntBits` bits through `reader` as a code string. */
  method ReadCode(reader: Reader, amntBits: nat) returns (r: Result<string, ReadError>)
    requires reader.Valid()
    modifies reader
    ensures reader.Valid()
    ensures WithCursor(r, reader.Cursor()) == ReadBits(reader.data, old(reader.Cursor()), amntBits)
  {
    var bitCode := "";
    for i := 0 to amntBits
      invariant reader.Valid()
      invariant ReadBits(reader.data, old(reader.Cursor()), i) == Ok((bitCode, reader.Cursor()))
    {
      var bit := reader.ReadBit();
      if bit.Err? {
        ghost var e := ReadBits(reader.data, old(reader.Cursor()), amntBits).error;
        assert e.EndOfFile?;
        return Err(bit.error);
      }
      bitCode := bitCode + [Digit(bit.value)];
    }
    r := Ok(bitCode);
  }

  /** Decodes `totalBytes` symbols through `reader`. */
  method ReadData(reader: Reader, keyDict: map<string, char>, totalBytes: nat) returns (r: Result<string, ReadError>)
    requires reader.Valid()
    modifies reader
    ensures reader.Valid()
    ensures WithCursor(r, reader.Cursor()) == ReadDataF(reader.data, old(reader.Cursor()), keyDict, totalBytes, "")
  {
    var data := "";
    while |data| < totalBytes
      invariant reader.Valid()
      invariant ReadDataF(reader.data, old(reader.Cursor()), keyDict, totalBytes, "")
        == ReadDataF(reader.data, reader.Cursor(), keyDict, totalBytes, data)
      decreases totalBytes - |data|
    {
      var symbol := ReadSymbol(reader, keyDict);
      if symbol.Err? {
        return Err(symbol.error);
      }
      data := data + [symbol.value];
    }
    r := Ok(data);
  }

  /** Reads bits through `reader` until they spell a code of `keyDict`. */
  method ReadSymbol(reader: Reader, keyDict: map<string, char>) returns (r: Result<char, ReadError>)
    requires reader.Valid()
    modifies reader
    ensures reader.Valid()
    ensures WithCursor(r, reader.Cursor()) == ReadSymbolF(reader.data, old(reader.Cursor()), keyDict, "")
  {
    var currentBitCode := "";
    while currentBitCode !in keyDict
      invariant reader.Valid()
      invariant ReadSymbolF(reader.data, old(reader.Cursor()), keyDict, "")
        == ReadSymbolF(reader.data, reader.Cursor(), keyDict, currentBitCode)
      decreases 8 * |reader.data| - reader.Cursor()
    {
      var bit := reader.ReadBit();
      if bit.Err? {
        return Err(bit.error);
      }
      currentBitCode := currentBitCode + [Digit(bit.value)];
    }
    r := Ok(keyDict[currentBitCode]);
  }

  /** `decompress` without the final file write. */
  method Decompress(file: seq<Byte>) returns (r: Outcome)
    ensures r == DecodeFile(file)
  {
    var binaryReader := new Reader(file);
    var totalBytes := binaryReader.ReadUInt();
    if totalBytes.Err? {
      return NothingToDecompress;
    }
    var amntUniqueChar := binaryReader.ReadUShort();
    if amntUniqueChar.Err? {
      return NothingToDecompress;
    }
    var keyDict := ReadKey(binaryReader, amntUniqueChar.value);
    if keyDict.Err? {
      return Failed(keyDict.error);
    }
    var data := ReadData(binaryReader, keyDict.value, totalBytes.value);
    if data.Err? {
      return Failed(data.error);
    }
    r := Text(data.value);
  }
}
