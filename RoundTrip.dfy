/**
 * Decompressing what the compressor writes gives back the text: the header
 * reads back as written, the key-table loop rebuilds the inverse of the
 * symbol-to-code dictionary and stops after the last entry, and the data loop
 * decodes each symbol's code from the payload, the codes being prefix-free.
 */
module RoundTrip {
  import opened Bits
  import opened Wrappers
  import opened BinaryFileIO
  import opened CodeTree
  import opened Compress
  import opened Decompress

  /** The codes of the table's entries, in order. */
  function Codes(entries: seq<Key>): (codes: seq<string>)
    ensures |codes| == |entries|
    ensures forall i :: 0 <= i < |entries| ==> codes[i] == entries[i].code
  {
    seq(|entries|, i requires 0 <= i < |entries| => entries[i].code)
  }

  /** The code-to-symbol dictionary the key loop builds from `entries` on top of `dict`. */
  function DecMap(dict: map<string, char>, entries: seq<Key>): map<string, char>
    decreases |entries|
  {
    if entries == [] then dict
    else DecMap(dict[entries[0].code := entries[0].symbol], entries[1..])
  }

  predicate DistinctCodes(entries: seq<Key>) {
    forall i, j :: 0 <= i < j < |entries| ==> entries[i].code != entries[j].code
  }

  /** The table fields as `createKey` produces them: the length field is the code's length. */
  predicate LengthsMatch(entries: seq<Key>) {
    forall i :: 0 <= i < |entries| ==> entries[i].length == |entries[i].code|
  }

  // ---------------------------------------------------------------- bits

  /** A code packed at a byte boundary reads back, bit by bit, as the same digits. */
  lemma ReadCodeAt(pre: seq<Byte>, code: string, more: seq<Bit>, post: seq<Byte>)
    requires IsCode(code)
    ensures ReadBits(pre + PackBits(ToBits(code) + more) + post, 8 * |pre|, |code|)
      == Ok((code, 8 * |pre| + |code|))
  {
    var file := pre + PackBits(ToBits(code) + more) + post;
    var bits := ToBits(code) + more;
    var c := 8 * |pre|;
    forall j | 0 <= j < |code|
      ensures c + j < 8 * |file| && Digit(StreamBit(file, c + j)) == code[j]
    {
      ReadBitOfPack(pre, bits, post, j);
      assert bits[j] == ToBits(code)[j];
      DigitOfBit(code, j);
    }
    var r := ReadBits(file, c, |code|);
    assert r.Ok?;
    assert r.value.0 == code;
  }

  /** The bytes after a table entry's length field start with its code, packed. */
  lemma EntryFollowedByCode(entries: seq<Key>, run: seq<Bit>, tail: seq<Bit>)
    returns (more: seq<Bit>, post: seq<Byte>)
    requires EntriesFit(entries)
    ensures TableBytes(entries, run) + PackBits(TrailingRun(entries, run) + tail) == PackBits(run + more) + post
  {
    if entries == [] {
      more, post := tail, [];
    } else {
      var entry := entries[0];
      var rest := TableBytes(entries[1..], ToBits(entry.code));
      var packed := PackBits(TrailingRun(entries, run) + tail);
      more := [];
      post := [entry.symbol as int] + LE(entry.length, 2) + rest + packed;
      assert run + more == run;
      assert TableBytes(entries, run) == PackBits(run) + [entry.symbol as int] + LE(entry.length, 2) + rest;
      Regroup(PackBits(run), [entry.symbol as int], LE(entry.length, 2), rest, packed);
    }
  }

  // ---------------------------------------------------------------- the key table

  lemma Regroup<T>(a: seq<T>, b: seq<T>, c: seq<T>, d: seq<T>, e: seq<T>)
    ensures a + b + c + d + e == a + (b + c + d + e)
  {
    Assoc(a, b, c);
    Assoc(a, b + c, d);
    Assoc(a, b + c + d, e);
  }

  lemma RegroupAfter<T>(a: seq<T>, b: seq<T>, c: seq<T>, d: seq<T>, e: seq<T>, f: seq<T>)
    ensures a + (b + c + d + e) + f == (a + b + c + d) + (e + f)
  {
    Assoc(a, b, c);
    Assoc(a, b + c, d);
    Assoc(a, b + c + d, e);
    Assoc(a + b + c + d, e, f);
    Assoc(a, b + c + d + e, f);
  }

  lemma ByteIsLE(b: Byte)
    ensures LE(b, 1) == [b]
  {
  }

  lemma PackedLength(run: seq<Bit>)
    ensures 8 * |PackBits(run)| - 8 < |run| <= 8 * |PackBits(run)|
  {
  }

  /** A fixed-width read at cursor `c` gives `v` and moves the cursor to `c'`. */
  predicate FixedAt(file: seq<Byte>, c: nat, width: nat, v: nat, c': nat) {
    width >= 1 && ReadFixed(file, c, width) == Ok((v, c'))
  }

  /** Reading `n` bits at cursor `c` gives `code` and moves the cursor to `c'`. */
  predicate CodeAt(file: seq<Byte>, c: nat, n: nat, code: string, c': nat) {
    ReadBits(file, c, n) == Ok((code, c'))
  }

  /**
   * From bit cursor `c`, `file` holds the table `entries`, each a symbol byte,
   * a 16-bit length and that many code bits, the last ending at cursor `end`.
   */
  predicate TableAt(file: seq<Byte>, c: nat, entries: seq<Key>, end: nat)
    decreases |entries|
  {
    if entries == [] then c == end
    else
      var entry := entries[0];
      var c1 := 8 * ((c + 7) / 8 + 1);
      && FixedAt(file, c, 1, entry.symbol as int, c1)
      && FixedAt(file, c1, 2, entry.length, c1 + 16)
      && CodeAt(file, c1 + 16, entry.length, entry.code, c1 + 16 + entry.length)
      && TableAt(file, c1 + 16 + entry.length, entries[1..], end)
  }


  /** The key loop reads a table with distinct codes into the dictionary of its
      entries, and stops at its end. */
  lemma {:induction false} ReadTable(
    file: seq<Byte>, c: nat, entries: seq<Key>, end: nat, amntUniqueChar: nat, dict: map<string, char>)
    requires TableAt(file, c, entries, end) && DistinctCodes(entries)
    requires forall i :: 0 <= i < |entries| ==> entries[i].code !in dict
    requires |dict| + |entries| == amntUniqueChar
    ensures ReadKeyF(file, c, amntUniqueChar, dict) == Ok((DecMap(dict, entries), end))
    decreases |entries|
  {
    if entries != [] {
      var c3, dict' := ReadTableStep(file, c, entries, end, amntUniqueChar, dict);
      ReadTable(file, c3, entries[1..], end, amntUniqueChar, dict');
    }
  }

  lemma ReadTableStep(file: seq<Byte>, c: nat, entries: seq<Key>, end: nat, amntUniqueChar: nat, dict: map<string, char>)
    returns (c3: nat, dict': map<string, char>)
    requires TableAt(file, c, entries, end) && DistinctCodes(entries) && entries != []
    requires forall i :: 0 <= i < |entries| ==> entries[i].code !in dict
    requires |dict| + |entries| == amntUniqueChar
    ensures TableAt(file, c3, entries[1..], end) && DistinctCodes(entries[1..])
    ensures forall i :: 0 <= i < |entries[1..]| ==> entries[1..][i].code !in dict'
    ensures |dict'| + |entries[1..]| == amntUniqueChar
    ensures DecMap(dict', entries[1..]) == DecMap(dict, entries)
    ensures ReadKeyF(file, c, amntUniqueChar, dict) == ReadKeyF(file, c3, amntUniqueChar, dict')
  {
    c3 := ReadFirstEntry(file, c, entries, end, amntUniqueChar, dict);
    dict' := dict[entries[0].code := entries[0].symbol];
    LaterEntries(entries, dict);
  }

  lemma ReadFirstEntry(file: seq<Byte>, c: nat, entries: seq<Key>, end: nat, amntUniqueChar: nat, dict: map<string, char>)
    returns (c3: nat)
    requires TableAt(file, c, entries, end) && entries != [] && |dict| < amntUniqueChar
    ensures TableAt(file, c3, entries[1..], end)
    ensures ReadKeyF(file, c, amntUniqueChar, dict)
      == ReadKeyF(file, c3, amntUniqueChar, dict[entries[0].code := entries[0].symbol])
  {
    var entry := entries[0];
    var c1 := 8 * ((c + 7) / 8 + 1);
    var c2 := c1 + 16;
    c3 := c2 + entry.length;
    assert (entry.symbol as int) as char == entry.symbol;
    ReadKeyStep(file, c, amntUniqueChar, dict, entry.symbol as int, c1, entry.length, c2, entry.code, c3);
  }

  lemma LaterEntries(entries: seq<Key>, dict: map<string, char>)
    requires entries != [] && DistinctCodes(entries)
    requires forall i :: 0 <= i < |entries| ==> entries[i].code !in dict
    ensures var later, dict' := entries[1..], dict[entries[0].code := entries[0].symbol];
      && DistinctCodes(later)
      && (forall i :: 0 <= i < |later| ==> later[i].code !in dict')
      && |dict'| == |dict| + 1
      && DecMap(dict', later) == DecMap(dict, entries)
  {
    var later := entries[1..];
    forall i | 0 <= i < |later|
      ensures later[i] == entries[i + 1]
    {
    }
  }


  /** One round of the key loop: a symbol byte, a length and that many bits. */
  lemma ReadKeyStep(file: seq<Byte>, c: nat, amntUniqueChar: nat, dict: map<string, char>,
                    symbol: nat, c1: nat, amntBits: nat, c2: nat, code: string, c3: nat)
    requires |dict| < amntUniqueChar
    requires ReadFixed(file, c, 1) == Ok((symbol, c1))
    requires ReadFixed(file, c1, 2) == Ok((amntBits, c2))
    requires ReadBits(file, c2, amntBits) == Ok((code, c3))
    ensures symbol < UByteLimit
    ensures ReadKeyF(file, c, amntUniqueChar, dict)
      == ReadKeyF(file, c3, amntUniqueChar, dict[code := symbol as char])
  {
    assert symbol < UByteLimit;
  }

  /** An entry whose code is already in the dictionary replaces its symbol without
      growing the dictionary, so the key loop goes on to read one more entry. */
  lemma DuplicateCodeReadsOn(file: seq<Byte>, c: nat, amntUniqueChar: nat, dict: map<string, char>,
                             symbol: nat, c1: nat, amntBits: nat, c2: nat, code: string, c3: nat)
    requires |dict| < amntUniqueChar && code in dict
    requires ReadFixed(file, c, 1) == Ok((symbol, c1))
    requires ReadFixed(file, c1, 2) == Ok((amntBits, c2))
    requires ReadBits(file, c2, amntBits) == Ok((code, c3))
    ensures symbol < UByteLimit && |dict[code := symbol as char]| == |dict| < amntUniqueChar
    ensures ReadKeyF(file, c, amntUniqueChar, dict)
      == ReadKeyF(file, c3, amntUniqueChar, dict[code := symbol as char])
  {
    ReadKeyStep(file, c, amntUniqueChar, dict, symbol, c1, amntBits, c2, code, c3);
    assert dict[code := symbol as char].Keys == dict.Keys;
  }

  /** An entry of the table splits into its pending bits' bytes, its symbol byte,
      its length and the rest of the table. */
  lemma EntrySplit(pre: seq<Byte>, entries: seq<Key>, run: seq<Bit>, tail: seq<Bit>)
    returns (pre1: seq<Byte>, rest: seq<Byte>)
    requires entries != [] && EntriesFit(entries)
    ensures var entry, later, next := entries[0], entries[1..], ToBits(entries[0].code);
      && pre1 == pre + PackBits(run)
      && rest == TableBytes(later, next) + PackBits(TrailingRun(later, next) + tail)
      && pre + TableBytes(entries, run) + PackBits(TrailingRun(entries, run) + tail)
         == pre1 + [entry.symbol as int] + LE(entry.length, 2) + rest
      && TrailingRun(later, next) == TrailingRun(entries, run)
      && |TableBytes(entries, run)| == |PackBits(run)| + 3 + |TableBytes(later, next)|
  {
    var entry, later, next := entries[0], entries[1..], ToBits(entries[0].code);
    pre1 := pre + PackBits(run);
    rest := TableBytes(later, next) + PackBits(TrailingRun(later, next) + tail);
    assert TableBytes(entries, run) == PackBits(run) + [entry.symbol as int] + LE(entry.length, 2) + TableBytes(later, next);
    RegroupAfter(pre, PackBits(run), [entry.symbol as int], LE(entry.length, 2), TableBytes(later, next),
      PackBits(TrailingRun(later, next) + tail));
  }

  /** The symbol byte and the 16-bit length of an entry read back as written. */
  lemma ReadEntryHeader(file: seq<Byte>, pre1: seq<Byte>, symbol: Byte, length: nat, rest: seq<Byte>, c: nat, c1: nat, c2: nat)
    requires length < UShortLimit && c <= 8 * |pre1| < c + 8 && c1 == 8 * ((c + 7) / 8 + 1) && c2 == c1 + 16
    requires file == pre1 + [symbol] + LE(length, 2) + rest
    ensures c1 == 8 * |pre1| + 8
    ensures FixedAt(file, c, 1, symbol, c1)
    ensures FixedAt(file, c1, 2, length, c2)
  {
    assert (c + 7) / 8 == |pre1|;
    ByteIsLE(symbol);
    Assoc(pre1 + [symbol], LE(length, 2), rest);
    ReadFixedOfLE(pre1, symbol, 1, LE(length, 2) + rest, c);
    ReadFixedOfLE(pre1 + [symbol], length, 2, rest, 8 * |pre1| + 8);
  }

  /** The code bits after an entry's length field read back as the code. */
  lemma ReadEntryCode(file: seq<Byte>, pre3: seq<Byte>, later: seq<Key>, code: string, tail: seq<Bit>,
                      c2: nat, length: nat, c3: nat)
    requires IsCode(code) && EntriesFit(later) && c2 == 8 * |pre3| && length == |code| && c3 == c2 + length
    requires file == pre3 + TableBytes(later, ToBits(code)) + PackBits(TrailingRun(later, ToBits(code)) + tail)
    ensures CodeAt(file, c2, length, code, c3)
  {
    var more, post := EntryFollowedByCode(later, ToBits(code), tail);
    Assoc(pre3, TableBytes(later, ToBits(code)), PackBits(TrailingRun(later, ToBits(code)) + tail));
    Assoc(pre3, PackBits(ToBits(code) + more), post);
    ReadCodeAt(pre3, code, more, post);
  }

  /** The first entry of a laid-out table reads back, and the rest of the table
      is laid out the same way after it. */
  lemma FirstEntryLaidOut(file: seq<Byte>, pre: seq<Byte>, entries: seq<Key>, run: seq<Bit>, tail: seq<Bit>, c: nat, end: nat)
    returns (pre3: seq<Byte>, later: seq<Key>, next: seq<Bit>, c1: nat, c2: nat, c3: nat)
    requires entries != [] && EntriesFit(entries) && LengthsMatch(entries)
    requires file == pre + TableBytes(entries, run) + PackBits(TrailingRun(entries, run) + tail)
    requires c == 8 * |pre| + |run| && end == 8 * (|pre| + |TableBytes(entries, run)|) + |TrailingRun(entries, run)|
    ensures later == entries[1..] && next == ToBits(entries[0].code)
    ensures c1 == 8 * ((c + 7) / 8 + 1) && c2 == c1 + 16 && c3 == c2 + entries[0].length
    ensures FixedAt(file, c, 1, entries[0].symbol as int, c1)
    ensures FixedAt(file, c1, 2, entries[0].length, c2)
    ensures CodeAt(file, c2, entries[0].length, entries[0].code, c3)
    ensures EntriesFit(later) && LengthsMatch(later)
    ensures file == pre3 + TableBytes(later, next) + PackBits(TrailingRun(later, next) + tail)
    ensures c3 == 8 * |pre3| + |next|
    ensures end == 8 * (|pre3| + |TableBytes(later, next)|) + |TrailingRun(later, next)|
  {
    later, next := entries[1..], ToBits(entries[0].code);
    var pre1, rest := EntrySplit(pre, entries, run, tail);
    PackedLength(run);
    c1 := 8 * ((c + 7) / 8 + 1);
    c2 := c1 + 16;
    c3 := c2 + entries[0].length;
    ReadEntryHeader(file, pre1, entries[0].symbol as int, entries[0].length, rest, c, c1, c2);
    pre3 := pre1 + [entries[0].symbol as int] + LE(entries[0].length, 2);
    Assoc(pre3, TableBytes(later, next), PackBits(TrailingRun(later, next) + tail));
    ReadEntryCode(file, pre3, later, entries[0].code, tail, c2, entries[0].length, c3);
    forall i | 0 <= i < |later|
      ensures later[i] == entries[i + 1]
    {
    }
  }

  /** A table whose first entry reads back, followed by a readable rest, is readable. */
  lemma TableAtCons(file: seq<Byte>, c: nat, entries: seq<Key>, later: seq<Key>, c1: nat, c2: nat, c3: nat, end: nat)
    requires entries != [] && later == entries[1..] && c1 == 8 * ((c + 7) / 8 + 1) && c2 == c1 + 16
    requires FixedAt(file, c, 1, entries[0].symbol as int, c1)
    requires FixedAt(file, c1, 2, entries[0].length, c2)
    requires CodeAt(file, c2, entries[0].length, entries[0].code, c3)
    requires TableAt(file, c3, later, end)
    ensures TableAt(file, c, entries, end)
  {
  }

  /** The compressor's table layout is a table the key loop can read. */
  lemma {:induction false} TableLayout(file: seq<Byte>, pre: seq<Byte>, entries: seq<Key>, run: seq<Bit>, tail: seq<Bit>, c: nat, end: nat)
    requires EntriesFit(entries) && LengthsMatch(entries)
    requires file == pre + TableBytes(entries, run) + PackBits(TrailingRun(entries, run) + tail)
    requires c == 8 * |pre| + |run| && end == 8 * (|pre| + |TableBytes(entries, run)|) + |TrailingRun(entries, run)|
    ensures TableAt(file, c, entries, end)
    decreases |entries|
  {
    if entries == [] {
      assert TableBytes(entries, run) == [] && TrailingRun(entries, run) == run;
    } else {
      var pre3, later, next, c1, c2, c3 := FirstEntryLaidOut(file, pre, entries, run, tail, c, end);
      TableLayout(file, pre3, later, next, tail, c3, end);
      TableAtCons(file, c, entries, later, c1, c2, c3, end);
    }
  }

  // ---------------------------------------------------------------- the payload

  /** From bit cursor `c`, the stream of `file` holds `bits`. */
  predicate BitsAt(file: seq<Byte>, c: nat, bits: seq<Bit>) {
    c + |bits| <= 8 * |file| && forall j :: 0 <= j < |bits| ==> StreamBit(file, c + j) == bits[j]
  }

  lemma BitsAtSplit(file: seq<Byte>, c: nat, a: seq<Bit>, b: seq<Bit>)
    requires BitsAt(file, c, a + b)
    ensures BitsAt(file, c, a) && BitsAt(file, c + |a|, b)
  {
    forall j | 0 <= j < |a|
      ensures StreamBit(file, c + j) == a[j]
    {
      assert (a + b)[j] == a[j];
    }
    forall j | 0 <= j < |b|
      ensures StreamBit(file, c + |a| + j) == b[j]
    {
      assert (a + b)[|a| + j] == b[j];
    }
  }

  /** Bits packed after whole bytes `pre`, behind a run `run`, sit at cursor `8 * |pre| + |run|`. */
  lemma PayloadAt(file: seq<Byte>, pre: seq<Byte>, run: seq<Bit>, payload: seq<Bit>, c: nat)
    requires file == pre + PackBits(run + payload) && c == 8 * |pre| + |run|
    ensures BitsAt(file, c, payload)
  {
    var bits := run + payload;
    var packed := PackBits(bits);
    assert file == pre + packed + [];
    PackedLength(bits);
    forall j | 0 <= j < |payload|
      ensures c + j < 8 * |file| && StreamBit(file, c + j) == payload[j]
    {
      var k := |run| + j;
      PackBitsAt(bits, k);
      StreamBitShift(pre, packed, [], k);
      assert c + j == 8 * |pre| + k;
      assert bits[k] == payload[j];
    }
  }

  /** `w` is a key of `dict`, and none of its proper prefixes is. */
  predicate FirstMatch(dict: map<string, char>, w: string) {
    w in dict && forall k :: 0 <= k < |w| ==> w[..k] !in dict
  }

  /** Reading a symbol whose code's bits are at cursor `c`: the bits gathered so
      far never match before the whole code is read, then the code does. */
  lemma {:induction false} ReadSymbolFrom(file: seq<Byte>, c: nat, dict: map<string, char>, w: string, k: nat)
    requires IsCode(w) && BitsAt(file, c, ToBits(w)) && FirstMatch(dict, w) && k <= |w|
    ensures ReadSymbolF(file, c + k, dict, w[..k]) == Ok((dict[w], c + |w|))
    decreases |w| - k
  {
    if k < |w| {
      assert w[..k] !in dict;
      assert StreamBit(file, c + k) == ToBits(w)[k];
      DigitOfBit(w, k);
      assert w[..k] + [w[k]] == w[..k + 1];
      ReadSymbolFrom(file, c, dict, w, k + 1);
    } else {
      assert w[..k] == w;
    }
  }

  /** Each symbol's code is a code of the decoding dictionary, the first one its bits
      spell, and it decodes back to the symbol. */
  predicate Decodes(dec: map<string, char>, enc: map<char, string>) {
    forall x :: x in enc ==> IsCode(enc[x]) && FirstMatch(dec, enc[x]) && dec[enc[x]] == x
  }

  /** The payload bits of `a + b` are those of `a` followed by those of `b`. */
  lemma {:induction false} PayloadBitsAppend(a: string, b: string, enc: map<char, string>)
    requires forall x <- a :: x in enc
    requires forall x <- b :: x in enc
    ensures PayloadBits(a + b, enc) == PayloadBits(a, enc) + PayloadBits(b, enc)
    decreases |b|
  {
    if b == [] {
      assert a + b == a;
    } else {
      var init, last, ab := b[..|b| - 1], b[|b| - 1], a + b;
      assert ab[..|ab| - 1] == a + init && ab[|ab| - 1] == last;
      assert forall x <- init :: x in b;
      var code := ToBits(enc[last]);
      assert PayloadBits(ab, enc) == PayloadBits(a + init, enc) + code;
      assert PayloadBits(b, enc) == PayloadBits(init, enc) + code;
      PayloadBitsAppend(a, init, enc);
      Assoc(PayloadBits(a, enc), PayloadBits(init, enc), code);
    }
  }

  /** The data loop decodes the payload of `rest` onto `data`, symbol by symbol. */
  lemma {:induction false} ReadPayload(file: seq<Byte>, c: nat, dec: map<string, char>, enc: map<char, string>,
                                        totalBytes: nat, data: string, rest: string)
    requires Decodes(dec, enc) && (forall x <- rest :: x in enc)
    requires |data| + |rest| == totalBytes
    requires BitsAt(file, c, PayloadBits(rest, enc))
    ensures ReadDataF(file, c, dec, totalBytes, data) == Ok((data + rest, c + |PayloadBits(rest, enc)|))
    decreases |rest|
  {
    if rest == [] {
      assert data + rest == data;
    } else {
      var x, later, c1 := PayloadSymbol(file, c, dec, enc, rest);
      DataStep(file, c, dec, totalBytes, data, x, c1);
      ReadPayload(file, c1, dec, enc, totalBytes, data + [x], later);
      assert data + [x] + later == data + rest;
    }
  }

  /** The first symbol of `rest` decodes from the front of its payload bits. */
  lemma PayloadSymbol(file: seq<Byte>, c: nat, dec: map<string, char>, enc: map<char, string>, rest: string)
    returns (x: char, later: string, c1: nat)
    requires Decodes(dec, enc) && (forall y <- rest :: y in enc) && rest != []
    requires BitsAt(file, c, PayloadBits(rest, enc))
    ensures x == rest[0] && later == rest[1..] && (forall y <- later :: y in enc)
    ensures ReadSymbolF(file, c, dec, "") == Ok((x, c1))
    ensures BitsAt(file, c1, PayloadBits(later, enc))
    ensures c1 + |PayloadBits(later, enc)| == c + |PayloadBits(rest, enc)|
  {
    x, later := rest[0], rest[1..];
    var w := enc[x];
    var bits, laterBits := ToBits(w), PayloadBits(later, enc);
    c1 := c + |w|;
    PayloadCons(rest, enc);
    BitsAtSplit(file, c, bits, laterBits);
    ReadCode(file, c, dec, w, c1);
  }

  /** The payload bits of a text are its first symbol's code followed by the rest's. */
  lemma PayloadCons(rest: string, enc: map<char, string>)
    requires rest != [] && forall y <- rest :: y in enc
    ensures forall y <- rest[1..] :: y in enc
    ensures PayloadBits(rest, enc) == ToBits(enc[rest[0]]) + PayloadBits(rest[1..], enc)
  {
    var x, later := rest[0], rest[1..];
    assert rest == [x] + later;
    assert forall y <- later :: y in rest;
    PayloadBitsAppend([x], later, enc);
    assert PayloadBits([x], enc) == ToBits(enc[x]) by {
      assert [x][..0] == [];
    }
  }

  /** A whole code at cursor `c` reads as its symbol and moves the cursor past it. */
  lemma ReadCode(file: seq<Byte>, c: nat, dict: map<string, char>, w: string, c1: nat)
    requires IsCode(w) && BitsAt(file, c, ToBits(w)) && FirstMatch(dict, w) && c1 == c + |w|
    ensures ReadSymbolF(file, c, dict, "") == Ok((dict[w], c1))
  {
    ReadSymbolFrom(file, c, dict, w, 0);
    assert w[..0] == "";
  }

  /** One round of the data loop. */
  lemma DataStep(file: seq<Byte>, c: nat, dec: map<string, char>, totalBytes: nat, data: string, x: char, c1: nat)
    requires |data| < totalBytes && ReadSymbolF(file, c, dec, "") == Ok((x, c1))
    ensures ReadDataF(file, c, dec, totalBytes, data) == ReadDataF(file, c1, dec, totalBytes, data + [x])
  {
  }

  // ---------------------------------------------------------------- the two dictionaries

  /** The dictionary the key loop builds holds exactly the table's codes on top of
      `dict`, each mapped to its entry's symbol; codes not in the table keep their value. */
  lemma {:induction false} DecMapLookup(dict: map<string, char>, entries: seq<Key>)
    requires DistinctCodes(entries)
    ensures forall w :: w in DecMap(dict, entries) <==> w in dict || w in Codes(entries)
    ensures forall i :: 0 <= i < |entries| ==>
      var w := entries[i].code; w in DecMap(dict, entries) && DecMap(dict, entries)[w] == entries[i].symbol
    ensures forall w :: w in dict && w !in Codes(entries) ==> DecMap(dict, entries)[w] == dict[w]
    decreases |entries|
  {
    if entries != [] {
      var first, later := entries[0], entries[1..];
      var dict' := dict[first.code := first.symbol];
      var result := DecMap(dict, entries);
      assert result == DecMap(dict', later);
      assert DistinctCodes(later) by {
        forall i, j | 0 <= i < j < |later|
          ensures later[i].code != later[j].code
        {
          assert later[i] == entries[i + 1] && later[j] == entries[j + 1];
        }
      }
      DecMapLookup(dict', later);
      assert Codes(entries) == [first.code] + Codes(later);
      assert first.code !in Codes(later) by {
        forall i | 0 <= i < |later|
          ensures later[i].code != first.code
        {
          assert later[i] == entries[i + 1];
        }
      }
      forall i | 0 <= i < |entries|
        ensures result[entries[i].code] == entries[i].symbol
      {
        if i > 0 {
          assert entries[i] == later[i - 1];
        }
      }
    }
  }

  /** Prefix-free codes are pairwise distinct. */
  lemma PrefixFreeDistinct(entries: seq<Key>)
    requires PrefixFree(entries)
    ensures DistinctCodes(entries)
  {
    forall i, j | 0 <= i < j < |entries|
      ensures entries[i].code != entries[j].code
    {
      assert !(entries[i].code <= entries[j].code);
    }
  }

  /** Every symbol in the encoding dictionary is mapped to the code of one of its entries. */
  lemma {:induction false} EncMapEntry(entries: seq<Key>, x: char) returns (i: nat)
    requires x in EncMap(entries)
    ensures i < |entries| && entries[i].symbol == x && entries[i].code == EncMap(entries)[x]
    decreases |entries|
  {
    var n := |entries|;
    var init, last := entries[..n - 1], entries[n - 1];
    if last.symbol == x {
      i := n - 1;
    } else {
      assert x in EncMap(init);
      i := EncMapEntry(init, x);
      assert init[i] == entries[i];
    }
  }

  /** With prefix-free codes, the key loop's dictionary decodes every code the
      compressor's dictionary writes, and no shorter run of its bits matches first. */
  lemma CodesDecode(entries: seq<Key>)
    requires EntriesFit(entries) && PrefixFree(entries)
    ensures Decodes(DecMap(map[], entries), EncMap(entries))
  {
    var dec, enc := DecMap(map[], entries), EncMap(entries);
    forall x | x in enc
      ensures IsCode(enc[x]) && FirstMatch(dec, enc[x]) && dec[enc[x]] == x
    {
      var i := EncMapEntry(entries, x);
      EntryDecodes(entries, dec, i);
    }
  }

  /** An entry's code is the first match of the key loop's dictionary and decodes to its symbol. */
  lemma EntryDecodes(entries: seq<Key>, dec: map<string, char>, i: nat)
    requires EntriesFit(entries) && PrefixFree(entries) && dec == DecMap(map[], entries) && i < |entries|
    ensures var w := entries[i].code; IsCode(w) && FirstMatch(dec, w) && dec[w] == entries[i].symbol
  {
    var w := entries[i].code;
    PrefixFreeDistinct(entries);
    DecMapLookup(map[], entries);
    forall k | 0 <= k < |w|
      ensures w[..k] !in dec
    {
      NoCodeIsShorterPrefix(entries, i, k);
    }
  }

  /** No proper prefix of an entry's code is a code of a prefix-free table. */
  lemma NoCodeIsShorterPrefix(entries: seq<Key>, i: nat, k: nat)
    requires PrefixFree(entries) && i < |entries| && k < |entries[i].code|
    ensures entries[i].code[..k] !in Codes(entries)
  {
    var w := entries[i].code;
    if w[..k] in Codes(entries) {
      assert false;
    }
  }

  // ---------------------------------------------------------------- the whole file

  /** The 32-bit total and the 16-bit count read back from the first six bytes. */
  lemma HeaderAt(file: seq<Byte>, total: nat, count: nat, rest: seq<Byte>)
    requires total < UIntLimit && count < UShortLimit
    requires file == LE(total, 4) + LE(count, 2) + rest
    ensures FixedAt(file, 0, 4, total, 32) && FixedAt(file, 32, 2, count, 48)
  {
    assert Pow256(4) == UIntLimit && Pow256(2) == UShortLimit by {
      assert Pow256(1) == 256;
    }
    assert file == [] + LE(total, 4) + (LE(count, 2) + rest);
    ReadFixedOfLE([], total, 4, LE(count, 2) + rest, 0);
    ReadFixedOfLE(LE(total, 4), count, 2, rest, 32);
  }

  /** `decompress` succeeds with the text its data loop decodes once the header and the
      key table have been read. */
  lemma DecodeSteps(file: seq<Byte>, total: nat, count: nat, dec: map<string, char>, c3: nat, text: string, c4: nat)
    requires FixedAt(file, 0, 4, total, 32) && FixedAt(file, 32, 2, count, 48)
    requires ReadKeyF(file, 48, count, map[]) == Ok((dec, c3))
    requires ReadDataF(file, c3, dec, total, "") == Ok((text, c4))
    ensures DecodeFile(file) == Text(text)
  {
  }

  /**
   * Decompressing what `compress` writes gives back the text, for a key table whose
   * header counts the text and the entries, whose length fields are the code lengths
   * and whose codes are prefix-free, as `createKey` builds it.
   */
  lemma DecodeContainer(key: KeyTable, data: string)
    requires Writable(key, data) && key.total == |data| && key.count == |key.entries|
    requires LengthsMatch(key.entries) && PrefixFree(key.entries)
    ensures DecodeFile(Container(key, data)) == Text(data)
  {
    var file := Container(key, data);
    ContainerLayout(key, data);
    DecodeLaidOut(file, key, data);
  }

  /** The round trip over the container's front-to-back layout. */
  lemma DecodeLaidOut(file: seq<Byte>, key: KeyTable, data: string)
    requires Writable(key, data) && key.total == |data| && key.count == |key.entries|
    requires LengthsMatch(key.entries) && PrefixFree(key.entries)
    requires file == LE(key.total, 4) + LE(key.count, 2) + TableBytes(key.entries, [])
      + PackBits(TrailingRun(key.entries, []) + PayloadBits(data, EncMap(key.entries)))
    ensures DecodeFile(file) == Text(data)
  {
    var entries, enc := key.entries, EncMap(key.entries);
    var header := LE(key.total, 4) + LE(key.count, 2);
    var table, run := TableBytes(entries, []), TrailingRun(entries, []);
    var payload := PayloadBits(data, enc);
    var end := 8 * (|header| + |table|) + |run|;
    var dec := DecMap(map[], entries);
    var c4 := end + |payload|;
    HeaderPart(file, key.total, key.count, header, table, run, payload);
    TablePart(file, header, entries, run, payload, end, key.count);
    PayloadPart(file, header, table, run, entries, enc, dec, data, payload, end, c4, key.total);
    DecodeSteps(file, key.total, key.count, dec, end, data, c4);
  }

  lemma HeaderPart(file: seq<Byte>, total: nat, count: nat, header: seq<Byte>, table: seq<Byte>, run: seq<Bit>, payload: seq<Bit>)
    requires total < UIntLimit && count < UShortLimit && header == LE(total, 4) + LE(count, 2)
    requires file == header + table + PackBits(run + payload)
    ensures FixedAt(file, 0, 4, total, 32) && FixedAt(file, 32, 2, count, 48)
  {
    var packed := PackBits(run + payload);
    Assoc(LE(total, 4) + LE(count, 2), table, packed);
    HeaderAt(file, total, count, table + packed);
  }

  lemma TablePart(file: seq<Byte>, header: seq<Byte>, entries: seq<Key>, run: seq<Bit>, payload: seq<Bit>, end: nat, count: nat)
    requires EntriesFit(entries) && LengthsMatch(entries) && PrefixFree(entries)
    requires |header| == 6 && count == |entries| && run == TrailingRun(entries, [])
    requires file == header + TableBytes(entries, []) + PackBits(run + payload)
    requires end == 8 * (|header| + |TableBytes(entries, [])|) + |run|
    ensures ReadKeyF(file, 48, count, map[]) == Ok((DecMap(map[], entries), end))
  {
    TableLayout(file, header, entries, [], payload, 48, end);
    PrefixFreeDistinct(entries);
    ReadTable(file, 48, entries, end, count, map[]);
  }

  lemma PayloadPart(file: seq<Byte>, header: seq<Byte>, table: seq<Byte>, run: seq<Bit>, entries: seq<Key>,
                    enc: map<char, string>, dec: map<string, char>, data: string, payload: seq<Bit>,
                    end: nat, c4: nat, total: nat)
    requires EntriesFit(entries) && PrefixFree(entries) && enc == EncMap(entries) && dec == DecMap(map[], entries)
    requires (forall x <- data :: x in enc) && payload == PayloadBits(data, enc) && total == |data|
    requires file == header + table + PackBits(run + payload)
    requires end == 8 * (|header| + |table|) + |run| && c4 == end + |payload|
    ensures ReadDataF(file, end, dec, total, "") == Ok((data, c4))
  {
    var pre := header + table;
    Assoc(header, table, PackBits(run + payload));
    PayloadAt(file, pre, run, payload, end);
    CodesDecode(entries);
    ReadWholePayload(file, end, dec, enc, data, c4);
  }

  /** The data loop, started on an empty text, decodes the whole payload. */
  lemma ReadWholePayload(file: seq<Byte>, c: nat, dec: map<string, char>, enc: map<char, string>, text: string, c': nat)
    requires Decodes(dec, enc) && (forall x <- text :: x in enc)
    requires BitsAt(file, c, PayloadBits(text, enc)) && c' == c + |PayloadBits(text, enc)|
    ensures ReadDataF(file, c, dec, |text|, "") == Ok((text, c'))
  {
    ReadPayload(file, c, dec, enc, |text|, "", text);
    assert "" + text == text;
  }
}
