/**
 * The compressor: symbol counts, the priority queue sorted by count, and the
 * container `compress` writes through the bit writer: a 4-byte total, a
 * 2-byte key count, one (byte, 2-byte length, code bits) entry per key, each
 * padded to a byte boundary by the next fixed-width write, then the codes of
 * the text packed on from the last code's partial byte.
 */
module Compress {
  import opened Bits
  import opened CodeTree
  import opened BinaryFileIO

  // ---------------------------------------------------------------- frequencies

  predicate Distinct(s: seq<char>) {
    forall i, j :: 0 <= i < j < |s| ==> s[i] != s[j]
  }

  /** The distinct symbols of `data` in order of first occurrence: the
      iteration order of the frequency dictionary. */
  function FirstOccurrences(data: string): (order: seq<char>)
    ensures Distinct(order)
    ensures forall c :: c in order <==> c in data
  {
    if data == [] then []
    else
      var init, last := data[..|data| - 1], data[|data| - 1];
      assert data == init + [last];
      var prev := FirstOccurrences(init);
      if last in prev then prev else prev + [last]
  }

  /** Counts the occurrences of each symbol; `order` is the dictionary's key order. */
  method ReadFrequencies(data: string) returns (frequencies: map<char, nat>, order: seq<char>)
    ensures forall c :: c in frequencies <==> c in data
    ensures forall c :: c in frequencies ==> frequencies[c] == multiset(data)[c] >= 1
    ensures order == FirstOccurrences(data)
  {
    frequencies, order := map[], [];
    for i := 0 to |data|
      invariant forall c :: c in frequencies <==> c in data[..i]
      invariant forall c :: c in frequencies ==> frequencies[c] == multiset(data[..i])[c]
      invariant order == FirstOccurrences(data[..i])
    {
      var symbol := data[i];
      PrefixStep(data, i);
      if symbol in frequencies {
        frequencies := frequencies[symbol := frequencies[symbol] + 1];
      } else {
        frequencies := frequencies[symbol := 1];
        order := order + [symbol];
      }
    }
    assert data[..|data|] == data;
  }

  /** One more symbol of the text: its first-occurrence order and its counts. */
  lemma PrefixStep(data: string, i: nat)
    requires i < |data|
    ensures var prev := FirstOccurrences(data[..i]);
      FirstOccurrences(data[..i + 1]) == if data[i] in prev then prev else prev + [data[i]]
    ensures multiset(data[..i + 1]) == multiset(data[..i]) + multiset{data[i]}
    ensures forall c :: c in data[..i + 1] <==> c in data[..i] || c == data[i]
  {
    assert data[..i + 1] == data[..i] + [data[i]];
    assert data[..i + 1][..i] == data[..i];
  }

  /** The entries of the frequency dictionary, in its key order. */
  function Items(frequencies: map<char, nat>, order: seq<char>): (items: seq<Entry>)
    requires forall c <- order :: c in frequencies
    ensures |items| == |order|
    ensures forall i :: 0 <= i < |order| ==> items[i] == (order[i], frequencies[order[i]])
  {
    seq(|order|, i requires 0 <= i < |order| => (order[i], frequencies[order[i]]))
  }

  /** The counts of the symbols in `order`, taken from `counts`, added up. */
  function CountSum(order: seq<char>, counts: multiset<char>): nat {
    if order == [] then 0 else CountSum(order[..|order| - 1], counts) + counts[order[|order| - 1]]
  }

  lemma {:induction false} CountSumAdd(order: seq<char>, counts: multiset<char>, x: char)
    requires Distinct(order)
    ensures CountSum(order, counts + multiset{x}) == CountSum(order, counts) + if x in order then 1 else 0
  {
    if order != [] {
      var init := order[..|order| - 1];
      assert Distinct(init);
      CountSumAdd(init, counts, x);
      assert order == init + [order[|order| - 1]];
    }
  }

  lemma {:induction false} CountSumCovers(order: seq<char>, s: string)
    requires Distinct(order) && forall c <- s :: c in order
    ensures CountSum(order, multiset(s)) == |s|
  {
    if s == [] {
      CountSumEmpty(order);
    } else {
      var init := s[..|s| - 1];
      assert s == init + [s[|s| - 1]];
      CountSumCovers(order, init);
      CountSumAdd(order, multiset(init), s[|s| - 1]);
    }
  }

  lemma {:induction false} CountSumEmpty(order: seq<char>)
    ensures CountSum(order, multiset{}) == 0
  {
    if order != [] {
      CountSumEmpty(order[..|order| - 1]);
    }
  }

  lemma {:induction false} ItemsSum(frequencies: map<char, nat>, order: seq<char>, counts: multiset<char>)
    requires forall c <- order :: c in frequencies && frequencies[c] == counts[c]
    ensures SumWeights(Items(frequencies, order)) == CountSum(order, counts)
  {
    if order != [] {
      var init := order[..|order| - 1];
      ItemsSum(frequencies, init, counts);
      assert Items(frequencies, order)[..|order| - 1] == Items(frequencies, init);
    }
  }

  /** The counts of the frequency dictionary add up to the length of the text. */
  lemma CountsSumToLength(data: string, frequencies: map<char, nat>)
    requires forall c :: c in frequencies <==> c in data
    requires forall c :: c in frequencies ==> frequencies[c] == multiset(data)[c]
    ensures SumWeights(Items(frequencies, FirstOccurrences(data))) == |data|
  {
    var order := FirstOccurrences(data);
    ItemsSum(frequencies, order, multiset(data));
    CountSumCovers(order, data);
  }

  // ---------------------------------------------------------------- priority queue

  predicate SortedByWeight(s: seq<Entry>) {
    forall i, j :: 0 <= i < j < |s| ==> s[i].1 <= s[j].1
  }

  /** The entries of weight `w`, in their order in `s`. */
  function WithWeight(s: seq<Entry>, w: nat): seq<Entry> {
    if s == [] then [] else Matching(s[0], w) + WithWeight(s[1..], w)
  }

  /** `e` alone if it has weight `w`, nothing otherwise. */
  function Matching(e: Entry, w: nat): seq<Entry> {
    if e.1 == w then [e] else []
  }

  lemma {:induction false} SumWeightsCons(e: Entry, s: seq<Entry>)
    ensures SumWeights([e] + s) == e.1 + SumWeights(s)
    decreases |s|
  {
    if s != [] {
      var init := s[..|s| - 1];
      SumWeightsCons(e, init);
      assert ([e] + s)[..|s|] == [e] + init;
    }
  }

  /** Places `e` after every entry no heavier than it: one step of a stable sort. */
  function InsertByWeight(s: seq<Entry>, e: Entry): (r: seq<Entry>)
    ensures SumWeights(r) == SumWeights(s) + e.1
    ensures |r| == |s| + 1 && (r[0] == e || (s != [] && r[0] == s[0]))
  {
    if s == [] then
      assert SumWeights([e]) == SumWeights([]) + e.1 by {
        assert [e][..0] == [];
      }
      [e]
    else if e.1 < s[0].1 then
      SumWeightsCons(e, s);
      [e] + s
    else
      var rest := InsertByWeight(s[1..], e);
      SumWeightsCons(s[0], rest);
      SumWeightsCons(s[0], s[1..]);
      assert [s[0]] + s[1..] == s;
      [s[0]] + rest
  }

  lemma {:induction false} InsertPermutes(s: seq<Entry>, e: Entry)
    ensures multiset(InsertByWeight(s, e)) == multiset(s) + multiset{e}
  {
    if s != [] && e.1 >= s[0].1 {
      InsertPermutes(s[1..], e);
      assert [s[0]] + s[1..] == s;
    }
  }

  lemma {:induction false} InsertSorted(s: seq<Entry>, e: Entry)
    requires SortedByWeight(s)
    ensures SortedByWeight(InsertByWeight(s, e))
  {
    if s != [] && e.1 >= s[0].1 {
      var rest := InsertByWeight(s[1..], e);
      InsertSorted(s[1..], e);
      var r := [s[0]] + rest;
      assert rest[0] == e || rest[0] == s[1];
      forall i, j | 0 <= i < j < |r|
        ensures r[i].1 <= r[j].1
      {
        if i > 0 {
          assert r[i] == rest[i - 1] && r[j] == rest[j - 1];
        } else if j > 1 {
          assert r[j] == rest[j - 1];
          assert rest[0].1 <= rest[j - 1].1;
        }
      }
    }
  }

  lemma {:induction false} WithWeightAbove(s: seq<Entry>, w: nat)
    requires SortedByWeight(s) && s != [] && w < s[0].1
    ensures WithWeight(s, w) == []
  {
    if |s| > 1 {
      WithWeightAbove(s[1..], w);
    }
  }

  lemma SortedTail(s: seq<Entry>)
    requires SortedByWeight(s) && s != []
    ensures SortedByWeight(s[1..])
  {
    forall i, j | 0 <= i < j < |s| - 1
      ensures s[1..][i].1 <= s[1..][j].1
    {
      assert s[1..][i] == s[i + 1] && s[1..][j] == s[j + 1];
    }
  }

  lemma WithWeightCons(x: Entry, s: seq<Entry>, w: nat)
    ensures WithWeight([x] + s, w) == Matching(x, w) + WithWeight(s, w)
  {
    assert ([x] + s)[0] == x && ([x] + s)[1..] == s;
  }

  /** Among entries of equal weight, the inserted one comes last. */
  lemma {:induction false} InsertStable(s: seq<Entry>, e: Entry, w: nat)
    requires SortedByWeight(s)
    ensures WithWeight(InsertByWeight(s, e), w) == WithWeight(s, w) + Matching(e, w)
  {
    if s == [] {
      assert WithWeight([], w) == [];
      WithWeightCons(e, [], w);
      assert [e] + [] == [e];
    } else if e.1 < s[0].1 {
      InsertStableFront(s, e, w);
    } else {
      SortedTail(s);
      var rest := InsertByWeight(s[1..], e);
      assert InsertByWeight(s, e) == [s[0]] + rest;
      assert [s[0]] + s[1..] == s;
      InsertStable(s[1..], e, w);
      ConsStable(s[0], rest, s[1..], e, w);
    }
  }

  lemma InsertStableFront(s: seq<Entry>, e: Entry, w: nat)
    requires SortedByWeight(s) && s != [] && e.1 < s[0].1
    ensures WithWeight(InsertByWeight(s, e), w) == WithWeight(s, w) + Matching(e, w)
  {
    assert InsertByWeight(s, e) == [e] + s;
    WithWeightCons(e, s, w);
    if e.1 == w {
      WithWeightAbove(s, w);
    }
  }

  lemma ConsStable(x: Entry, rest: seq<Entry>, tail: seq<Entry>, e: Entry, w: nat)
    requires WithWeight(rest, w) == WithWeight(tail, w) + Matching(e, w)
    ensures WithWeight([x] + rest, w) == WithWeight([x] + tail, w) + Matching(e, w)
  {
    calc {
      WithWeight([x] + rest, w);
      { WithWeightCons(x, rest, w); }
      Matching(x, w) + WithWeight(rest, w);
      Matching(x, w) + (WithWeight(tail, w) + Matching(e, w));
      { Assoc(Matching(x, w), WithWeight(tail, w), Matching(e, w)); }
      (Matching(x, w) + WithWeight(tail, w)) + Matching(e, w);
      { WithWeightCons(x, tail, w); }
      WithWeight([x] + tail, w) + Matching(e, w);
    }
  }

  /** Python's `sorted(..., key=weight)`: a stable sort by weight, written as insertion. */
  function SortByWeight(items: seq<Entry>): (sorted: seq<Entry>)
    ensures SumWeights(sorted) == SumWeights(items)
    ensures SortedByWeight(sorted)
  {
    if items == [] then []
    else
      var init := items[..|items| - 1];
      assert items == init + [items[|items| - 1]];
      InsertSorted(SortByWeight(init), items[|items| - 1]);
      InsertByWeight(SortByWeight(init), items[|items| - 1])
  }

  /** The sorted queue holds exactly the dictionary's items. */
  lemma {:induction false} SortPermutes(items: seq<Entry>)
    ensures multiset(SortByWeight(items)) == multiset(items)
  {
    if items != [] {
      var init := items[..|items| - 1];
      SortPermutes(init);
      InsertPermutes(SortByWeight(init), items[|items| - 1]);
      assert items == init + [items[|items| - 1]];
    }
  }

  lemma {:induction false} WithWeightAppend(a: seq<Entry>, b: seq<Entry>, w: nat)
    ensures WithWeight(a + b, w) == WithWeight(a, w) + WithWeight(b, w)
  {
    if a != [] {
      WithWeightAppend(a[1..], b, w);
      assert (a + b)[0] == a[0];
      assert (a + b)[1..] == a[1..] + b;
    } else {
      assert a + b == b;
    }
  }

  /** Stability: the entries of each weight keep their relative order. */
  lemma {:induction false} SortByWeightStable(items: seq<Entry>, w: nat)
    ensures WithWeight(SortByWeight(items), w) == WithWeight(items, w)
  {
    if items != [] {
      var init, last := items[..|items| - 1], items[|items| - 1];
      var sortedInit := SortByWeight(init);
      var single: seq<Entry> := [last];
      var tail := Matching(last, w);
      assert items == init + single;
      assert WithWeight(single, w) == tail by {
        assert single[1..] == [];
      }
      assert WithWeight(items, w) == WithWeight(init, w) + tail by {
        WithWeightAppend(init, single, w);
      }
      assert WithWeight(SortByWeight(items), w) == WithWeight(sortedInit, w) + tail by {
        InsertStable(sortedInit, last, w);
      }
      SortByWeightStable(init, w);
    }
  }

  // ---------------------------------------------------------------- the container

  /** What the writer's range checks and the code digits demand of the key table:
      byte-sized symbols, 16-bit lengths and codes over '0' and '1'. */
  predicate EntriesFit(entries: seq<Key>) {
    forall i :: 0 <= i < |entries| ==>
      entries[i].symbol as int < UByteLimit && entries[i].length < UShortLimit && IsCode(entries[i].code)
  }

  /** The symbols of the table's entries, in order. */
  function Symbols(entries: seq<Key>): (symbols: seq<char>)
    ensures |symbols| == |entries|
    ensures forall i :: 0 <= i < |entries| ==> symbols[i] == entries[i].symbol
  {
    seq(|entries|, i requires 0 <= i < |entries| => entries[i].symbol)
  }

  /** The symbol-to-code dictionary the key loop fills; a later entry for the
      same symbol overrides an earlier one. */
  function EncMap(entries: seq<Key>): (dict: map<char, string>)
    ensures forall c :: c in dict <==> c in Symbols(entries)
  {
    if entries == [] then map[]
    else
      var init, last := entries[..|entries| - 1], entries[|entries| - 1];
      assert Symbols(entries) == Symbols(init) + [last.symbol];
      EncMap(init)[last.symbol := last.code]
  }

  /** Every code in the dictionary is some entry's code, so a string of digits. */
  lemma {:induction false} EncMapCodes(entries: seq<Key>)
    requires EntriesFit(entries)
    ensures forall c :: c in EncMap(entries) ==> IsCode(EncMap(entries)[c])
  {
    if entries != [] {
      var init := entries[..|entries| - 1];
      assert EntriesFit(init) by {
        forall i | 0 <= i < |init|
          ensures init[i] == entries[i]
        {
        }
      }
      EncMapCodes(init);
    }
  }

  /** The header, a 32-bit total and a 16-bit count, and the key table fit their fields,
      and every symbol of the text has a code. */
  predicate Writable(key: KeyTable, data: string) {
    && key.total < UIntLimit && key.count < UShortLimit
    && EntriesFit(key.entries)
    && forall c <- data :: c in EncMap(key.entries)
  }

  /**
   * The bytes committed and the bits of the current run once the header and
   * the first `n` table entries are written: each entry's byte flushes the
   * previous code's bits, and its own code starts a new run.
   */
  function KeyState(key: KeyTable, n: nat): (state: (seq<Byte>, seq<Bit>))
    requires n <= |key.entries| && EntriesFit(key.entries)
  {
    if n == 0 then (LE(key.total, 4) + LE(key.count, 2), [])
    else
      var prev := KeyState(key, n - 1);
      var entry := key.entries[n - 1];
      (prev.0 + PackBits(prev.1) + [entry.symbol as int] + LE(entry.length, 2), ToBits(entry.code))
  }

  /** The codes of `data`, symbol by symbol, as one bit run. */
  function PayloadBits(data: string, dict: map<char, string>): (bits: seq<Bit>)
    requires forall c <- data :: c in dict
  {
    if data == [] then []
    else
      var init := data[..|data| - 1];
      assert forall c <- init :: c in data;
      PayloadBits(init, dict) + ToBits(dict[data[|data| - 1]])
  }

  /** The file `compress` writes: header, key table, then the payload bits
      packed on from the last code's partial byte, zero-padded at the end. */
  function Container(key: KeyTable, data: string): seq<Byte>
    requires Writable(key, data)
  {
    var state := KeyState(key, |key.entries|);
    state.0 + PackBits(state.1 + PayloadBits(data, EncMap(key.entries)))
  }

  /**
   * The key table as the format describes it, entry by entry from the front:
   * the bits `run` pending before an entry are flushed to whole bytes, then the
   * entry's symbol byte and 16-bit length follow, and its code starts the next run.
   */
  function TableBytes(entries: seq<Key>, run: seq<Bit>): seq<Byte>
    requires EntriesFit(entries)
  {
    if entries == [] then []
    else
      var entry := entries[0];
      PackBits(run) + [entry.symbol as int] + LE(entry.length, 2) + TableBytes(entries[1..], ToBits(entry.code))
  }

  /** The run left pending after the table: the last entry's code (or `run` for no entries). */
  function TrailingRun(entries: seq<Key>, run: seq<Bit>): seq<Bit> {
    if entries == [] then run else TrailingRun(entries[1..], ToBits(entries[0].code))
  }

  /** The file is the header, the table entry by entry with each code padded to a
      byte boundary by the next entry, then the last code and the payload bits
      packed together and zero-padded. */
  lemma ContainerLayout(key: KeyTable, data: string)
    requires Writable(key, data)
    ensures Container(key, data)
      == LE(key.total, 4) + LE(key.count, 2) + TableBytes(key.entries, [])
         + PackBits(TrailingRun(key.entries, []) + PayloadBits(data, EncMap(key.entries)))
  {
    KeyStateSplit(key, 0);
    assert key.entries[0..] == key.entries;
  }

  /** The fold the writer performs agrees with the front-to-back layout from any entry on. */
  lemma {:induction false} KeyStateSplit(key: KeyTable, i: nat)
    requires i <= |key.entries| && EntriesFit(key.entries)
    ensures KeyState(key, |key.entries|).0 == KeyState(key, i).0 + TableBytes(key.entries[i..], KeyState(key, i).1)
    ensures KeyState(key, |key.entries|).1 == TrailingRun(key.entries[i..], KeyState(key, i).1)
    decreases |key.entries| - i
  {
    var rest := key.entries[i..];
    if i == |key.entries| {
      assert rest == [];
    } else {
      var prev, next := KeyState(key, i), KeyState(key, i + 1);
      var entry := key.entries[i];
      var later := key.entries[i + 1..];
      var head := PackBits(prev.1) + [entry.symbol as int] + LE(entry.length, 2);
      assert rest[0] == entry && rest[1..] == later;
      assert next == (prev.0 + PackBits(prev.1) + [entry.symbol as int] + LE(entry.length, 2), ToBits(entry.code));
      assert next.0 == prev.0 + head by {
        Assoc(prev.0, PackBits(prev.1), [entry.symbol as int]);
        Assoc(prev.0, PackBits(prev.1) + [entry.symbol as int], LE(entry.length, 2));
      }
      assert TableBytes(rest, prev.1) == head + TableBytes(later, next.1);
      assert TrailingRun(rest, prev.1) == TrailingRun(later, next.1);
      KeyStateSplit(key, i + 1);
      Assoc(prev.0, head, TableBytes(later, next.1));
    }
  }

  /** Writes a code's digits as bits, without forcing a flush. */
  method WriteCode(bitWriter: Writer, code: string)
    requires bitWriter.Valid() && IsCode(code)
    modifies bitWriter
    ensures bitWriter.Valid() && bitWriter.Committed == old(bitWriter.Committed)
    ensures bitWriter.Run() == old(bitWriter.Run()) + ToBits(code)
  {
    for j := 0 to |code|
      invariant bitWriter.Valid() && bitWriter.Committed == old(bitWriter.Committed)
      invariant bitWriter.Run() == old(bitWriter.Run()) + ToBits(code[..j])
    {
      assert ToBits(code[..j + 1]) == ToBits(code[..j]) + [BitOf(code[j])];
      bitWriter.WriteBit(BitOf(code[j]), false);
    }
    assert code[..|code|] == code;
  }

  /** Writes the header, the key table and the coded text through a fresh writer. */
  method Compress(data: string, key: KeyTable) returns (file: seq<Byte>)
    requires Writable(key, data)
    ensures file == Container(key, data)
  {
    var bitWriter := new Writer();
    bitWriter.WriteUInt(key.total);
    assert bitWriter.Committed == LE(key.total, 4);
    bitWriter.WriteUShort(key.count);
    assert bitWriter.Committed == KeyState(key, 0).0 && bitWriter.Run() == [];
    var keyDict := WriteKeyTable(bitWriter, key);
    EncMapCodes(key.entries);
    WritePayload(bitWriter, data, keyDict);
    bitWriter.Close();
    file := bitWriter.out;
  }

  /** The key loop: each entry's symbol byte and length, then its code bits;
      the dictionary collects each symbol's code. */
  method WriteKeyTable(bitWriter: Writer, key: KeyTable) returns (keyDict: map<char, string>)
    requires bitWriter.Valid() && EntriesFit(key.entries)
    requires bitWriter.Committed == KeyState(key, 0).0 && bitWriter.Run() == KeyState(key, 0).1
    modifies bitWriter
    ensures bitWriter.Valid()
    ensures bitWriter.Committed == KeyState(key, |key.entries|).0
    ensures bitWriter.Run() == KeyState(key, |key.entries|).1
    ensures keyDict == EncMap(key.entries)
  {
    keyDict := map[];
    for i := 0 to |key.entries|
      invariant bitWriter.Valid()
      invariant bitWriter.Committed == KeyState(key, i).0 && bitWriter.Run() == KeyState(key, i).1
      invariant keyDict == EncMap(key.entries[..i])
    {
      var entry := key.entries[i];
      assert key.entries[..i + 1][..i] == key.entries[..i];
      keyDict := keyDict[entry.symbol := entry.code];
      WriteEntry(bitWriter, key, i);
    }
    assert key.entries[..|key.entries|] == key.entries;
  }

  /** One table entry: the symbol as a byte, the code length as a 16-bit field, then the code. */
  method WriteEntry(bitWriter: Writer, key: KeyTable, i: nat)
    requires bitWriter.Valid() && EntriesFit(key.entries) && i < |key.entries|
    requires bitWriter.Committed == KeyState(key, i).0 && bitWriter.Run() == KeyState(key, i).1
    modifies bitWriter
    ensures bitWriter.Valid()
    ensures bitWriter.Committed == KeyState(key, i + 1).0 && bitWriter.Run() == KeyState(key, i + 1).1
  {
    var entry := key.entries[i];
    ghost var prev := KeyState(key, i);
    bitWriter.WriteUByte(entry.symbol as int);
    assert bitWriter.Committed == prev.0 + PackBits(prev.1) + [entry.symbol as int];
    bitWriter.WriteUShort(entry.length);
    assert bitWriter.Committed == KeyState(key, i + 1).0 by {
      assert PackBits([]) == [];
    }
    WriteCode(bitWriter, entry.code);
    assert bitWriter.Run() == KeyState(key, i + 1).1 by {
      assert [] + ToBits(entry.code) == ToBits(entry.code);
    }
  }

  /** The data loop: the code of each symbol of the text, in order. */
  method WritePayload(bitWriter: Writer, data: string, keyDict: map<char, string>)
    requires bitWriter.Valid()
    requires forall c <- data :: c in keyDict && IsCode(keyDict[c])
    modifies bitWriter
    ensures bitWriter.Valid() && bitWriter.Committed == old(bitWriter.Committed)
    ensures bitWriter.Run() == old(bitWriter.Run()) + PayloadBits(data, keyDict)
  {
    for i := 0 to |data|
      invariant bitWriter.Valid() && bitWriter.Committed == old(bitWriter.Committed)
      invariant bitWriter.Run() == old(bitWriter.Run()) + PayloadBits(data[..i], keyDict)
    {
      assert data[..i + 1][..i] == data[..i];
      WriteCode(bitWriter, keyDict[data[i]]);
    }
    assert data[..|data|] == data;
  }
}
