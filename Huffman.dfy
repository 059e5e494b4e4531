/**
 * The compressing steps of the command-line entry point once the text is in
 * memory: count the symbols, sort the counts into the priority queue, build
 * the tree, read the key off it and write the container. Decompressing the
 * result gives back the text.
 */
module Huffman {
  import opened Bits
  import opened Wrappers
  import opened CodeTree
  import opened Compress
  import opened Decompress
  import opened RoundTrip

  /** Why no container is written: there is nothing to compress, or (as written)
      `createTree` asks the size of a tree it has not built. */
  datatype CompressError = EmptyFile | MissingTree

  /** What the compressor needs of a key for `data`: it fits the container's
      fields, counts the text, has one entry per distinct symbol and codes every
      symbol with prefix-free codes whose length fields match. */
  predicate KeyFor(key: KeyTable, data: string) {
    && Writable(key, data) && key.total == |data|
    && key.count == |key.entries| == |FirstOccurrences(data)|
    && LengthsMatch(key.entries) && PrefixFree(key.entries)
  }

  // ---------------------------------------------------------------- as written

  /**
   * Compresses `data`, whose symbols must fit a byte and whose length must fit
   * the 32-bit total, as the entry point does: empty text is refused, and text
   * with one to three distinct symbols fails inside `createTree`. Text with four
   * or more distinct symbols gives a container that decodes to `data`.
   */
  method CompressText(data: string) returns (r: Result<seq<Byte>, CompressError>)
    requires |data| < UIntLimit && forall c <- data :: c as int < UByteLimit
    ensures r == Err(EmptyFile) <==> data == []
    ensures r == Err(MissingTree) <==> 1 <= |FirstOccurrences(data)| < 4
    ensures r.Ok? <==> |FirstOccurrences(data)| >= 4
    ensures r.Ok? ==> DecodeFile(r.value) == Text(data)
  {
    if data == [] {
      assert FirstOccurrences(data) == [];
      return Err(EmptyFile);
    }
    assert data[0] in FirstOccurrences(data);
    var key := BuildKey(data);
    if key.Err? {
      return Err(MissingTree);
    }
    var file := Compress.Compress(data, key.value);
    assert DecodeFile(file) == Text(data) by {
      DecodeContainer(key.value, data);
    }
    r := Ok(file);
  }

  /** Counts, priority queue, tree and key for a non-empty text; the tree, and so
      the key, exists only for four or more distinct symbols. */
  method BuildKey(data: string) returns (r: Result<KeyTable, TreeError>)
    requires data != [] && |data| < UIntLimit && forall c <- data :: c as int < UByteLimit
    ensures r.Err? <==> |FirstOccurrences(data)| < 4
    ensures r.Err? ==> r.error == SizeOfMissingTree
    ensures r.Ok? ==> KeyFor(r.value, data)
  {
    var priorityQueue, order, items := PriorityQueue(data);
    assert data[0] in order;
    var tree := CreateTree(priorityQueue);
    if tree.Err? {
      return Err(tree.error);
    }
    KeyOfTree(data, order, items, priorityQueue, tree.value);
    r := Ok(CreateKey(tree.value));
  }

  // ---------------------------------------------------------------- as intended

  /** `CompressText` with the intended tree builder: every non-empty text gives a
      container that decodes to it. */
  method CompressTextFixed(data: string) returns (r: Result<seq<Byte>, CompressError>)
    requires |data| < UIntLimit && forall c <- data :: c as int < UByteLimit
    ensures r.Err? <==> data == []
    ensures r.Err? ==> r.error == EmptyFile
    ensures r.Ok? ==> DecodeFile(r.value) == Text(data)
  {
    if data == [] {
      return Err(EmptyFile);
    }
    var key := BuildKeyFixed(data);
    var file := Compress.Compress(data, key);
    assert DecodeFile(file) == Text(data) by {
      DecodeContainer(key, data);
    }
    r := Ok(file);
  }

  /** `BuildKey` with the intended tree builder, which builds a tree for every non-empty queue. */
  method BuildKeyFixed(data: string) returns (key: KeyTable)
    requires data != [] && |data| < UIntLimit && forall c <- data :: c as int < UByteLimit
    ensures KeyFor(key, data)
  {
    var priorityQueue, order, items := PriorityQueue(data);
    assert data[0] in order;
    var tree := CreateTreeFixed(priorityQueue);
    KeyOfTree(data, order, items, priorityQueue, tree.value);
    key := CreateKey(tree.value);
  }

  // ---------------------------------------------------------------- shared steps

  /** The counts of `data` as (symbol, count) items in first-occurrence order,
      stably sorted by count into the priority queue. */
  method PriorityQueue(data: string) returns (priorityQueue: seq<Entry>, ghost order: seq<char>, ghost items: seq<Entry>)
    ensures order == FirstOccurrences(data)
    ensures |items| == |order|
    ensures forall k :: 0 <= k < |items| ==> items[k] == (order[k], multiset(data)[order[k]])
    ensures priorityQueue == SortByWeight(items)
    ensures multiset(priorityQueue) == multiset(items) && |priorityQueue| == |order|
    ensures SumWeights(priorityQueue) == |data|
  {
    var frequencies, keyOrder := ReadFrequencies(data);
    var frequencyItems := Items(frequencies, keyOrder);
    priorityQueue := SortByWeight(frequencyItems);
    order, items := keyOrder, frequencyItems;
    assert |priorityQueue| == |order| by {
      SortPermutes(items);
      assert |multiset(priorityQueue)| == |multiset(items)|;
    }
    assert SumWeights(priorityQueue) == |data| by {
      CountsSumToLength(data, frequencies);
    }
    SortPermutes(items);
  }

  /** The key read off a tree whose leaves are the priority queue's entries is a key for the text. */
  lemma KeyOfTree(data: string, order: seq<char>, items: seq<Entry>, priorityQueue: seq<Entry>, tree: Tree)
    requires |data| < UIntLimit && forall c <- data :: c as int < UByteLimit
    requires order == FirstOccurrences(data)
    requires |items| == |order| && forall k :: 0 <= k < |items| ==> items[k].0 == order[k]
    requires multiset(priorityQueue) == multiset(items) && SumWeights(priorityQueue) == |data|
    requires tree.weight == SumWeights(priorityQueue) && multiset(Leaves(tree)) == multiset(priorityQueue)
    ensures KeyFor(CreateKey(tree), data)
  {
    var key := CreateKey(tree);
    var leaves := Leaves(tree);
    assert |leaves| == |order| by {
      assert |multiset(leaves)| == |multiset(items)|;
    }
    assert Writable(key, data) && LengthsMatch(key.entries) by {
      LeavesFit(data, order, items, leaves);
      LeavesCover(data, order, items, leaves);
      KeyFits(data, leaves, key);
    }
  }

  /** A key read off a tree whose leaves are the text's distinct byte symbols fits
      the container's fields and codes every symbol of the text. */
  lemma KeyFits(data: string, leaves: seq<Entry>, key: KeyTable)
    requires key.total == |data| < UIntLimit
    requires key.count == |key.entries| == |leaves| <= UByteLimit
    requires forall i :: 0 <= i < |leaves| ==> leaves[i].0 as int < UByteLimit
    requires forall c <- data :: exists i :: 0 <= i < |leaves| && leaves[i].0 == c
    requires forall i :: 0 <= i < |key.entries| ==> key.entries[i].symbol == leaves[i].0
    requires forall i :: 0 <= i < |key.entries| ==>
      var code := key.entries[i].code;
      key.entries[i].length == |code| && IsCode(code) && |code| < |leaves|
    ensures Writable(key, data) && LengthsMatch(key.entries)
  {
    forall c <- data
      ensures c in Symbols(key.entries)
    {
      var i :| 0 <= i < |leaves| && leaves[i].0 == c;
      assert Symbols(key.entries)[i] == c;
    }
  }

  /** The leaves are the text's items: at most one per byte value, each symbol a byte. */
  lemma LeavesFit(data: string, order: seq<char>, items: seq<Entry>, leaves: seq<Entry>)
    requires forall c <- data :: c as int < UByteLimit
    requires Distinct(order) && (forall c :: c in order <==> c in data)
    requires |items| == |order| && (forall k :: 0 <= k < |items| ==> items[k].0 == order[k])
    requires multiset(leaves) == multiset(items)
    ensures |leaves| <= UByteLimit
    ensures forall i :: 0 <= i < |leaves| ==> leaves[i].0 as int < UByteLimit
  {
    assert |leaves| == |items| by {
      assert |multiset(leaves)| == |multiset(items)|;
    }
    DistinctBelow(order, UByteLimit);
    forall i | 0 <= i < |leaves|
      ensures leaves[i].0 as int < UByteLimit
    {
      assert leaves[i] in multiset(items);
      var k :| 0 <= k < |items| && items[k] == leaves[i];
      assert order[k] in data;
    }
  }

  /** Every symbol of the text is the symbol of some leaf. */
  lemma LeavesCover(data: string, order: seq<char>, items: seq<Entry>, leaves: seq<Entry>)
    requires forall c :: c in order <==> c in data
    requires |items| == |order| && (forall k :: 0 <= k < |items| ==> items[k].0 == order[k])
    requires multiset(leaves) == multiset(items)
    ensures forall c <- data :: exists i :: 0 <= i < |leaves| && leaves[i].0 == c
  {
    forall c <- data
      ensures exists i :: 0 <= i < |leaves| && leaves[i].0 == c
    {
      var k :| 0 <= k < |order| && order[k] == c;
      assert items[k] in multiset(leaves);
      var i :| 0 <= i < |leaves| && leaves[i] == items[k];
    }
  }

  /** Distinct symbols below `n` number at most `n`. */
  lemma {:induction false} DistinctBelow(s: seq<char>, n: nat)
    requires n <= UByteLimit
    ensures Distinct(s) && (forall c <- s :: c as int < n) ==> |s| <= n
    decreases n
  {
    if n == 0 {
      if s != [] {
        assert s[0] in s;
      }
    } else if Distinct(s) && forall c <- s :: c as int < n {
      var top := (n - 1) as char;
      if top in s {
        var k :| 0 <= k < |s| && s[k] == top;
        var rest := s[..k] + s[k + 1..];
        forall i | 0 <= i < |rest|
          ensures rest[i] == s[if i < k then i else i + 1] && rest[i] as int < n - 1
        {
          assert rest[i] in s && rest[i] != top && top as int == n - 1;
        }
        DistinctBelow(rest, n - 1);
      } else {
        assert top as int == n - 1;
        DistinctBelow(s, n - 1);
      }
    }
  }
}
