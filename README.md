# HuffmanCompression in Dafny

A model of the HuffmanCompression command-line pair `compress` / `decompress`
and of the bit channel they share, with the round trip proved.

- **Bit channel** (`BinaryFileIO`): `BinaryFileWriter` and `BinaryFileReader`
  are classes over an in-memory byte stream. Fixed-width writes of 1, 2 or 4
  bytes are little-endian and first flush any pending bits as one zero-padded
  byte. `writeBit` accumulates bits most significant first. On the reader side
  a fixed-width read drops the leftover bits of a partly read byte, and
  `readBit` fetches a byte only when none of its bits remain. Each reader
  method is proved equal to a function of the stream and a bit cursor (bits
  consumed so far). Each writer method states the bytes it leaves behind once
  the writer is closed.
- **Compressor** (`Compress`, `CodeTree`): the frequency count, the stable sort
  of the `(symbol, count)` items by count, and the greedy tree builder with its
  own combination order: pairs first, a paired candidate joins the main tree
  only when strictly heavier, and leftovers go on the lighter side. Then the
  path codes (`'0'` left, `'1'` right, post-order), the key table, and the
  container writer. The container is specified as a byte-sequence function
  (`Compress.Container`). `Compress.ContainerLayout` shows how it lays out:
  - the 4-byte total and the 2-byte key count;
  - per key, a byte, a 2-byte length and the code bits, each code padded to a
    byte boundary by the next entry's fixed-width write;
  - the payload bits, which continue in the same partial byte as the last code
    and are zero-padded at the end.
- **Decompressor** (`Decompress`): the key loop, the data loop and
  `decompress` without its final file write. Each is a method driving a
  `Reader`, proved equal to a function of the file and the bit cursor.
  `DecodeFile` gives the three outcomes: the text, "nothing to decompress" for
  a missing header, or a read error past the header.
- **Round trip** (`RoundTrip`, `Huffman`):
  - For any key table whose codes are prefix-free and whose length fields match
    their codes, decoding the container gives back the text
    (`RoundTrip.DecodeContainer`).
  - `Huffman.CompressText` is the compressing part of `compress`'s `main`,
    without file I/O. It refuses empty text. It fails for text with one to
    three distinct characters, because `createTree` does. For four or more
    distinct byte-range characters it writes a container that decompresses to
    the text.

`createTree` fails on a queue of 1, 2 or 3 entries (compress.py:170,
compress.py:178) because it asks for the size of a tree it has not built
yet. The code's own helpers show what was meant:
- `_combineSubtrees(None, t)` returns `t` (compress.py:83-84), so a lone
  leftover should become the tree;
- `_readData` matches an empty code before reading any bit
  (decompress.py:53), so a one-symbol text with an empty code would decode.

`CodeTree.CreateTree` and `Huffman.CompressText` model the code as written.
`CodeTree.CreateTreeFixed` is the corrected builder, used by
`Huffman.CompressTextFixed`, which round-trips every non-empty text (see
Findings). Where the code as written succeeds, on four entries or more, the
two builders build the same tree (`CodeTree.TreeOfFixedAgrees`).

## Model

| member | source | states |
|---|---|---|
| BinaryFileIO.Writer.constructor | BinaryFileIO.py:17-24 | a new writer has an empty output, no pending bits and an empty bit run |
| BinaryFileIO.Writer.WriteUByte | BinaryFileIO.py:28-39 | requires 0 <= value < 2^8 (the assert); pending bits are flushed first, then exactly the one byte is appended; no bits remain pending |
| BinaryFileIO.Writer.WriteUShort | BinaryFileIO.py:43-54 | requires 0 <= value < 2^16; flushes pending bits, then appends the two little-endian bytes of the value |
| BinaryFileIO.Writer.WriteUInt | BinaryFileIO.py:58-70 | requires 0 <= value < 2^32; flushes pending bits, then appends the four little-endian bytes of the value |
| BinaryFileIO.Writer.WriteBit | BinaryFileIO.py:74-85 | requires a 0/1 bit; keeps 0 <= numberOfBits < 8 and bitValue equal to the value of the pending bits; without flushByte the bit joins the current run and the final image; with flushByte the run including this bit is emitted, packed eight bits per byte with the last byte zero-padded |
| BinaryFileIO.Writer.FlushBits | BinaryFileIO.py:89-102 | with no pending bits nothing is written; otherwise exactly one byte is emitted, holding the pending bits in its high positions and zeros below; the state returns to (0, 0) |
| BinaryFileIO.FlushedImage | BinaryFileIO.py:95-101 | the flushed byte bitValue << (8 - numberOfBits) is below 256, so writeUByte's assert holds, and it is the last byte of the packed run |
| BinaryFileIO.Writer.Close | BinaryFileIO.py:106-112 | after close no bits are pending and the output is the committed bytes followed by the current bit run, packed and zero-padded |
| BinaryFileIO.ReadFixed | BinaryFileIO.py:131-169 | a fixed-width read succeeds exactly when the width's bytes remain after the partly read byte; the value is below 256^width and the cursor moves to a byte boundary past the old one |
| BinaryFileIO.ReadBitAt | BinaryFileIO.py:173-189 | a single-bit read succeeds exactly when a bit remains, and it advances the cursor by one |
| BinaryFileIO.Reader.constructor | BinaryFileIO.py:120-127 | a new reader is over the given bytes with nothing consumed |
| BinaryFileIO.Reader.ResetBits | BinaryFileIO.py:193-199 | drops the leftover bits and keeps the byte position |
| BinaryFileIO.Reader.ReadRaw | BinaryFileIO.py:136-137 | returns the next count bytes and advances past them, or returns fewer bytes at the end of the stream |
| BinaryFileIO.Reader.ReadUByte | BinaryFileIO.py:131-141 | equals ReadFixed(data, cursor, 1): leftover bits dropped, one byte consumed, EndOfFile (the ValueError) when none remains |
| BinaryFileIO.Reader.ReadUShort | BinaryFileIO.py:145-155 | equals ReadFixed(data, cursor, 2): two bytes consumed and read little-endian, or EndOfFile |
| BinaryFileIO.Reader.ReadUInt | BinaryFileIO.py:159-169 | equals ReadFixed(data, cursor, 4): four bytes consumed and read little-endian, or EndOfFile |
| BinaryFileIO.Reader.ReadBit | BinaryFileIO.py:173-189 | equals ReadBitAt(data, cursor): the stream's bits come out most significant first, and a byte is fetched only when no bits are left |
| BinaryFileIO.TopBitIsStreamBit | BinaryFileIO.py:184-187 | (bitValue & 128) >> 7 of the shifted byte is the stream bit at the cursor, and the left shift keeps the reader's state invariant |
| BinaryFileIO.ReadFixedOfLE | BinaryFileIO.py:150-155 | a fixed-width read at the offset where a fixed-width write put a value returns that value, whatever bits were pending before it |
| BinaryFileIO.ReadBitOfPack | BinaryFileIO.py:173-189 | single-bit reads over a packed run of written bits return the written bits in order |
| Bits.PackBitsAt | BinaryFileIO.py:81-102 | every bit of a run packed by writeBit and the flush can be read back at its bit offset |
| Bits.LERoundTrip | BinaryFileIO.py:53-54 | decoding the little-endian bytes of a value that fits the width gives the value back |
| Compress.FirstOccurrences | compress.py:125-140 | the frequency dictionary's key order: each character of the text once, in order of first occurrence |
| Compress.ReadFrequencies | compress.py:125-140 | maps exactly the characters of the text, each to its number of occurrences (at least 1); the key order is first occurrence |
| Compress.CountsSumToLength | compress.py:125-140 | the counts sum to the length of the text |
| Compress.Items | compress.py:250 | frequencies.items(): one (symbol, count) pair per key, in key order |
| Compress.SortByWeight | compress.py:250 | the sorted queue is ascending by count and keeps the total weight |
| Compress.SortPermutes | compress.py:250 | the sorted queue is a permutation of the items |
| Compress.SortByWeightStable | compress.py:250 | the sort is stable: the entries of each count keep their first-occurrence order |
| Compress.InsertByWeight | compress.py:250 | one insertion step of the stable sort adds the entry's weight and one element |
| Compress.InsertPermutes | compress.py:250 | an insertion step adds exactly the inserted entry to the multiset |
| Compress.InsertSorted | compress.py:250 | an insertion step keeps the queue ascending |
| CodeTree.CreateSubtree | compress.py:65-78 | two queue entries become a node whose weight is the sum of theirs, with the entries as its leaves in order |
| CodeTree.CombineSubtrees | compress.py:80-90 | with no left tree the right tree is returned unchanged; otherwise a node with weight equal to the sum of the children's weights, left then right |
| CodeTree.JoinLeftover | compress.py:169-181 | the leftover goes left only when strictly lighter than the main tree, and the main tree goes left on a tie; weights add and the leaves are the union |
| CodeTree.PairRound | compress.py:151-166 | a new pair waits if nothing is waiting; otherwise the combined candidate joins the main tree as its right child when the tree is missing or strictly lighter, and is held back otherwise |
| CodeTree.PoolRound | compress.py:149-166 | each pairing round keeps the invariant: the main tree and the waiting subtree are well weighted and hold exactly the entries taken so far |
| CodeTree.PairEntries | compress.py:148-166 | the pairing loop returns exactly the state of the `PairRound` fold over the queue, two entries at a time (`PairFold`), leaving at most one entry and one waiting subtree; the main tree and waiting subtree hold exactly the entries taken |
| CodeTree.FinishTree | compress.py:168-183 | as written: with no main tree the empty queue gives no tree, and a leftover subtree or entry is the SizeOfMissingTree failure |
| CodeTree.PoolFinished | compress.py:168-181 | attaching the leftovers to the main tree yields a tree holding every queue entry |
| CodeTree.CreateTree | compress.py:142-183 | as written: the result is the tail applied to the pairing fold over the queue (`TreeOf`), which fixes the tree's shape; an empty queue gives no tree and 1 to 3 entries fail; otherwise the root weight is the sum of the queue weights, every node's weight is the sum of its children's, and the leaves are exactly the queue entries |
| CodeTree.CreateTreeFixed | compress.py:142-183 | corrected: the result is the corrected tail applied to the same pairing fold (`TreeOfFixed`); it fails only on an empty queue; otherwise a well-weighted tree whose weight is the queue's total and whose leaves are exactly the queue entries |
| CodeTree.PairFoldBuilds | compress.py:149-166 | the pairing loop ends with a main tree exactly when it started with one, or when the waiting subtree and the pairs still to come number at least two |
| CodeTree.TreeOfBuilds | compress.py:142-183 | `createTree` as written yields a tree exactly for queues of four entries or more |
| CodeTree.TreeOfFour | compress.py:157-162 | on four entries the first pair goes left and the second right, under one root that weighs their sum: the candidate becomes the tree |
| CodeTree.TreeOfFixedAgrees | compress.py:169-181 | on four entries or more the corrected builder builds the same tree as the code as written |
| CodeTree.FinishTreeFixed | compress.py:168-183 | corrected tail: a lone leftover becomes the tree itself, only an empty queue gives no tree, and with a main tree it does exactly what the tail as written does |
| CodeTree.PoolFinishedFixed | compress.py:168-181 | the corrected tail also yields a tree holding every queue entry |
| CodeTree.GenerateKeysShape | compress.py:92-108 | one entry per leaf, in leaf order (left subtree before right), codes over {'0','1'} that extend the path prefix by at most the tree's height |
| CodeTree.GenerateKeysPrefixFree | compress.py:92-108 | no generated code is a prefix of another |
| CodeTree.HeightBelowLeaves | compress.py:92-108 | a tree is shallower than its number of leaves, so every code is shorter than the number of symbols |
| CodeTree.CreateKey | compress.py:185-192 | the header is (root weight, number of entries); one entry per leaf with that leaf's symbol; the length field equals the code's length; codes are binary digit strings and prefix-free |
| Compress.EncMap | compress.py:202-210 | keyDict maps exactly the symbols of the key table |
| Compress.EncMapCodes | compress.py:202-210 | every code in keyDict is a string of binary digits |
| Compress.WriteCode | compress.py:217-218 | writing a code's digits adds its bits to the current run and commits nothing |
| Compress.WriteEntry | compress.py:207-218 | writing one table entry moves the writer from the layout after i entries to the layout after i + 1 |
| Compress.WriteKeyTable | compress.py:202-218 | the key loop leaves the writer at the container's table layout and returns keyDict |
| Compress.WritePayload | compress.py:220-223 | the data loop appends each character's code bits to the current run, with no flush |
| Compress.Compress | compress.py:194-225 | the bytes written are exactly Container(key, data) |
| Compress.KeyStateSplit | compress.py:204-218 | the table layout splits at any entry: the first i entries followed by the rest |
| Compress.ContainerLayout | compress.py:194-225 | the container is the 4-byte total, the 2-byte count, the byte-aligned table entries, then the last code and the payload packed together, zero-padded |
| Decompress.ReadBits | decompress.py:34-36 | reading n bits succeeds exactly when n bits remain; the code has length n and its j-th digit is the j-th stream bit |
| Decompress.ReadKeyF | decompress.py:21-41 | the key loop ends with at least amntUniqueChar codes in the dictionary |
| Decompress.ReadSymbolF | decompress.py:50-58 | a decoded symbol is a value of the dictionary |
| Decompress.ReadDataF | decompress.py:43-60 | the data loop returns exactly totalBytes characters, extending what was already decoded, each a value of the dictionary |
| Decompress.DecodeNothing | decompress.py:74-80 | decompress ends with "nothing to decompress" exactly when the file is shorter than the 6 header bytes |
| Decompress.ReadCode | decompress.py:32-36 | equals ReadBits from the reader's cursor |
| Decompress.ReadKey | decompress.py:21-41 | equals ReadKeyF from the reader's cursor |
| Decompress.ReadSymbol | decompress.py:50-58 | equals ReadSymbolF from the reader's cursor |
| Decompress.ReadData | decompress.py:43-60 | equals ReadDataF from the reader's cursor |
| Decompress.Decompress | decompress.py:68-89 | equals DecodeFile: a short header is the soft failure, and later read errors propagate |
| RoundTrip.ReadTable | decompress.py:21-41 | over a laid-out table with distinct codes, the key loop reads exactly the table's entries and builds their code-to-symbol map |
| RoundTrip.ReadKeyStep | decompress.py:26-39 | one key-loop step reads a byte, a 16-bit length and that many bits, and maps the code to the symbol |
| RoundTrip.DuplicateCodeReadsOn | decompress.py:26-39 | an entry whose code is already mapped does not grow the dictionary, so the loop reads one more entry |
| RoundTrip.DecMapLookup | decompress.py:39 | the rebuilt dictionary holds exactly the table's codes, each mapped to its own entry's symbol |
| RoundTrip.PrefixFreeDistinct | compress.py:92-108 | prefix-free codes are pairwise distinct |
| RoundTrip.TableLayout | compress.py:204-218 | the written table satisfies what the key loop reads: each entry's byte, length and code sit at the cursors the reader reaches |
| RoundTrip.ReadCodeAt | decompress.py:34-36 | reading a code's length in bits from the start of a packed run returns the code |
| RoundTrip.PayloadAt | compress.py:220-223 | the payload bits sit in the stream right after the last code's bits, in the same partial byte |
| RoundTrip.ReadSymbolFrom | decompress.py:50-58 | the symbol decoded is the one whose code is the shortest prefix of the remaining bits that is in the dictionary; an empty code matches before any bit is read |
| RoundTrip.CodesDecode | decompress.py:53-58 | for a prefix-free table, every symbol's code is its own first match in the rebuilt dictionary and maps back to the symbol |
| RoundTrip.ReadPayload | decompress.py:43-60 | over the concatenated codes of s1..sn, the data loop returns s1..sn and stops right after their bits |
| RoundTrip.ReadWholePayload | decompress.py:43-60 | decoding |text| symbols from the start of the payload returns the text |
| RoundTrip.PayloadBitsAppend | compress.py:221-223 | the payload of a concatenation is the concatenation of the payloads |
| RoundTrip.DecodeContainer | decompress.py:68-89 | decompressing the container written for any prefix-free key table with matching lengths returns the text |
| Huffman.PriorityQueue | compress.py:247-250 | the queue is the stable sort by count of the (symbol, count) items in first-occurrence order; each count is the symbol's number of occurrences, there is one entry per distinct symbol and the weights sum to the text's length |
| Huffman.KeyOfTree | compress.py:251-254 | the key read off any tree whose leaves are the queue's entries fits the container fields, has total = len(text) and one prefix-free code per distinct symbol |
| Huffman.BuildKey | compress.py:246-254 | as written: no key (the SizeOfMissingTree failure) exactly when the text has fewer than 4 distinct characters; otherwise total = len(text), count = the number of distinct characters, every character in the table, prefix-free codes whose length fields match |
| Huffman.CompressText | compress.py:239-256 | as written: an empty text is refused, text with 1 to 3 distinct characters fails in `createTree`, and any other byte-range text below 2^32 characters compresses to a file that decompresses to the text |
| Huffman.BuildKeyFixed | compress.py:246-254 | corrected: every non-empty byte-range text gets such a key |
| Huffman.CompressTextFixed | compress.py:239-256 | corrected: only the empty text is refused; every other byte-range text below 2^32 characters compresses to a file that decompresses to the text |
| Huffman.DistinctBelow | compress.py:213 | at most 256 distinct byte-range symbols, so every symbol and the key count fit their fields |

## Left out

- File I/O: `readData` (compress.py:110-123), `_writeData` (decompress.py:62-66) and the writer's and reader's `open`/`close` on OS files. The byte stream is an in-memory sequence, and the file `decompress` would write is its `Text` outcome.
- `main` in both scripts: argument parsing, default file names, `print` diagnostics and exit codes. `Huffman.CompressText` keeps the empty-text check as an `EmptyFile` error. `Decompress.Decompress` keeps `return 1` for a missing header as `NothingToDecompress`.
- `struct.pack` / `struct.unpack` are specified as little-endian arithmetic (`Bits.LE`, `Bits.FromLE`). The library is not modelled.
- Python's `sorted` is modelled as a stable insertion sort by count (`Compress.SortByWeight`). It is proved ascending, a permutation and stable, which is all that `createTree`'s input depends on. Dictionary insertion order is modelled as first-occurrence order.
- Characters beyond one byte: `writeUByte(ord(c))` asserts below 256, so `Huffman.CompressText` requires byte-range text. Text of 2^32 characters or more likewise trips `writeUInt`'s assert and is required away.
- The node setters `setLeft` / `setRight` (compress.py:57-61) are never called. Trees are an immutable datatype, and internal nodes carry no symbol by construction.
- `decompress` with a key table whose codes are not prefix-free: the reader functions model it (the key loop reads on past duplicate codes), but the round trip is proved only for tables the compressor writes.
- The reader's `close` (BinaryFileIO.py:203-208) only closes the OS file and is not modelled.
- Decompress.ReadKeyF: its own contract states only the dictionary size reached. The entries it maps are stated by `RoundTrip.ReadTable` for laid-out tables.

## Findings

| source | as written | input that shows it | evidently intended | confidence | as-written member | corrected member |
|---|---|---|---|---|---|---|
| compress.py:169-181 | with fewer than 4 queue entries the pairing loop never sets `tree`, and `tree.getSize()` is called on `None` (line 170 for 2 or 3 entries, line 178 for 1 entry) | the text "aaaa" (one queue entry) or "ab" (two) | the leftover subtree or leaf becomes the whole tree, so small alphabets compress and round-trip too | not executed | CodeTree.CreateTree | CodeTree.CreateTreeFixed |
