# GRIN Huffman codec in Dafny

This project models the GRIN compressor: a Huffman coder over a 9-bit alphabet. The alphabet is the 256 byte values plus the end-of-stream symbol 256 (`EOF`). Three modules make up the model:

- `BitStream` (`bits.dfy`) stands in for the bit streams. Streams are `seq<bit>` and byte sources are `seq<byte>`. `ToBits` writes the low `n` bits of a value, most significant bit first. `ReadBits` reads such a field back, or fails when fewer than `n` bits remain.
- `Huffman` (`huffman.dfy`) models `HuffmanTree.java`:
  - the tree, as the immutable datatype `Node`;
  - the builder, as the method `BuildTree`, whose merge loop runs over a queue held as a `seq<Node>`;
  - `generateCodes`, as the recursive method `HuffmanTree.GenerateCodes`, which fills the `codes` field;
  - the pre-order tree codec, as `WriteTree`/`ReadTree`;
  - the payload encoder and decoder, as methods of the class `HuffmanTree`. The class has the source's `root` and `codes` fields.

  Each method is proved against a specification function: `CodeTable`, `WriteTree`, `Codewords`/`Payload`, `Walk`/`Decoded`. The lemmas state what the source promises about those functions.
- `Grin` (`grin.dfy`) models `Grin.java`:
  - the byte-frequency count (`CountFrequencies`);
  - the file framing `Encode`, which writes the 32-bit magic number `0x736`, then the tree, then the payload;
  - its inverse `Decode`;
  - the whole-file round trip.

The priority queue removes the node of least frequency. On a tie, the node queued first wins. Leaves are queued in ascending value order and parents at the back. No proved property depends on this tie-break.

## Model

| member | source | states |
|---|---|---|
| `BitStream.ToBits` | src/main/java/edu/grinnell/csc207/compression/HuffmanTree.java:134 | `writeBits(v, n)` emits exactly `n` bits |
| `BitStream.ReadBits` | src/main/java/edu/grinnell/csc207/compression/HuffmanTree.java:109 | `readBits(n)` succeeds exactly when at least `n` bits remain; the value is below 2^n and the rest of the stream follows the field |
| `BitStream.ReadWrittenBits` | src/main/java/edu/grinnell/csc207/compression/Grin.java:24 | a field written MSB-first is read back as the same value, and the bits after it stay unread |
| `Huffman.WeightOfWellFormed` | src/main/java/edu/grinnell/csc207/compression/HuffmanTree.java:69-71 | when every parent's frequency is the sum of its children's, the root's frequency is the sum of the leaf frequencies |
| `Huffman.Erase` | src/main/java/edu/grinnell/csc207/compression/HuffmanTree.java:110-118 | a tree rebuilt from bits has the same leaf values, in the same order, as the original |
| `Huffman.CodeTable` | src/main/java/edu/grinnell/csc207/compression/HuffmanTree.java:80-90 | every code is at least as long as the prefix walked so far, and strictly longer below an internal node, where each leaf lies at least one step further down; that each code starts with that prefix is stated by `Huffman.CodeTablePaths` |
| `Huffman.CodeTableKeys` | src/main/java/edu/grinnell/csc207/compression/HuffmanTree.java:80-90 | the code table has an entry for a value if and only if some leaf carries that value |
| `Huffman.CodeTablePaths` | src/main/java/edu/grinnell/csc207/compression/HuffmanTree.java:84-89 | each code is the prefix so far followed by a root-to-leaf path (0 = left, 1 = right) that ends at a leaf carrying that value |
| `Huffman.PathsDiverge` | src/main/java/edu/grinnell/csc207/compression/HuffmanTree.java:84-89 | if one root-to-leaf path extends another, the two are the same path to the same leaf |
| `Huffman.CodeTablePrefixFree` | src/main/java/edu/grinnell/csc207/compression/HuffmanTree.java:80-90 | no code in the table is a prefix of another value's code |
| `Huffman.CodeTableErase` | src/main/java/edu/grinnell/csc207/compression/HuffmanTree.java:96-100 | the codes made from a tree read back from bits equal the codes of the tree that was written |
| `Huffman.WriteTree` | src/main/java/edu/grinnell/csc207/compression/HuffmanTree.java:131-140 | the serialisation of any tree is at least 10 bits long, and its first bit is 1 exactly when the root is an internal node |
| `Huffman.WriteTreeLength` | src/main/java/edu/grinnell/csc207/compression/HuffmanTree.java:131-140 | the serialisation is 10 bits per leaf plus 1 bit per internal node long |
| `Huffman.ReadTree` | src/main/java/edu/grinnell/csc207/compression/HuffmanTree.java:102-120 | a successful read consumes at least the 10 bits of one leaf and returns exactly the remaining suffix |
| `Huffman.TreeRoundTrip` | src/main/java/edu/grinnell/csc207/compression/HuffmanTree.java:102-140 | reading `writeTree(t) ++ rest` returns `t` with frequencies set to 0, and leaves `rest` unconsumed |
| `Huffman.TruncatedTreeFails` | src/main/java/edu/grinnell/csc207/compression/HuffmanTree.java:103-106 | every proper prefix of a serialised tree fails to read; running out of bits mid-tree is a failure |
| `Huffman.MinIndex` | src/main/java/edu/grinnell/csc207/compression/HuffmanTree.java:67-68 | `poll()` picks a node whose frequency is at most every frequency in the queue, and no earlier node has that frequency |
| `Huffman.RemoveAt` | src/main/java/edu/grinnell/csc207/compression/HuffmanTree.java:67-68 | removing a node takes its leaves out of the queue's leaf multiset and its frequency out of the queue's total weight |
| `Huffman.RemoveAtMembers` | src/main/java/edu/grinnell/csc207/compression/HuffmanTree.java:67-68 | the queue left after a removal holds only nodes of the old queue, so well-formedness is kept |
| `Huffman.Poll` | src/main/java/edu/grinnell/csc207/compression/HuffmanTree.java:67-68 | `poll()` removes exactly one node from the queue: the remaining nodes plus the removed one are the old queue as a multiset. The removed node's frequency is no larger than that of any node left, the rest keeps all other leaves, and the total weight drops by exactly the removed node's frequency |
| `Huffman.PollTwo` | src/main/java/edu/grinnell/csc207/compression/HuffmanTree.java:67-68 | the two `poll()` calls of a merge remove exactly two nodes: the rest plus both is the old queue as a multiset. The first is no heavier than the second, and the second is no heavier than any node left |
| `Huffman.InitialQueue` | src/main/java/edu/grinnell/csc207/compression/HuffmanTree.java:57-64 | the initial queue holds only leaves, one per key, each with its key's frequency; its weight is the sum of the map's frequencies |
| `Huffman.MergeMinima` | src/main/java/edu/grinnell/csc207/compression/HuffmanTree.java:66-73 | one merge shrinks the queue by one and appends a parent over two nodes taken from it: the nodes before the parent plus its two children are the old queue as a multiset. The parent's frequency is the sum of its children's, both children are no heavier than any node left, and the leaf multiset and the total weight are kept |
| `Huffman.MergeAll` | src/main/java/edu/grinnell/csc207/compression/HuffmanTree.java:66-73 | the merge loop ends with exactly one tree. That tree keeps every leaf of the initial queue and its total weight, and is well formed |
| `Huffman.LeafRootIff` | src/main/java/edu/grinnell/csc207/compression/HuffmanTree.java:66-75 | a tree holding each key once is a single leaf if and only if `EOF` is the only key |
| `Huffman.LastInQueue` | src/main/java/edu/grinnell/csc207/compression/HuffmanTree.java:75 | the last tree in the queue has one leaf per key of the map, each with that key's frequency, and its root frequency is the map's total |
| `Huffman.BuildTree` | src/main/java/edu/grinnell/csc207/compression/HuffmanTree.java:53-75 | the built tree has exactly one leaf per key of the caller's map plus `EOF`. Each leaf has its key's frequency, and `EOF` always has frequency 1 whatever the caller gave. Parents weigh the sum of their children, and the root weighs the total. The root is a leaf exactly when the map has no key other than `EOF` |
| `Huffman.Codewords` | src/main/java/edu/grinnell/csc207/compression/HuffmanTree.java:149-156 | when no code is empty, the concatenated codes have at least one bit per input byte |
| `Huffman.Payload` | src/main/java/edu/grinnell/csc207/compression/HuffmanTree.java:149-162 | with a single-leaf tree (only `EOF`) there is no data and the payload is empty; with an internal root the payload has more bits than the input has bytes, the `EOF` code included |
| `Huffman.Walk` | src/main/java/edu/grinnell/csc207/compression/HuffmanTree.java:172-193 | the decoder emits at most one byte per bit read |
| `Huffman.DecodedAsWritten` | src/main/java/edu/grinnell/csc207/compression/HuffmanTree.java:172-193 | the decoder as written fails exactly when the root is a leaf and a bit is left to read; otherwise it emits at most one byte per bit |
| `Huffman.Decoded` | src/main/java/edu/grinnell/csc207/compression/HuffmanTree.java:172-193 | the corrected decoder emits at most one byte per bit, and nothing at all when the root is a single leaf |
| `Huffman.WalkCode` | src/main/java/edu/grinnell/csc207/compression/HuffmanTree.java:174-191 | walking a leaf's code consumes exactly that code. It then stops if the leaf is `EOF`; otherwise it emits the value's low 8 bits and restarts at the root |
| `Huffman.DecodedAgrees` | src/main/java/edu/grinnell/csc207/compression/HuffmanTree.java:172-193 | the decoder as written fails exactly when the root is a leaf and a bit is read; otherwise it agrees with the corrected decoder |
| `Huffman.LeafRootFailsAsWritten` | src/main/java/edu/grinnell/csc207/compression/HuffmanTree.java:178-184 | on the tree read back for empty input, the decoder as written fails on six padding bits, while the corrected one returns the empty output |
| `Huffman.WalkRoundTrip` | src/main/java/edu/grinnell/csc207/compression/HuffmanTree.java:149-193 | with an internal root, walking the payload plus any padding reproduces the input bytes |
| `Huffman.PayloadRoundTrip` | src/main/java/edu/grinnell/csc207/compression/HuffmanTree.java:149-193 | for any tree with an `EOF` leaf and a leaf for every input byte, decoding the encoded payload followed by any padding gives back the input |
| `Huffman.WriteCode` | src/main/java/edu/grinnell/csc207/compression/HuffmanTree.java:153-155 | writing a code bit by bit appends exactly that code to the output |
| `Huffman.HuffmanTree.constructor` | src/main/java/edu/grinnell/csc207/compression/HuffmanTree.java:53-78 | `root` is the tree `BuildTree` describes (one leaf per key plus `EOF` at frequency 1, weights summed), and `codes` is that tree's code table |
| `Huffman.HuffmanTree.FromRoot` | src/main/java/edu/grinnell/csc207/compression/HuffmanTree.java:96-100 | given the tree `readTree` parsed, `root` is that tree and `codes` is its code table |
| `Huffman.HuffmanTree.GenerateCodes` | src/main/java/edu/grinnell/csc207/compression/HuffmanTree.java:80-90 | adds to `codes` the path-derived code of every leaf below the node; later leaves overwrite earlier entries; `root` is unchanged |
| `Huffman.HuffmanTree.Serialize` | src/main/java/edu/grinnell/csc207/compression/HuffmanTree.java:127-129 | writes the pre-order serialisation of `root`, which is 10 bits per leaf plus 1 bit per internal node long; it reads back as `root` with every frequency set to 0 (`Erase(root)`), the frequencies not being written, with no bits left over |
| `Huffman.HuffmanTree.Encode` | src/main/java/edu/grinnell/csc207/compression/HuffmanTree.java:149-162 | succeeds exactly when every input byte and `EOF` have codes. The output is then the codes of the input bytes in order, followed by exactly one `EOF` code |
| `Huffman.HuffmanTree.Decode` | src/main/java/edu/grinnell/csc207/compression/HuffmanTree.java:172-193 | the bit-by-bit walk of the loop computes the corrected decoding `Decoded(root, input)` |
| `Grin.SumFreqsIncrement` | src/main/java/edu/grinnell/csc207/compression/Grin.java:51 | counting one more occurrence of a byte raises the total of the counts by one |
| `Grin.CountFrequencies` | src/main/java/edu/grinnell/csc207/compression/Grin.java:44-56 | the keys are exactly the byte values that occur, all below 256. Each count is that byte's number of occurrences, and the counts sum to the input length |
| `Grin.DecodeFile` | src/main/java/edu/grinnell/csc207/compression/Grin.java:20-34 | a file is rejected as not a GRIN file exactly when its first 32 bits are missing or are not `0x736`; a successful decode has read the header and at least one 10-bit leaf, and emits at most one byte per remaining bit |
| `Grin.MagicHeader` | src/main/java/edu/grinnell/csc207/compression/Grin.java:24-25 | the 32-bit header the encoder writes is read back as the magic number |
| `Grin.FramedRead` | src/main/java/edu/grinnell/csc207/compression/Grin.java:24-30 | any 32 bits reading as the magic number, followed by a serialised tree, decode to the corrected decoding, under the tree with frequencies erased, of the bits after the tree |
| `Grin.ErasedPayload` | src/main/java/edu/grinnell/csc207/compression/Grin.java:29-30 | the tree read back from a file covers the same data as the written tree and produces the same payload for it |
| `Grin.FileRoundTrip` | src/main/java/edu/grinnell/csc207/compression/Grin.java:20-34 | a file made of the magic number, then a covering tree, then its payload decodes to the original bytes whatever padding follows |
| `Grin.Encode` | src/main/java/edu/grinnell/csc207/compression/Grin.java:65-78 | the output is the 32-bit `0x736`, then the serialised tree, then the payload, in that order. The tree has one leaf per byte value present plus `EOF`, and decoding the output with any padding returns the input |
| `Grin.Decode` | src/main/java/edu/grinnell/csc207/compression/Grin.java:20-34 | rejects the input as not a GRIN file exactly when its first 32 bits are missing or are not `0x736`. Otherwise it reads the tree and decodes the payload |
| `Grin.EmptyInputFailsAsWritten` | src/main/java/edu/grinnell/csc207/compression/Grin.java:72-74 | for empty input the file is 42 bits, padded to 48 with six zero bits. The tree reads back as the lone `EOF` leaf, the decoder as written then fails, and the corrected one gives the empty output |

## Left out

- Bit streams: `BitInputStream` and `BitOutputStream` are not part of this model. Streams are sequences, and byte padding, buffering and `close` are left out. Padding appears only as an arbitrary suffix in the round-trip lemmas.
- File opening and closing, `IOException`, and the argument dispatch and usage messages of `main` (Grin.java:85-102) are left out as I/O.
- Queue order: `Node` implements no `Comparable` and the `PriorityQueue` gets no comparator, so the source never fixes an order. A standard `PriorityQueue` casts elements to `Comparable` when it compares them, so the source throws `ClassCastException` from the second insertion on; on Java 11 and later even the first insertion is cast, while Java 8 stores a first element without comparing it. The model orders by frequency with the stated tie-break. Heap internals, `TreeMap` sorting and `HashMap` hashing are not modelled.
- Huffman.BuildTree: the caller's map is not changed in place. The source's `freqs.put(256, 1)` also changes the caller's map; the model uses the value `freqs[EOF := 1]` instead. `Grin.encode` never reads its map after building the tree, so the difference cannot be seen there.
- Huffman.BuildTree: no optimality or minimum-weight claim is made, and no fixed tree shape is claimed, because the source does not determine the merge order.
- Integer widths: Java `int` overflow of frequencies and the `short` casts are not modelled. Tree values are typed 0..511, the 9-bit range the constructor's documentation asks for.
- Huffman.ReadTree: a 9-bit leaf field cut short by the end of input is a failure. `BitInputStream.readBits` is not part of this model, so the source's behaviour there is not captured.
- Grin.Decode: a tree cut short by the end of input is reported as `TruncatedTree`. In the source, `readTree` returns `null` children instead, and the stream is then exhausted, so the decode loop ends at once and an empty output file is written without any error.
- Huffman.HuffmanTree.Encode: a missing code gives `None` and no output. The source dereferences `null` after the earlier codes have already been written.
- Codes are `seq<bit>`, not `String`, and the `char`-to-bit conversion is left out.

## Findings

| source | as written | input that shows it | evidently intended | confidence | as-written member | corrected member |
|---|---|---|---|---|---|---|
| src/main/java/edu/grinnell/csc207/compression/HuffmanTree.java:172-193 | the loop reads a bit and steps to a child even when the root is a leaf, which has no children | a file whose tree is a single leaf followed by at least one bit, e.g. the 48-bit file made of the magic number, the lone `EOF` leaf and six 0 padding bits. That is what the encoder writes for an empty input when its queue accepts the single `EOF` leaf without comparing it (Java 8). Decoding reads a padding bit and steps to the missing child, a null dereference | a single-leaf root is the `EOF` leaf, reached by the empty code, so decoding stops at once with empty output | high; not executed | `Huffman.DecodedAsWritten`, `Grin.EmptyInputFailsAsWritten` | `Huffman.Decoded`, `Huffman.PayloadRoundTrip`, `Huffman.HuffmanTree.Decode` |
