# Huffman processor in Dafny

A model of `HuffProcessor`, a whole-file Huffman compressor over 8-bit
symbols plus the end-of-stream symbol `PSEUDO_EOF` (256). The model covers:

- the counting pass (`readForCounts`);
- greedy tree construction from the counts (`makeTreeFromCounts`);
- code derivation by path tracing (`makeCodingsFromTree`/`codingHelper`);
- the pre-order tree header (`writeHeader`/`readTreeHeader`);
- the payload encoder and decoder (`writeCompressedBits`/`readCompressedBits`);
- the two top-level operations, `compress` and `decompress`, with the
  32-bit magic number `HUFF_TREE = 0xface8200 | 1`.

Bit streams are `seq<bool>`, most significant bit first. Input and output
files are `seq<byte>`. Each exception the Java code throws is an `Err` of a
`Result`, with one error kind per throw site. The exception is the conversion error, which covers every way writing a code fails: `parseInt` on a null or empty code, and `code.length()` on a null `PSEUDO_EOF` code.

Modules, one per stage:

| module | file | models |
|---|---|---|
| `Bits` | bits.dfy | `readBits(n)` (the value, or -1 at end of data) and `writeBits(n, v)` (the low n bits of v) |
| `Huff` | huff.dfy | the constants, the error kinds and `HuffNode` as a datatype; leaf paths and their prefix-freeness |
| `Counting` | counting.dfy | `readForCounts`, as a loop over an array of 257 counters |
| `TreeBuilding` | tree_building.dfy | `makeTreeFromCounts`, with the priority queue as a sequence of trees |
| `Codings` | codings.dfy | `codingHelper`, filling an array in place, and `makeCodingsFromTree` |
| `Header` | header.dfy | `writeHeader` and `readTreeHeader`, as recursive functions |
| `Payload` | payload.dfy | `writeCompressedBits` and `readCompressedBits`, as loops proved against recursive specification functions |
| `Processor` | processor.dfy | `compress`, `decompress` and the end-to-end round trip |

Quirks of the code that the model keeps:

- The counting loop stops after 257 reads. `freq[PSEUDO_EOF]` is set to 1 only when a read hits the end of data, which happens only for inputs shorter than 257 bytes.
- `compress` therefore fails on any input of 257 bytes or more, because `PSEUDO_EOF` gets no leaf and so its code is null. The encoding loop throws first in two cases. If the first 257 bytes all hold one value, the tree is that single leaf, its code is the empty string, and `Integer.parseInt("", 2)` throws on the first byte. If instead the input holds a byte that is not among its first 257 bytes, `Integer.parseInt(null, 2)` throws when the loop reaches that byte. Otherwise `code.length()` throws on the null `PSEUDO_EOF` code after the loop. All of these are the conversion failure in the model.
- `compress` also fails on empty input. The tree is then the single leaf `PSEUDO_EOF`, whose code is the empty string, and `Integer.parseInt("", 2)` throws.
- A tree has at least two leaves for inputs of 1 to 256 bytes: `PSEUDO_EOF` and the first byte. For longer inputs this holds only when the first 257 bytes hold two distinct values. For empty input the tree is a single leaf.
- In `writeHeader` the `else` covers only the first write, but the leaf branch returns, so an internal node writes a 0 flag followed by its two subtrees.

`Processor.Compress` proves both failure cases. The tree it builds is `Processor.HuffmanTree(input)`: the greedy merge of the leaves of the input's count table, with the merges and their order fixed by `TreeBuilding.Greedy`. `Compress` proves that a run on 1 to 256 bytes succeeds whenever that tree is at most 31 levels deep. It also proves that whatever it produces is exactly the magic number, that tree's header, the payload and the zero padding, and that it decompresses to its input.

## Model

| member | source | states |
|---|---|---|
| `Bits.ReadBits` | src/HuffProcessor.java:171 | `readBits(n)` returns -1 exactly when fewer than n bits remain, and then the stream is exhausted. Otherwise it returns an n-bit value, and the bits it returns after it are the bits that followed. |
| `Bits.ReadWritten` | src/HuffProcessor.java:230 | An n-bit value written and then read back as n bits gives the same value, and it leaves exactly the bits that followed. |
| `Bits.ToFromBits` | src/HuffProcessor.java:67-68 | Writing the value of a bit string back in as many bits gives the same string. |
| `Bits.ReadOneBit` | src/HuffProcessor.java:189 | A 1-bit read gives 1 for a set bit and 0 for a clear bit. |
| `Counting.ReadForCounts` | src/HuffProcessor.java:143-158 | The table has 257 slots, and the loop makes at most 257 reads. For fewer than 257 bytes, slot b holds the number of occurrences of byte b, and slot 256 is 1. For longer inputs, only the first 257 bytes are counted and slot 256 stays 0. The table equals `Counts(input)`, the specification the tree is defined from. |
| `TreeBuilding.InitialQueue` | src/HuffProcessor.java:120-127 | The loop builds `InitialLeaves(counts)`: one leaf per symbol with a positive count, in symbol order, weighted by its count. So every tree in the queue is a leaf, its leaves are exactly the symbols with a positive count, once each, and its total weight is the sum of the positive counts. |
| `TreeBuilding.MinIndex` | src/HuffProcessor.java:132-133 | `pq.remove()` takes a tree of least weight. |
| `TreeBuilding.MergeLightest` | src/HuffProcessor.java:130-137 | One merge round removes a tree of least weight, then a tree of least weight among the rest. It appends a tree with the first on the left and the second on the right, weighing both together, and leaves all other trees in order. This is the round `MergeStep` describes. The queue keeps its leaves, its total weight and its well-weightedness. |
| `TreeBuilding.MakeTreeFromCounts` | src/HuffProcessor.java:118-140 | It fails, with the empty-queue error, exactly when no count is positive. Otherwise it returns `Greedy(InitialLeaves(counts))`, the tree left once merge rounds have reduced the initial queue to one tree. The root's leaves are exactly the symbols with a positive count, each appearing once with its count as weight. Every internal node weighs the sum of its children, and the root weighs the sum of the positive counts. |
| `Huff.InternalCountIsLeavesMinusOne` | src/HuffProcessor.java:134 | Each merge makes an internal node with two children, so the tree is full: it has one internal node fewer than it has leaves. |
| `Huff.LeafPathsPrefixFree` | src/HuffProcessor.java:102-116 | A path to a leaf is never a proper prefix of another path to a leaf, and equal leaf paths lead to the same symbol. |
| `Huff.UnweightedKeepsLeafPaths` | src/HuffProcessor.java:227-232 | The tree the header reader rebuilds has weight 0 everywhere. It keeps every leaf path and the symbol at its end. |
| `Codings.CodingHelper` | src/HuffProcessor.java:102-116 | For every leaf symbol below the node, the array slot gets the current path followed by the path down to that leaf. All other slots are unchanged. |
| `Codings.MakeCodingsFromTree` | src/HuffProcessor.java:94-100 | The 257-slot table is set exactly for the tree's leaf symbols; all other slots stay null. Each set slot holds the left=0/right=1 path from the root to a leaf with that symbol. |
| `Codings.CodesPrefixFree` | src/HuffProcessor.java:94-116 | No code in the table is a prefix of another symbol's code. When the root is an internal node, every code is non-empty. |
| `Header.WriteHeader` | src/HuffProcessor.java:77-92 | The header is one flag bit per node plus 9 value bits per leaf. It starts with 1 for a leaf and with 0 for an internal node. |
| `Header.HeaderSize` | src/HuffProcessor.java:77-92 | A tree with n leaves has a header of 11n - 1 bits. |
| `Header.ReadTreeHeader` | src/HuffProcessor.java:217-236 | The only way reading fails is the header error, raised when a flag read finds no data at any depth. A successful read always consumes at least one bit. |
| `Header.TruncatedHeader` | src/HuffProcessor.java:222-223 | Reading a header cut short either fails with the header error or yields a tree with nothing left unread. A cut that removes the last leaf's flag bit always fails. So a tree comes back only when the cut falls inside the last leaf's 9 symbol bits. |
| `Header.HeaderRoundTrip` | src/HuffProcessor.java:217-236 | Reading back the header of a tree whose symbols are below 512, followed by any bits, gives the same shape and symbols. All weights are 0, and exactly the following bits are left unread. |
| `Payload.Emit` | src/HuffProcessor.java:67-68 | `Integer.parseInt(code, 2)` followed by `writeBits(code.length(), v)` succeeds exactly for a non-null code of 1 to 31 characters, and it then writes exactly that code. A null, empty or longer code fails with the conversion error. |
| `Payload.EncodeSucceeds` | src/HuffProcessor.java:58-75 | When every input byte and `PSEUDO_EOF` have a code that converts, the whole payload is written. |
| `Payload.EncodePayload` | src/HuffProcessor.java:58-75 | The only way encoding fails is the code conversion error. |
| `Payload.WriteCompressedBits` | src/HuffProcessor.java:58-75 | The loop produces the code of each input byte in order, then the code of `PSEUDO_EOF`. It fails exactly where a code cannot be converted. |
| `Payload.EncodeNeedsEof` | src/HuffProcessor.java:73-74 | A payload is only produced when `PSEUDO_EOF` has a writable code. |
| `Payload.DecodePayload` | src/HuffProcessor.java:183-213 | A successful decode consumes at least one bit. |
| `Payload.ReadCompressedBits` | src/HuffProcessor.java:183-213 | The loop emits what the specification function emits, and it fails exactly when that function fails, with the same error. The failures are: data runs out before a `PSEUDO_EOF` leaf, or a bit is read at a leaf root (the null dereference). |
| `Payload.DecodeAlongPath` | src/HuffProcessor.java:195-208 | Following a leaf path from any node stops at `PSEUDO_EOF` without emitting it, leaving the rest unread. At any other leaf it emits the leaf's low 8 bits and continues from the root. |
| `Payload.PayloadRoundTrip` | src/HuffProcessor.java:183-213 | With a code table whose codes lead to their own symbols, decoding the payload of an input, followed by any padding, gives back exactly that input and leaves the padding unread. |
| `Payload.DecodePartialPath` | src/HuffProcessor.java:189-193 | Decoding a proper prefix of a leaf path runs out of data before reaching a leaf. |
| `Payload.TruncatedPayload` | src/HuffProcessor.java:189-193 | A payload cut anywhere before its end fails with the missing-`PSEUDO_EOF` error. |
| `Processor.MagicBits` | src/HuffProcessor.java:20-21 | The magic number is written as a 32-bit field. |
| `Processor.Padded` | src/HuffProcessor.java:54 | Closing the output pads it with zero bits to a whole number of bytes. It adds fewer than 8 bits and changes none before them. |
| `Processor.Decompress` | src/HuffProcessor.java:169-180 | Decompression is the magic check, then the header read, then the payload decode. Any failure is returned as that failure, with no output. |
| `Processor.MagicChecked` | src/HuffProcessor.java:171-174 | A stream that does not start with the 32 bits of `HUFF_TREE` is refused with the header error before any tree bit is read. A stream that does start with them passes the check. |
| `Processor.Compress` | src/HuffProcessor.java:44-56 | What `compress` produces is exactly, for a code table of `HuffmanTree(input)`: the 32 bits of `HUFF_TREE`, then the header of that tree, then the payload of the input, then zero bits up to a byte boundary. It decompresses to the input. It fails, only with the code conversion error, on empty input and on input of 257 bytes or more. `HuffmanTree(input)` is well weighted. For input of at most 256 bytes it has one leaf for each byte value that occurs plus one for `PSEUDO_EOF`. For 1 to 256 bytes, `compress` succeeds whenever that tree is at most 31 levels deep. |
| `Processor.SomeLeafCounted` | src/HuffProcessor.java:143-158 | The count table of any input has a positive count: `PSEUDO_EOF` below 257 bytes, the first byte otherwise. So tree building never fails inside `compress`. |
| `Processor.CountedLeaves` | src/HuffProcessor.java:143-158 | The counts of an input of at most 256 bytes give the tree one leaf for each byte value in the input and one for `PSEUDO_EOF`. |
| `Processor.ShallowTreeEncodes` | src/HuffProcessor.java:58-75 | For 1 to 256 bytes, the root is an internal node, so every code is non-empty. If the tree is at most 31 levels deep, every code also converts, so the payload is written. |
| `Huff.LeafPathWithinDepth` | src/HuffProcessor.java:102-116 | No code path is longer than the depth of the tree. |
| `Processor.EmptyInputFails` | src/HuffProcessor.java:73-74 | With empty input the tree is the single leaf `PSEUDO_EOF`. Its code is empty, so writing it fails. |
| `Processor.StreamRoundTrip` | src/HuffProcessor.java:169-180 | The magic number, then a tree's header, then bits that the tree read back from that header decodes: this decompresses to what those bits decode to. |
| `Processor.CompressedRoundTrip` | src/HuffProcessor.java:44-56 | Magic number, then the header of the tree, then the payload from that tree's code table, then any padding: this decompresses to the input. |

## Left out

- The bit stream classes are not part of this model, and neither is their buffering. A read is `Bits.ReadBits`: it returns -1 and consumes the rest when fewer bits remain. A write appends the low n bits. `close()` pads with zero bits.
- `in.reset()` between the two passes of `compress` is not modelled as a call. Both passes read the same input sequence.
- The priority queue's tie-breaking and `HuffNode.compareTo` are not part of this model. Removal takes the first tree of least weight in queue order (`TreeBuilding.MinIndex`), while Java's binary heap may take another tree of the same weight. For input `[97, 98]` the model builds `Node(Leaf 256, Node(97, 98))`, and Java's heap builds `Node(98, Node(97, 256))`.
  - These follow the first-minimum rule: the exact tree (`Greedy`, `HuffmanTree`), the header bits `Processor.Compress` writes, and the depth premise of its success clause.
  - These hold whichever equally light tree is taken: `HeaderRoundTrip`, `PayloadRoundTrip` and `CompressedRoundTrip`, which hold for any tree; the leaf set and weights of `MakeTreeFromCounts`; the minimality of each removal in `MergeLightest`; and prefix-freeness.
- Payload.Emit: a code of 32 or more characters is modelled as a conversion failure. In Java, `parseInt` can accept such a code when it has leading zeros, and what `writeBits` then does is not part of this model. A code of 1 to 31 characters always converts and is written exactly.
- Processor.Compress: success for 1 to 256 bytes is proved only when `HuffmanTree(input)` is at most 31 levels deep. The model does not prove that a Huffman tree over at most 257 units of weight stays within that depth. That would need a Fibonacci-style bound relating weight to depth.
- Output written to the stream before an exception is not modelled. An `Err` carries no partial output.
- The `root == null` test in `codingHelper` has no counterpart, because a `HuffNode` value is never null and a node's children are never null.
- The debug level, `DEBUG_HIGH`/`DEBUG_LOW` and the exception message strings are left out: they do not affect what is computed.
- Integer overflow is not modelled. At most 257 bytes are counted, so no count and no weight comes near the range of a Java `int`.
