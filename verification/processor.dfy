/**
 * The two top-level operations of the processor, `compress` and
 * `decompress`, and the end-to-end properties that tie them together.
 */
module Processor {
  import opened Bits
  import opened Huff
  import Counting
  import TreeBuilding
  import Codings
  import Header
  import Payload

  /** The 32 bits of HUFF_TREE that start every compressed stream. */
  function MagicBits(): (bits: seq<bool>)
    ensures |bits| == BITS_PER_INT
  {
    ToBits(HUFF_TREE as int, BITS_PER_INT)
  }

  /** What closing the output does: zero bits up to a byte boundary. */
  function Padded(bits: seq<bool>): (r: seq<bool>)
    ensures |r| % 8 == 0 && bits <= r && |r| < |bits| + 8
    ensures forall i | |bits| <= i < |r| :: !r[i]
  {
    bits + seq((8 - |bits| % 8) % 8, _ => false)
  }

  /** Decompression as a function of the compressed bits: the magic number,
      then one tree header, then the payload decoded with that tree. */
  function Decompressed(bits: seq<bool>): Result<seq<byte>>
  {
    var (magic, rest) := ReadBits(bits, BITS_PER_INT);
    if magic != HUFF_TREE as int then Err(IllegalHeader)
    else
      match Header.ReadTreeHeader(rest)
      case Err(e) => Err(e)
      case Ok((root, payload)) =>
        match Payload.DecodePayload(root, root, payload)
        case Err(e) => Err(e)
        case Ok((out, _)) => Ok(out)
  }

  /** Checks the magic number, reads the tree header, then decodes the
      payload; every failure is fatal and yields no output. */
  method Decompress(bits: seq<bool>) returns (r: Result<seq<byte>>)
    ensures r == Decompressed(bits)
  {
    var (magic, rest) := ReadBits(bits, BITS_PER_INT);
    if magic != HUFF_TREE as int {
      return Err(IllegalHeader);
    }
    var header := Header.ReadTreeHeader(rest);
    if header.Err? {
      return Err(header.error);
    }
    var (root, payload) := header.value;
    var out := Payload.ReadCompressedBits(root, payload);
    if out.Err? {
      return Err(out.error);
    }
    r := Ok(out.value);
  }

  /** A stream that does not start with the 32 bits of HUFF_TREE is refused
      before any tree bit is read; one that does passes the check. */
  lemma MagicChecked(bits: seq<bool>)
    ensures !(MagicBits() <= bits) ==> Decompressed(bits) == Err(IllegalHeader)
    ensures MagicBits() <= bits ==> ReadBits(bits, BITS_PER_INT) == (HUFF_TREE as int, bits[BITS_PER_INT..])
  {
    var (magic, rest) := ReadBits(bits, BITS_PER_INT);
    Pow2Widths();
    if MagicBits() <= bits {
      assert bits == MagicBits() + bits[BITS_PER_INT..];
      ReadWritten(HUFF_TREE as int, BITS_PER_INT, bits[BITS_PER_INT..]);
    } else if magic == HUFF_TREE as int {
      ToFromBits(bits[..BITS_PER_INT]);
      assert false;
    }
  }

  /** The leaves `compress` gives the tree of an input of at most 256 bytes:
      each byte value occurring in it, and PSEUDO_EOF, once each. */
  ghost predicate LeavesOfInput(t: HuffNode, input: seq<byte>)
  {
    forall v :: ValueBag(t)[v] == if v == PSEUDO_EOF || (0 <= v < ALPH_SIZE && v in input) then 1 else 0
  }

  /** Some symbol always gets a leaf: PSEUDO_EOF for fewer than 257 bytes,
      the first byte otherwise. */
  lemma SomeLeafCounted(input: seq<byte>)
    ensures |TreeBuilding.InitialLeaves(Counting.Counts(input), ALPH_SIZE + 1)| > 0
  {
    var counts := Counting.Counts(input);
    if |input| <= ALPH_SIZE {
      TreeBuilding.InitialLeavesNonEmpty(counts, ALPH_SIZE + 1, PSEUDO_EOF);
    } else {
      assert input[..ALPH_SIZE + 1][0] == input[0];
      assert counts[input[0]] > 0;
      TreeBuilding.InitialLeavesNonEmpty(counts, ALPH_SIZE + 1, input[0]);
    }
  }

  /** The Huffman tree `compress` builds for `input`: the greedy merge of
      the leaves of its count table. */
  ghost function HuffmanTree(input: seq<byte>): HuffNode
  {
    SomeLeafCounted(input);
    TreeBuilding.Greedy(TreeBuilding.InitialLeaves(Counting.Counts(input), ALPH_SIZE + 1))
  }

  /** Compresses `input`: counts, builds the tree and the code table, then
      writes the magic number, the tree header and the payload, and pads to
      a byte boundary. Whatever it produces starts with the header of
      `HuffmanTree(input)` and decompresses to `input`. It fails on empty
      input (the lone PSEUDO_EOF leaf has the empty code) and on input of
      257 bytes or more (PSEUDO_EOF is never counted, so it has no code).
      For 1 to 256 bytes it succeeds whenever that tree is no deeper than
      31, so every code converts. */
  method Compress(input: seq<byte>) returns (r: Result<seq<bool>>)
    ensures r.Ok? ==> Decompressed(r.value) == Ok(input)
    ensures r.Ok? ==> MagicBits() + Header.WriteHeader(HuffmanTree(input)) <= r.value
    ensures r.Ok? ==> |r.value| % 8 == 0
    ensures r.Ok? ==> exists codes ::
              && Codings.IsCodeTable(HuffmanTree(input), codes)
              && Payload.EncodePayload(codes, input).Ok?
              && r.value == Padded(MagicBits() + Header.WriteHeader(HuffmanTree(input)) + Payload.EncodePayload(codes, input).value)
    ensures r.Err? ==> r.error == CodeConversion
    ensures |input| == 0 ==> r.Err?
    ensures |input| > ALPH_SIZE ==> r.Err?
    ensures WellWeighted(HuffmanTree(input))
    ensures |input| <= ALPH_SIZE ==> LeavesOfInput(HuffmanTree(input), input)
    ensures 1 <= |input| <= ALPH_SIZE && MaxDepth(HuffmanTree(input)) <= 31 ==> r.Ok?
  {
    var counts := Counting.ReadForCounts(input);
    if |input| > ALPH_SIZE {
      assert input[..ALPH_SIZE + 1][0] == input[0];
      assert counts[input[0]] > 0;
    } else {
      assert counts[PSEUDO_EOF] > 0;
    }
    var built := TreeBuilding.MakeTreeFromCounts(counts);
    assert built.Ok?;
    var root := built.value;
    assert root == HuffmanTree(input);
    var codes := Codings.MakeCodingsFromTree(root);
    var header := Header.WriteHeader(root);
    var payload := Payload.WriteCompressedBits(codes, input);
    if |input| <= ALPH_SIZE {
      CountedLeaves(input, counts, root);
      if |input| == 0 {
        EmptyInputFails(root, codes);
      } else if MaxDepth(root) <= 31 {
        ShallowTreeEncodes(input, root, codes);
      }
    } else {
      assert ValueBag(root)[PSEUDO_EOF] == 0;
      if payload.Ok? {
        Payload.EncodeNeedsEof(codes, input);
      }
    }
    if payload.Err? {
      return Err(payload.error);
    }
    var bits := MagicBits() + header + payload.value;
    var padded := Padded(bits);
    CompressedRoundTrip(root, codes, input, padded[|bits|..]);
    assert padded == bits + padded[|bits|..];
    assert MagicBits() + header <= bits;
    r := Ok(padded);
    assert Codings.IsCodeTable(HuffmanTree(input), codes) && payload == Payload.EncodePayload(codes, input);
  }

  /** The counts of an input of at most 256 bytes give it the tree leaves
      of `LeavesOfInput`. */
  lemma CountedLeaves(input: seq<byte>, counts: seq<int>, root: HuffNode)
    requires |input| <= ALPH_SIZE
    requires |counts| == ALPH_SIZE + 1 && counts[PSEUDO_EOF] == 1
    requires forall b | 0 <= b < ALPH_SIZE :: counts[b] == multiset(input)[b]
    requires forall v :: ValueBag(root)[v] == if 0 <= v < |counts| && counts[v] > 0 then 1 else 0
    ensures LeavesOfInput(root, input)
  {
    forall v
      ensures ValueBag(root)[v] == if v == PSEUDO_EOF || (0 <= v < ALPH_SIZE && v in input) then 1 else 0
    {
      if 0 <= v < ALPH_SIZE {
        assert (v in input) <==> (v in multiset(input));
      }
    }
  }

  /** For 1 to 256 bytes of input, the tree has at least the leaves
      PSEUDO_EOF and input[0], so every code is non-empty; a tree no deeper
      than 31 then gives every code a length that converts. */
  lemma ShallowTreeEncodes(input: seq<byte>, root: HuffNode, codes: Codings.CodeTable)
    requires 1 <= |input| <= ALPH_SIZE
    requires LeavesOfInput(root, input)
    requires Codings.IsCodeTable(root, codes)
    requires MaxDepth(root) <= 31
    ensures Payload.EncodePayload(codes, input).Ok?
  {
    assert ValueBag(root)[PSEUDO_EOF] == 1;
    assert input[0] in input;
    assert ValueBag(root)[input[0]] == 1;
    assert root.Node?;
    Codings.CodesPrefixFree(root, codes);
    forall v | 0 <= v < |codes| && ValueBag(root)[v] == 1
      ensures Payload.Emit(codes[v]).Ok?
    {
      LeafPathWithinDepth(root, codes[v].value, v);
    }
    forall i | 0 <= i < |input|
      ensures Payload.Emit(codes[input[i]]).Ok?
    {
      assert input[i] in input;
      assert ValueBag(root)[input[i]] == 1;
    }
    Payload.EncodeSucceeds(codes, input);
  }

  /** With empty input the tree is the single leaf PSEUDO_EOF, whose code is
      empty, so writing it fails. */
  lemma EmptyInputFails(root: HuffNode, codes: Codings.CodeTable)
    requires LeavesOfInput(root, [])
    requires Codings.IsCodeTable(root, codes)
    ensures Payload.EncodePayload(codes, []).Err?
  {
    forall v
      ensures ValueBag(root)[v] == multiset{PSEUDO_EOF as int}[v]
    {
    }
    assert ValueBag(root) == multiset{PSEUDO_EOF as int};
    var c := codes[PSEUDO_EOF].value;
    assert IsLeafPath(root, c, PSEUDO_EOF);
    assert c == [];
  }

  /** The stream Compress builds, followed by any padding, decompresses to
      its input. */
  lemma CompressedRoundTrip(root: HuffNode, codes: Codings.CodeTable, input: seq<byte>, pad: seq<bool>)
    requires Codings.SymbolsInTable(root)
    requires Codings.IsCodeTable(root, codes)
    requires Payload.EncodePayload(codes, input).Ok?
    ensures Decompressed(MagicBits() + Header.WriteHeader(root) + Payload.EncodePayload(codes, input).value + pad) == Ok(input)
  {
    var header := Header.WriteHeader(root);
    var payload := Payload.EncodePayload(codes, input).value;
    CodesOfUnweighted(root, codes);
    Payload.PayloadRoundTrip(Unweighted(root), codes, input, pad);
    StreamRoundTrip(root, payload + pad, input, pad);
    Regroup(MagicBits(), header, payload, pad);
  }

  lemma Regroup(a: seq<bool>, b: seq<bool>, c: seq<bool>, d: seq<bool>)
    ensures a + b + c + d == a + (b + (c + d))
  {
  }

  /** The magic number and the header of root, then bits that the tree
      read back from that header decodes to `out`: this decompresses to `out`. */
  lemma StreamRoundTrip(root: HuffNode, rest: seq<bool>, out: seq<byte>, pad: seq<bool>)
    requires Codings.SymbolsInTable(root)
    requires Payload.DecodePayload(Unweighted(root), Unweighted(root), rest) == Ok((out, pad))
    ensures Decompressed(MagicBits() + (Header.WriteHeader(root) + rest)) == Ok(out)
  {
    var tail := Header.WriteHeader(root) + rest;
    var bits := MagicBits() + tail;
    MagicChecked(bits);
    assert bits[BITS_PER_INT..] == tail;
    HeaderTreeReadBack(root, rest);
    DecompressedSteps(bits, tail, Unweighted(root), rest, out, pad);
  }

  lemma DecompressedSteps(bits: seq<bool>, tail: seq<bool>, tree: HuffNode, payload: seq<bool>, out: seq<byte>, pad: seq<bool>)
    requires ReadBits(bits, BITS_PER_INT) == (HUFF_TREE as int, tail)
    requires Header.ReadTreeHeader(tail) == Ok((tree, payload))
    requires Payload.DecodePayload(tree, tree, payload) == Ok((out, pad))
    ensures Decompressed(bits) == Ok(out)
  {
  }

  lemma HeaderTreeReadBack(root: HuffNode, rest: seq<bool>)
    requires Codings.SymbolsInTable(root)
    ensures Header.ReadTreeHeader(Header.WriteHeader(root) + rest) == Ok((Unweighted(root), rest))
  {
    Pow2Widths();
    Header.HeaderRoundTrip(root, rest);
  }

  lemma CodesOfUnweighted(root: HuffNode, codes: Codings.CodeTable)
    requires Codings.IsCodeTable(root, codes)
    ensures Payload.CodesLeadToLeaves(Unweighted(root), codes)
  {
    forall v | 0 <= v < |codes| && codes[v].Some?
      ensures IsLeafPath(Unweighted(root), codes[v].value, v)
    {
      UnweightedKeepsLeafPaths(root, codes[v].value, v);
    }
  }
}
