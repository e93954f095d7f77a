/**
 * The self-delimiting tree header (`writeHeader` and `readTreeHeader`): a
 * pre-order walk that writes a 0 bit for an internal node and, for a leaf,
 * a 1 bit followed by its symbol in BITS_PER_WORD + 1 = 9 bits.
 */
module Header {
  import opened Bits
  import opened Huff

  /** The header bits of tree t. A leaf's symbol is written as its low 9 bits. */
  function WriteHeader(t: HuffNode): (bits: seq<bool>)
    ensures |bits| == InternalCount(t) + 10 * |ValueBag(t)|
    ensures |bits| > 0 && bits[0] == t.Leaf?
  {
    match t
    case Leaf(v, _) => [true] + ToBits(v, BITS_PER_WORD + 1)
    case Node(_, _, l, r) => [false] + WriteHeader(l) + WriteHeader(r)
  }

  /** A header holds one flag bit per node and 9 more bits per leaf: 11 bits
      per leaf, less one. */
  lemma HeaderSize(t: HuffNode)
    ensures |WriteHeader(t)| == 11 * |ValueBag(t)| - 1
  {
    InternalCountIsLeavesMinusOne(t);
  }

  /** Reads one tree from the front of `bits`: the tree and the unread bits.
      Running out of data at a flag bit fails; running out in a leaf's 9-bit
      symbol is not checked and yields a leaf holding -1. */
  function ReadTreeHeader(bits: seq<bool>): (r: Result<(HuffNode, seq<bool>)>)
    ensures r.Ok? ==> |r.value.1| < |bits|
    ensures bits == [] ==> r == Err(ReadingBitsFailed)
    ensures r.Err? ==> r.error == ReadingBitsFailed
    decreases |bits|
  {
    var (flag, rest) := ReadBits(bits, 1);
    if flag == -1 then Err(ReadingBitsFailed)
    else if flag == 0 then
      match ReadTreeHeader(rest)
      case Err(e) => Err(e)
      case Ok((left, rest')) =>
        match ReadTreeHeader(rest')
        case Err(e) => Err(e)
        case Ok((right, rest'')) => Ok((Node(0, 0, left, right), rest''))
    else
      var (value, rest') := ReadBits(rest, BITS_PER_WORD + 1);
      Ok((Leaf(value, 0), rest'))
  }

  /** Reading a leaf: flag 1, then the 9-bit symbol. */
  lemma ReadLeafHeader(tail: seq<bool>)
    ensures var (value, rest) := ReadBits(tail, BITS_PER_WORD + 1);
      ReadTreeHeader([true] + tail) == Ok((Leaf(value, 0), rest))
  {
    ReadOneBit([true] + tail);
    assert ([true] + tail)[1..] == tail;
  }

  /** Reading an internal node: flag 0, then the left and right subtrees. */
  lemma ReadNodeHeader(tail: seq<bool>, left: HuffNode, mid: seq<bool>, right: HuffNode, rest: seq<bool>)
    requires ReadTreeHeader(tail) == Ok((left, mid))
    requires ReadTreeHeader(mid) == Ok((right, rest))
    ensures ReadTreeHeader([false] + tail) == Ok((Node(0, 0, left, right), rest))
  {
    ReadOneBit([false] + tail);
    assert ([false] + tail)[1..] == tail;
  }

  lemma NodeHeaderBits(t: HuffNode, rest: seq<bool>)
    requires t.Node?
    ensures WriteHeader(t) + rest == [false] + (WriteHeader(t.left) + (WriteHeader(t.right) + rest))
  {
  }

  /** Header round trip: reading back the header of t, whatever follows it,
      rebuilds t with its shape and symbols (weights 0) and leaves exactly
      the bits that followed. */
  lemma {:induction false} HeaderRoundTrip(t: HuffNode, rest: seq<bool>)
    requires forall v | v in ValueBag(t) :: 0 <= v < Pow2(BITS_PER_WORD + 1)
    ensures ReadTreeHeader(WriteHeader(t) + rest) == Ok((Unweighted(t), rest))
  {
    match t
    case Leaf(v, _) =>
      var tail := ToBits(v, BITS_PER_WORD + 1) + rest;
      assert WriteHeader(t) + rest == [true] + tail;
      ReadWritten(v, BITS_PER_WORD + 1, rest);
      ReadLeafHeader(tail);
    case Node(_, _, l, r) =>
      assert forall v | v in ValueBag(l) || v in ValueBag(r) :: v in ValueBag(t);
      var mid := WriteHeader(r) + rest;
      var tail := WriteHeader(l) + mid;
      NodeHeaderBits(t, rest);
      HeaderRoundTrip(l, mid);
      HeaderRoundTrip(r, rest);
      ReadNodeHeader(tail, Unweighted(l), mid, Unweighted(r), rest);
  }

  /** A header cut short anywhere fails for lack of a flag bit, or, when
      the cut falls inside the last leaf's 9 symbol bits, yields a tree with
      nothing left unread. A cut that removes the last leaf's flag bit
      always fails. */
  lemma {:induction false} TruncatedHeader(t: HuffNode, k: nat)
    requires forall v | v in ValueBag(t) :: 0 <= v < Pow2(BITS_PER_WORD + 1)
    requires k < |WriteHeader(t)|
    ensures CutRead(ReadTreeHeader(WriteHeader(t)[..k]))
    ensures k + BITS_PER_WORD + 2 <= |WriteHeader(t)| ==>
      ReadTreeHeader(WriteHeader(t)[..k]) == Err(ReadingBitsFailed)
    decreases t, 1
  {
    if k == 0 {
      assert WriteHeader(t)[..k] == [];
    } else if t.Leaf? {
      var tail := ToBits(t.value, BITS_PER_WORD + 1)[..k - 1];
      assert WriteHeader(t)[..k] == [true] + tail;
      ReadLeafHeader(tail);
    } else {
      TruncatedNodeHeader(t, k);
    }
  }

  lemma {:induction false} TruncatedNodeHeader(t: HuffNode, k: nat)
    requires t.Node?
    requires forall v | v in ValueBag(t) :: 0 <= v < Pow2(BITS_PER_WORD + 1)
    requires 0 < k < |WriteHeader(t)|
    ensures CutRead(ReadTreeHeader(WriteHeader(t)[..k]))
    ensures k + BITS_PER_WORD + 2 <= |WriteHeader(t)| ==>
      ReadTreeHeader(WriteHeader(t)[..k]) == Err(ReadingBitsFailed)
    decreases t, 0
  {
    assert forall v | v in ValueBag(t.left) || v in ValueBag(t.right) :: v in ValueBag(t);
    var hl, hr := WriteHeader(t.left), WriteHeader(t.right);
    assert WriteHeader(t) == [false] + (hl + hr);
    FlagCut(hl, hr, k);
    if k - 1 < |hl| {
      TruncatedHeader(t.left, k - 1);
      CutInLeft(hl[..k - 1]);
    } else {
      var j := k - 1 - |hl|;
      HeaderRoundTrip(t.left, hr[..j]);
      TruncatedHeader(t.right, j);
      CutInRight(hl + hr[..j], Unweighted(t.left), hr[..j]);
    }
  }

  /** The first k bits of a flag followed by two headers: the flag, then a
      cut of the first, or the whole first and a cut of the second. */
  lemma FlagCut(hl: seq<bool>, hr: seq<bool>, k: nat)
    requires 0 < k <= 1 + |hl| + |hr|
    ensures k - 1 < |hl| ==> ([false] + (hl + hr))[..k] == [false] + hl[..k - 1]
    ensures k - 1 >= |hl| ==> ([false] + (hl + hr))[..k] == [false] + (hl + hr[..k - 1 - |hl|])
  {
    PrefixOfConcat([false], hl + hr, k);
    PrefixOfConcat(hl, hr, k - 1);
  }

  lemma PrefixOfConcat(a: seq<bool>, b: seq<bool>, k: nat)
    requires k <= |a| + |b|
    ensures k <= |a| ==> (a + b)[..k] == a[..k]
    ensures k >= |a| ==> (a + b)[..k] == a + b[..k - |a|]
  {
  }

  /** What reading a cut header may give: the flag failure, or a tree with
      nothing left unread. */
  predicate CutRead(r: Result<(HuffNode, seq<bool>)>)
  {
    r == Err(ReadingBitsFailed) || (r.Ok? && r.value.1 == [])
  }

  /** An internal node whose left subtree reads to the end of the data, or
      fails, fails. */
  lemma CutInLeft(tail: seq<bool>)
    requires CutRead(ReadTreeHeader(tail))
    ensures ReadTreeHeader([false] + tail) == Err(ReadingBitsFailed)
  {
    ReadOneBit([false] + tail);
    assert ([false] + tail)[1..] == tail;
  }

  /** An internal node whose left subtree reads whole and whose right subtree
      is cut reads as a cut: it fails exactly when the right subtree does. */
  lemma CutInRight(tail: seq<bool>, left: HuffNode, mid: seq<bool>)
    requires ReadTreeHeader(tail) == Ok((left, mid))
    requires CutRead(ReadTreeHeader(mid))
    ensures CutRead(ReadTreeHeader([false] + tail))
    ensures ReadTreeHeader(mid).Err? ==> ReadTreeHeader([false] + tail) == Err(ReadingBitsFailed)
  {
    ReadOneBit([false] + tail);
    assert ([false] + tail)[1..] == tail;
  }
}
