/**
 * Constants, error kinds and the Huffman tree shared by every stage of the
 * processor: counting, tree building, code derivation, the tree header and
 * the payload.
 */
module Huff {

  const BITS_PER_WORD: nat := 8
  const BITS_PER_INT: nat := 32
  const ALPH_SIZE: nat := 256
  /** The end-of-stream symbol, one past the largest byte value. */
  const PSEUDO_EOF: nat := ALPH_SIZE
  const HUFF_NUMBER: bv32 := 0xface8200
  /** The 32-bit magic number that starts every compressed stream. */
  const HUFF_TREE: bv32 := HUFF_NUMBER | 1

  type byte = b: int | 0 <= b < 256

  /** The exceptions the processor raises, one constructor per throw site,
      except that CodeConversion covers every failure of writing a code. */
  datatype HuffError =
    | IllegalHeader      // decompress: the first 32 bits are not HUFF_TREE
    | ReadingBitsFailed  // readTreeHeader: a flag bit read hits the end of data
    | NoPseudoEof        // readCompressedBits: data ends before the PSEUDO_EOF leaf
    | NullChild          // readCompressedBits: a step below a leaf root (null dereference)
    | EmptyQueue         // makeTreeFromCounts: remove() on an empty priority queue
    | CodeConversion     // writeCompressedBits: parseInt on a null or empty code, or
                         // code.length() on a null PSEUDO_EOF code

  datatype Result<T> = Ok(value: T) | Err(error: HuffError)

  datatype Option<T> = None | Some(value: T)

  /** A node of the Huffman tree. Leaves carry a symbol; internal nodes always
      have two children, so the tree is full. */
  datatype HuffNode =
    | Leaf(value: int, weight: int)
    | Node(value: int, weight: int, left: HuffNode, right: HuffNode)

  /** The symbols at the leaves, with multiplicity. */
  function ValueBag(t: HuffNode): (b: multiset<int>)
    ensures |b| >= 1
  {
    match t
    case Leaf(v, _) => multiset{v}
    case Node(_, _, l, r) => ValueBag(l) + ValueBag(r)
  }

  /** The symbol of the leftmost leaf, a witness that every tree has a leaf. */
  function LeftmostValue(t: HuffNode): (v: int)
    ensures v in ValueBag(t)
  {
    match t
    case Leaf(v, _) => v
    case Node(_, _, l, _) => LeftmostValue(l)
  }

  function InternalCount(t: HuffNode): nat
  {
    match t
    case Leaf(_, _) => 0
    case Node(_, _, l, r) => 1 + InternalCount(l) + InternalCount(r)
  }

  /** A full binary tree has one internal node fewer than it has leaves. */
  lemma {:induction false} InternalCountIsLeavesMinusOne(t: HuffNode)
    ensures InternalCount(t) + 1 == |ValueBag(t)|
  {
    match t
    case Leaf(_, _) =>
    case Node(_, _, l, r) =>
      InternalCountIsLeavesMinusOne(l);
      InternalCountIsLeavesMinusOne(r);
  }

  /** Every internal node weighs as much as its two children together. */
  predicate WellWeighted(t: HuffNode)
  {
    match t
    case Leaf(_, _) => true
    case Node(_, w, l, r) => w == l.weight + r.weight && WellWeighted(l) && WellWeighted(r)
  }

  /** The node reached from t along path p (false = left, true = right), or
      None when a step would go below a leaf. */
  function Follow(t: HuffNode, p: seq<bool>): Option<HuffNode>
  {
    if p == [] then Some(t)
    else match t
      case Leaf(_, _) => None
      case Node(_, _, l, r) => Follow(if p[0] then r else l, p[1..])
  }

  /** Path p leads from t exactly to a leaf holding v. */
  predicate IsLeafPath(t: HuffNode, p: seq<bool>, v: int)
  {
    var f := Follow(t, p);
    f.Some? && f.value.Leaf? && f.value.value == v
  }

  /** Leaf paths are prefix-free: a path to a leaf is never a proper prefix of
      another path to a leaf, and equal paths lead to the same symbol. */
  lemma {:induction false} LeafPathsPrefixFree(t: HuffNode, p: seq<bool>, q: seq<bool>, v: int, w: int)
    requires IsLeafPath(t, p, v) && IsLeafPath(t, q, w)
    requires p <= q
    ensures p == q && v == w
  {
    if p != [] {
      var child := if p[0] then t.right else t.left;
      assert q[0] == p[0];
      assert Follow(t, p) == Follow(child, p[1..]);
      assert Follow(t, q) == Follow(child, q[1..]);
      LeafPathsPrefixFree(child, p[1..], q[1..], v, w);
    }
  }

  /** The length of the longest path from t down to a leaf. */
  function MaxDepth(t: HuffNode): nat
  {
    match t
    case Leaf(_, _) => 0
    case Node(_, _, l, r) => 1 + (if MaxDepth(l) < MaxDepth(r) then MaxDepth(r) else MaxDepth(l))
  }

  /** No leaf path is longer than the depth of the tree. */
  lemma {:induction false} LeafPathWithinDepth(t: HuffNode, p: seq<bool>, v: int)
    requires IsLeafPath(t, p, v)
    ensures |p| <= MaxDepth(t)
    decreases p
  {
    if p != [] {
      var child := if p[0] then t.right else t.left;
      assert Follow(t, p) == Follow(child, p[1..]);
      LeafPathWithinDepth(child, p[1..], v);
    }
  }

  /** The tree as the header reader rebuilds it: the same shape and leaf
      symbols, every weight 0 and every internal value 0. */
  function Unweighted(t: HuffNode): (u: HuffNode)
  {
    match t
    case Leaf(v, _) => Leaf(v, 0)
    case Node(_, _, l, r) => Node(0, 0, Unweighted(l), Unweighted(r))
  }

  /** Dropping the weights keeps every leaf path and its symbol. */
  lemma {:induction false} UnweightedKeepsLeafPaths(t: HuffNode, p: seq<bool>, v: int)
    ensures IsLeafPath(Unweighted(t), p, v) <==> IsLeafPath(t, p, v)
    decreases p
  {
    if p != [] && t.Node? {
      UnweightedKeepsLeafPaths(if p[0] then t.right else t.left, p[1..], v);
    }
  }

  lemma {:induction false} UnweightedKeepsValues(t: HuffNode)
    ensures ValueBag(Unweighted(t)) == ValueBag(t)
  {
    if t.Node? {
      UnweightedKeepsValues(t.left);
      UnweightedKeepsValues(t.right);
    }
  }
}
