/**
 * Code derivation (`makeCodingsFromTree` and `codingHelper`): every leaf's
 * symbol gets the path from the root to that leaf, left = 0 and right = 1.
 */
module Codings {
  import opened Huff

  /** One slot per symbol 0..PSEUDO_EOF; None stands for Java's null. */
  type CodeTable = seq<Option<seq<bool>>>

  /** Every leaf symbol fits in a table slot. */
  predicate SymbolsInTable(t: HuffNode)
  {
    forall v | v in ValueBag(t) :: 0 <= v < ALPH_SIZE + 1
  }

  /** codes is the code table of tree t: a slot is set exactly for the leaf
      symbols of t, and a set slot holds a path from the root to a leaf with
      that symbol. */
  predicate IsCodeTable(t: HuffNode, codes: CodeTable)
  {
    && |codes| == ALPH_SIZE + 1
    && (forall v | 0 <= v < |codes| :: codes[v].Some? <==> v in ValueBag(t))
    && (forall v | 0 <= v < |codes| && codes[v].Some? :: IsLeafPath(t, codes[v].value, v))
  }

  /** Slot c holds a code for v that extends `path` by a leaf path of t,
      where `path` leads from the tree's root to t. */
  predicate Recorded(t: HuffNode, path: seq<bool>, c: Option<seq<bool>>, v: int)
  {
    c.Some? && path <= c.value && IsLeafPath(t, c.value[|path|..], v)
  }

  /** A code recorded below a child is recorded below its parent. */
  lemma StepDown(t: HuffNode, path: seq<bool>, bit: bool, c: Option<seq<bool>>, v: int)
    requires t.Node?
    requires Recorded(if bit then t.right else t.left, path + [bit], c, v)
    ensures Recorded(t, path, c, v)
  {
    var code := c.value;
    assert code[|path|] == (path + [bit])[|path|];
    assert code[|path|..][1..] == code[|path| + 1..];
  }

  /** Records in `encodings` the code of every leaf below `root`, where `path`
      is the path from the tree's root down to `root`. Slots of other symbols
      are left alone. */
  method CodingHelper(root: HuffNode, path: seq<bool>, encodings: array<Option<seq<bool>>>)
    requires forall v | v in ValueBag(root) :: 0 <= v < encodings.Length
    modifies encodings
    ensures forall v | 0 <= v < encodings.Length ::
      if v in ValueBag(root) then Recorded(root, path, encodings[v], v)
      else encodings[v] == old(encodings[v])
    decreases root
  {
    match root
    case Leaf(v, _) =>
      encodings[v] := Some(path);
      assert path[|path|..] == [];
    case Node(_, _, l, r) =>
      assert ValueBag(root) == ValueBag(l) + ValueBag(r);
      assert forall v | v in ValueBag(l) || v in ValueBag(r) :: v in ValueBag(root);
      ghost var before := encodings[..];
      CodingHelper(l, path + [false], encodings);
      ghost var afterLeft := encodings[..];
      CodingHelper(r, path + [true], encodings);
      forall v | 0 <= v < encodings.Length
        ensures if v in ValueBag(root) then Recorded(root, path, encodings[v], v)
                else encodings[v] == before[v]
      {
        if v in ValueBag(r) {
          StepDown(root, path, true, encodings[v], v);
        } else if v in ValueBag(l) {
          assert encodings[v] == afterLeft[v];
          StepDown(root, path, false, encodings[v], v);
        } else {
          assert encodings[v] == afterLeft[v] == before[v];
        }
      }
  }

  /** The code table of a tree: the path of every leaf symbol, null elsewhere. */
  method MakeCodingsFromTree(root: HuffNode) returns (codes: CodeTable)
    requires SymbolsInTable(root)
    ensures IsCodeTable(root, codes)
  {
    var encodings := new Option<seq<bool>>[ALPH_SIZE + 1](_ => None);
    CodingHelper(root, [], encodings);
    codes := encodings[..];
    forall v | 0 <= v < |codes| && codes[v].Some?
      ensures IsLeafPath(root, codes[v].value, v)
    {
      assert codes[v].value[0..] == codes[v].value;
    }
  }

  /** The codes of distinct symbols are prefix-free, and when the root is an
      internal node every code is non-empty. */
  lemma CodesPrefixFree(root: HuffNode, codes: CodeTable)
    requires IsCodeTable(root, codes)
    ensures forall v, w | 0 <= v < |codes| && 0 <= w < |codes| && v != w &&
      codes[v].Some? && codes[w].Some? :: !(codes[v].value <= codes[w].value)
    ensures root.Node? ==> forall v | 0 <= v < |codes| && codes[v].Some? :: |codes[v].value| > 0
  {
    forall v, w | 0 <= v < |codes| && 0 <= w < |codes| && v != w &&
      codes[v].Some? && codes[w].Some?
      ensures !(codes[v].value <= codes[w].value)
    {
      if codes[v].value <= codes[w].value {
        LeafPathsPrefixFree(root, codes[v].value, codes[w].value, v, w);
      }
    }
  }
}
