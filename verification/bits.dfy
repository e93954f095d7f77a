/**
 * Bit-level view of the stream collaborators used by the Huffman processor.
 * A bit stream is a `seq<bool>`, most significant bit of every field first;
 * `true` is a 1 bit.
 */
module Bits {

  function Pow2(n: nat): (p: nat)
    ensures p >= 1
  {
    if n == 0 then 1 else 2 * Pow2(n - 1)
  }

  /** The field widths the processor uses: 9-bit symbols and 32-bit words. */
  lemma Pow2Widths()
    ensures Pow2(9) == 512 && Pow2(32) == 0x1_0000_0000
  {
    assert Pow2(9) == 512;
    assert Pow2(16) == 0x1_0000;
    assert Pow2(20) == 0x10_0000;
    assert Pow2(24) == 0x100_0000;
    assert Pow2(28) == 0x1000_0000;
    assert Pow2(32) == 0x1_0000_0000;
  }

  /** The n low-order bits of v, most significant first: what `writeBits(n, v)`
      appends. Dafny's `/` and `%` by 2 are Euclidean, so for a negative v these
      are the low bits of its two's-complement form, as in Java. */
  function ToBits(v: int, n: nat): (bs: seq<bool>)
    ensures |bs| == n
    decreases n
  {
    if n == 0 then [] else ToBits(v / 2, n - 1) + [v % 2 == 1]
  }

  /** The unsigned value of a bit field, most significant bit first. */
  function FromBits(bs: seq<bool>): (v: nat)
    ensures v < Pow2(|bs|)
  {
    if bs == [] then 0
    else 2 * FromBits(bs[..|bs| - 1]) + (if bs[|bs| - 1] then 1 else 0)
  }

  /** A value that fits in n bits survives being written and read back. */
  lemma {:induction false} FromToBits(v: int, n: nat)
    requires 0 <= v < Pow2(n)
    ensures FromBits(ToBits(v, n)) == v
  {
    if n > 0 {
      var bs := ToBits(v, n);
      assert bs[..n - 1] == ToBits(v / 2, n - 1);
      FromToBits(v / 2, n - 1);
    }
  }

  /** `readBits(n)`: the value of the next n bits and the bits after them, or
      -1 when fewer than n bits remain; the stream is then exhausted. */
  function ReadBits(s: seq<bool>, n: nat): (r: (int, seq<bool>))
    ensures r.0 == -1 <==> |s| < n
    ensures r.0 != -1 ==> 0 <= r.0 < Pow2(n) && s == s[..n] + r.1
    ensures r.0 == -1 ==> r.1 == []
  {
    if |s| < n then (-1, []) else (FromBits(s[..n]) as int, s[n..])
  }

  /** Reading n bits right after writing v in n bits gives v back and leaves
      exactly what followed. */
  lemma ReadWritten(v: int, n: nat, rest: seq<bool>)
    requires 0 <= v < Pow2(n)
    ensures ReadBits(ToBits(v, n) + rest, n) == (v, rest)
  {
    var s := ToBits(v, n) + rest;
    assert s[..n] == ToBits(v, n);
    assert s[n..] == rest;
    FromToBits(v, n);
  }

  /** A single-bit read yields 1 for a set bit and 0 for a clear one. */
  lemma ReadOneBit(s: seq<bool>)
    requires |s| > 0
    ensures ReadBits(s, 1) == (if s[0] then 1 else 0, s[1..])
  {
    assert s[..1][..0] == [];
  }

  /** Writing the value of a bit field back in as many bits gives the field. */
  lemma {:induction false} ToFromBits(bs: seq<bool>)
    ensures ToBits(FromBits(bs), |bs|) == bs
  {
    if bs != [] {
      var init := bs[..|bs| - 1];
      var v := FromBits(bs);
      assert v / 2 == FromBits(init);
      ToFromBits(init);
      assert bs == init + [bs[|bs| - 1]];
    }
  }
}
