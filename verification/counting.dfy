/**
 * The counting pass of compression (`readForCounts`): one 8-bit read per
 * symbol into a table of ALPH_SIZE + 1 counters.
 */
module Counting {
  import opened Huff

  /** The count table `readForCounts` produces for `input`: the
      occurrences of each byte among the first 257 bytes, and 1 in the
      PSEUDO_EOF slot exactly when the input ends before a 258th read. */
  function Counts(input: seq<byte>): (freq: seq<int>)
    ensures |freq| == ALPH_SIZE + 1
  {
    var n := if |input| <= ALPH_SIZE then |input| else ALPH_SIZE + 1;
    seq(ALPH_SIZE + 1, b =>
      if b == PSEUDO_EOF then (if |input| <= ALPH_SIZE then 1 else 0)
      else multiset(input[..n])[b])
  }

  /** Counts the bytes of `input`. At most 257 reads are made: for fewer than
      257 bytes every byte is counted and the PSEUDO_EOF slot is 1; otherwise
      only the first 257 bytes are counted and the PSEUDO_EOF slot stays 0. */
  method ReadForCounts(input: seq<byte>) returns (freq: seq<int>)
    ensures |freq| == ALPH_SIZE + 1
    ensures |input| < ALPH_SIZE + 1 ==>
      freq[PSEUDO_EOF] == 1 &&
      forall b | 0 <= b < ALPH_SIZE :: freq[b] == multiset(input)[b]
    ensures |input| >= ALPH_SIZE + 1 ==>
      freq[PSEUDO_EOF] == 0 &&
      forall b | 0 <= b < ALPH_SIZE :: freq[b] == multiset(input[..ALPH_SIZE + 1])[b]
    ensures freq == Counts(input)
  {
    var counts := new int[ALPH_SIZE + 1](_ => 0);
    var i := 0;
    while i < counts.Length
      invariant 0 <= i <= counts.Length && i <= |input|
      invariant counts[PSEUDO_EOF] == 0
      invariant forall b | 0 <= b < ALPH_SIZE :: counts[b] == multiset(input[..i])[b]
    {
      // readBits(BITS_PER_WORD) on the input returns -1 at end of data
      var bitValue := if i < |input| then input[i] else -1;
      if bitValue == -1 {
        counts[PSEUDO_EOF] := 1;
        break;
      }
      counts[bitValue] := counts[bitValue] + 1;
      assert input[..i + 1] == input[..i] + [input[i]];
      i := i + 1;
    }
    if i == |input| {
      assert input[..i] == input;
    }
    freq := counts[..];
    assert input[..i] == input[..(if |input| <= ALPH_SIZE then |input| else ALPH_SIZE + 1)];
    assert forall b | 0 <= b < |freq| :: freq[b] == Counts(input)[b];
  }
}
