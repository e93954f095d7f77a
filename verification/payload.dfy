/**
 * The payload (`writeCompressedBits` and `readCompressedBits`): the code of
 * every input byte followed by the code of PSEUDO_EOF, and the bit-by-bit
 * walk down the tree that turns it back into bytes.
 */
module Payload {
  import opened Bits
  import opened Huff
  import opened Codings

  /** Writing one code string: `Integer.parseInt(code, 2)`, then
      `writeBits(code.length(), value)`. The conversion fails for a null or
      empty string; strings of 32 characters or more are counted as failing
      too (see README). A code that converts is written exactly. */
  function Emit(code: Option<seq<bool>>): (r: Result<seq<bool>>)
    ensures r.Ok? <==> code.Some? && 1 <= |code.value| <= 31
    ensures r.Ok? ==> r.value == code.value
    ensures r.Err? ==> r.error == CodeConversion
  {
    if code.Some? && 1 <= |code.value| <= 31 then
      ToFromBits(code.value);
      Ok(ToBits(FromBits(code.value), |code.value|))
    else Err(CodeConversion)
  }

  /** `a` written in front of whatever r writes; a failure stays a failure. */
  function Then(a: seq<bool>, r: Result<seq<bool>>): Result<seq<bool>>
  {
    if r.Ok? then Ok(a + r.value) else r
  }

  lemma ThenNil(r: Result<seq<bool>>)
    ensures Then([], r) == r
  {
    if r.Ok? {
      assert [] + r.value == r.value;
    }
  }

  lemma ThenThen(a: seq<bool>, b: seq<bool>, r: Result<seq<bool>>)
    ensures Then(a, Then(b, r)) == Then(a + b, r)
  {
    if r.Ok? {
      assert a + (b + r.value) == (a + b) + r.value;
    }
  }

  /** The payload bits of `input`: the code of each byte in order, then the
      code of PSEUDO_EOF. */
  function EncodePayload(codes: CodeTable, input: seq<byte>): (r: Result<seq<bool>>)
    requires |codes| == ALPH_SIZE + 1
    ensures r.Err? ==> r.error == CodeConversion
  {
    if input == [] then Emit(codes[PSEUDO_EOF])
    else
      match Emit(codes[input[0]])
      case Err(e) => Err(e)
      case Ok(c) => Then(c, EncodePayload(codes, input[1..]))
  }

  /** The encoding loop: read a byte, write its code, until end of data;
      then write the code of PSEUDO_EOF. */
  method WriteCompressedBits(codes: CodeTable, input: seq<byte>) returns (r: Result<seq<bool>>)
    requires |codes| == ALPH_SIZE + 1
    ensures r == EncodePayload(codes, input)
  {
    var out: seq<bool> := [];
    var i := 0;
    assert input[0..] == input;
    ThenNil(EncodePayload(codes, input));
    while true
      invariant 0 <= i <= |input|
      invariant EncodePayload(codes, input) == Then(out, EncodePayload(codes, input[i..]))
      decreases |input| - i
    {
      // readBits(8) on the input returns -1 at end of data
      var bitValue := if i < |input| then input[i] else -1;
      if bitValue == -1 {
        break;
      }
      assert input[i..][0] == input[i] && input[i..][1..] == input[i + 1..];
      var code := Emit(codes[bitValue]);
      if code.Err? {
        return Err(code.error);
      }
      ThenThen(out, code.value, EncodePayload(codes, input[i + 1..]));
      out := out + code.value;
      i := i + 1;
    }
    assert input[i..] == [];
    var eof := Emit(codes[PSEUDO_EOF]);
    if eof.Err? {
      return Err(eof.error);
    }
    r := Ok(out + eof.value);
  }

  /** A payload is only written when PSEUDO_EOF has a writable code. */
  lemma {:induction false} EncodeNeedsEof(codes: CodeTable, input: seq<byte>)
    requires |codes| == ALPH_SIZE + 1
    requires EncodePayload(codes, input).Ok?
    ensures Emit(codes[PSEUDO_EOF]).Ok?
  {
    if input != [] {
      EncodeNeedsEof(codes, input[1..]);
    }
  }

  /** Encoding succeeds when every input byte and PSEUDO_EOF have a code
      that converts. */
  lemma {:induction false} EncodeSucceeds(codes: CodeTable, input: seq<byte>)
    requires |codes| == ALPH_SIZE + 1
    requires forall i | 0 <= i < |input| :: Emit(codes[input[i]]).Ok?
    requires Emit(codes[PSEUDO_EOF]).Ok?
    ensures EncodePayload(codes, input).Ok?
  {
    if input != [] {
      assert forall i | 0 <= i < |input[1..]| :: input[1..][i] == input[i + 1];
      EncodeSucceeds(codes, input[1..]);
    }
  }

  /** `out` emitted in front of what r decodes; a failure stays a failure. */
  function Emitted(out: seq<byte>, r: Result<(seq<byte>, seq<bool>)>): Result<(seq<byte>, seq<bool>)>
  {
    if r.Ok? then Ok((out + r.value.0, r.value.1)) else r
  }

  lemma EmittedNil(r: Result<(seq<byte>, seq<bool>)>)
    ensures Emitted([], r) == r
  {
    if r.Ok? {
      assert [] + r.value.0 == r.value.0;
    }
  }

  lemma EmittedEmitted(a: seq<byte>, b: seq<byte>, r: Result<(seq<byte>, seq<bool>)>)
    ensures Emitted(a, Emitted(b, r)) == Emitted(a + b, r)
  {
    if r.Ok? {
      assert a + (b + r.value.0) == (a + b) + r.value.0;
    }
  }

  /** Decoding from node `current` of the tree `root`: the bytes emitted and
      the bits left unread after the PSEUDO_EOF leaf. Each bit steps to a
      child before the leaf test, so a leaf `current` (a single-leaf root)
      fails as a null dereference; data ending first fails. */
  function DecodePayload(root: HuffNode, current: HuffNode, bits: seq<bool>): (r: Result<(seq<byte>, seq<bool>)>)
    ensures r.Ok? ==> |r.value.1| < |bits|
    decreases |bits|
  {
    if bits == [] then Err(NoPseudoEof)
    else
      match current
      case Leaf(_, _) => Err(NullChild)
      case Node(_, _, l, r) =>
        var next := if bits[0] then r else l;
        if next.Leaf? then
          if next.value == PSEUDO_EOF then Ok(([], bits[1..]))
          else Emitted([next.value % 256], DecodePayload(root, root, bits[1..]))
        else DecodePayload(root, next, bits[1..])
  }

  /** The decoding loop over the bit stream. It emits the low 8 bits of every
      literal leaf it reaches, returning to the root after each, and stops
      at the PSEUDO_EOF leaf. */
  method ReadCompressedBits(root: HuffNode, bits: seq<bool>) returns (r: Result<seq<byte>>)
    ensures var d := DecodePayload(root, root, bits);
      (r.Ok? <==> d.Ok?) && (r.Ok? ==> r.value == d.value.0) && (r.Err? ==> r.error == d.error)
  {
    var current := root;
    var stream := bits;
    var out: seq<byte> := [];
    EmittedNil(DecodePayload(root, root, bits));
    while true
      invariant DecodePayload(root, root, bits) == Emitted(out, DecodePayload(root, current, stream))
      decreases |stream|
    {
      var (bit, rest) := ReadBits(stream, 1);
      if bit == -1 {
        return Err(NoPseudoEof);
      }
      ReadOneBit(stream);
      if current.Leaf? {
        return Err(NullChild);
      }
      current := if bit == 0 then current.left else current.right;
      stream := rest;
      if current.Leaf? {
        if current.value == PSEUDO_EOF {
          break;
        }
        EmittedEmitted(out, [current.value % 256], DecodePayload(root, root, stream));
        out := out + [current.value % 256];
        current := root;
      }
    }
    r := Ok(out);
  }

  /** The code table's set slots are paths to leaves with their symbols. */
  predicate CodesLeadToLeaves(t: HuffNode, codes: CodeTable)
  {
    |codes| == ALPH_SIZE + 1 &&
    forall v | 0 <= v < |codes| && codes[v].Some? :: IsLeafPath(t, codes[v].value, v)
  }

  /** Decoding a leaf path: PSEUDO_EOF stops with the rest unread; any other
      symbol is emitted and decoding starts again at the root. */
  lemma {:induction false} DecodeAlongPath(root: HuffNode, current: HuffNode, p: seq<bool>, v: int, rest: seq<bool>)
    requires |p| > 0 && IsLeafPath(current, p, v)
    ensures DecodePayload(root, current, p + rest) ==
      if v == PSEUDO_EOF then Ok(([], rest))
      else Emitted([v % 256], DecodePayload(root, root, rest))
    decreases p
  {
    var bits := p + rest;
    assert bits[0] == p[0] && bits[1..] == p[1..] + rest;
    var next := if p[0] then current.right else current.left;
    assert Follow(current, p) == Follow(next, p[1..]);
    if |p| > 1 {
      DecodeAlongPath(root, next, p[1..], v, rest);
    } else {
      assert p[1..] == [] && p[1..] + rest == rest;
    }
  }

  /** Payload round trip: decoding the payload written for `input`, with
      any padding after it, gives back exactly `input` and leaves the
      padding unread. */
  lemma {:induction false} PayloadRoundTrip(root: HuffNode, codes: CodeTable, input: seq<byte>, pad: seq<bool>)
    requires CodesLeadToLeaves(root, codes)
    requires EncodePayload(codes, input).Ok?
    ensures DecodePayload(root, root, EncodePayload(codes, input).value + pad) == Ok((input, pad))
  {
    if input == [] {
      var c := codes[PSEUDO_EOF].value;
      assert IsLeafPath(root, c, PSEUDO_EOF);
      DecodeAlongPath(root, root, c, PSEUDO_EOF, pad);
    } else {
      var b := input[0];
      assert Emit(codes[b]).Ok?;
      var c := codes[b].value;
      assert IsLeafPath(root, c, b);
      var tailResult := EncodePayload(codes, input[1..]);
      assert EncodePayload(codes, input) == Then(c, tailResult);
      var tail := tailResult.value;
      assert EncodePayload(codes, input).value + pad == c + (tail + pad);
      DecodeAlongPath(root, root, c, b, tail + pad);
      PayloadRoundTrip(root, codes, input[1..], pad);
      assert DecodePayload(root, root, tail + pad) == Ok((input[1..], pad));
      assert [b % 256] + input[1..] == input;
    }
  }

  /** Decoding a proper prefix of a leaf path runs out of data. */
  lemma {:induction false} DecodePartialPath(root: HuffNode, current: HuffNode, p: seq<bool>, v: int, j: nat)
    requires IsLeafPath(current, p, v) && j < |p|
    ensures DecodePayload(root, current, p[..j]) == Err(NoPseudoEof)
    decreases j
  {
    if j > 0 {
      var next := if p[0] then current.right else current.left;
      assert Follow(current, p) == Follow(next, p[1..]);
      assert p[..j][0] == p[0] && p[..j][1..] == p[1..][..j - 1];
      DecodePartialPath(root, next, p[1..], v, j - 1);
    }
  }

  /** A payload cut short anywhere before its end fails for lack of a
      PSEUDO_EOF leaf. */
  lemma {:induction false} TruncatedPayload(root: HuffNode, codes: CodeTable, input: seq<byte>, k: nat)
    requires CodesLeadToLeaves(root, codes)
    requires EncodePayload(codes, input).Ok?
    requires k < |EncodePayload(codes, input).value|
    ensures DecodePayload(root, root, EncodePayload(codes, input).value[..k]) == Err(NoPseudoEof)
  {
    var bits := EncodePayload(codes, input).value;
    if input == [] {
      var c := codes[PSEUDO_EOF].value;
      DecodePartialPath(root, root, c, PSEUDO_EOF, k);
    } else {
      var b := input[0];
      var c := codes[b].value;
      var tail := EncodePayload(codes, input[1..]).value;
      assert bits == c + tail;
      if k < |c| {
        assert bits[..k] == c[..k];
        DecodePartialPath(root, root, c, b, k);
      } else {
        assert bits[..k] == c + tail[..k - |c|];
        DecodeAlongPath(root, root, c, b, tail[..k - |c|]);
        TruncatedPayload(root, codes, input[1..], k - |c|);
      }
    }
  }
}
