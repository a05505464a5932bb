/** What `lzxpress_decompress` computes, for every byte string. */
module LzDecodeProps {
  import opened Common
  import opened LzBits
  import opened LzFormat
  import opened LzDecode

  lemma {:induction false} CopyUpToIsTruncatedCopy(out: seq<byte>, distance: pos, length: nat, max: nat)
    requires |out| <= max
    ensures CopyUpTo(out, distance, length, max) == Take(Copy(out, distance, length), max)
    decreases length
  {
    if length == 0 || distance > |out| {
    } else if |out| < max {
      CopyUpToIsTruncatedCopy(out + [out[|out| - distance]], distance, length - 1, max);
    }
  }

  lemma TakePrefix(a: seq<byte>, b: seq<byte>, max: nat)
    requires a <= b && max <= |a|
    ensures Take(a, max) == Take(b, max)
  {
  }

  lemma EmitIsTruncated(out: seq<byte>, t: Token, max: nat)
    requires |out| < max
    ensures Emit(out, t, max) == Take(ExpandOne(out, t), max)
  {
    if t.Match? {
      CopyUpToIsTruncatedCopy(out, t.distance, t.length, max);
    }
  }

  /** The bounded loop is the unbounded expansion of every token before `size`, cut at `max` bytes. */
  lemma {:induction false} DecodeIsTruncatedExpansion(
    input: seq<byte>, size: nat, max: nat, r: Reader, out: seq<byte>)
    requires |out| < max
    requires AllTokens(input, size, r).Some?
    ensures Decode(input, size, max, r, out) == Some(Take(Expand(AllTokens(input, size, r).value, out), max))
    decreases size - r.pos
  {
    var toks := AllTokens(input, size, r).value;
    var (t, r') := NextToken(input, r).value;
    assert toks[0] == t;
    var full := ExpandOne(out, t);
    EmitIsTruncated(out, t, max);
    assert Expand(toks, out) == Expand(toks[1..], full);
    if |full| >= max {
      TakePrefix(full, Expand(toks, out), max);
    } else if r'.pos < size {
      assert toks[1..] == AllTokens(input, size, r').value;
      DecodeIsTruncatedExpansion(input, size, max, r', full);
    }
  }

  /** The result never exceeds `max`, except that a first literal is stored even when `max` is 0. */
  lemma {:induction false} OutputBound(input: seq<byte>, size: nat, max: nat)
    requires Decode(input, size, max, RESET, []).Some?
    ensures |Decode(input, size, max, RESET, []).value| <= max
            <==> max > 0 || NextToken(input, RESET).value.0.Match?
  {
    if max > 0 {
      OutputBoundFrom(input, size, max, RESET, []);
    }
  }

  lemma {:induction false} OutputBoundFrom(input: seq<byte>, size: nat, max: nat, r: Reader, out: seq<byte>)
    requires |out| < max
    requires Decode(input, size, max, r, out).Some?
    ensures |Decode(input, size, max, r, out).value| <= max
    decreases size - r.pos
  {
    var (t, r') := NextToken(input, r).value;
    EmitIsTruncated(out, t, max);
    var out' := Emit(out, t, max);
    if |out'| < max && r'.pos < size {
      OutputBoundFrom(input, size, max, r', out');
    }
  }

  ghost predicate SaneReader(r: Reader, size: nat) {
    r.nib <= r.pos && r.pos < (if size == 0 then 1 else size)
  }

  /** Nine readable bytes past the declared size (at least one) are always enough. */
  lemma SlackSuffices(input: seq<byte>, size: nat, max: nat)
    requires |input| >= (if size == 0 then 1 else size) + 9
    ensures Decode(input, size, max, RESET, []).Some?
    ensures AllTokens(input, size, RESET).Some?
  {
    SlackSufficesFrom(input, size, max, RESET, []);
  }

  /**
   * The meaning of the loop on every byte string: with that slack and a limit of at least one byte it
   * terminates with all tokens before `size` expanded, cut at the limit, and never more than the limit.
   */
  lemma DecodesEveryInput(input: seq<byte>, size: nat, max: nat)
    requires |input| >= (if size == 0 then 1 else size) + 9 && max > 0
    ensures AllTokens(input, size, RESET).Some?
    ensures Decode(input, size, max, RESET, []) == Some(Take(Expand(AllTokens(input, size, RESET).value, []), max))
    ensures |Decode(input, size, max, RESET, []).value| <= max
  {
    hide Decode, AllTokens;
    SlackSuffices(input, size, max);
    DecodeIsTruncatedExpansion(input, size, max, RESET, []);
  }

  lemma {:induction false} SlackSufficesFrom(input: seq<byte>, size: nat, max: nat, r: Reader, out: seq<byte>)
    requires |input| >= (if size == 0 then 1 else size) + 9
    requires SaneReader(r, size)
    ensures Decode(input, size, max, r, out).Some?
    ensures AllTokens(input, size, r).Some?
    decreases size - r.pos
  {
    var (t, r') := NextToken(input, r).value;
    if r'.pos < size {
      SlackSufficesFrom(input, size, max, r', Emit(out, t, max));
    }
  }

  /** And fewer are not: this eight-byte input makes the loop read nine bytes past its declared end. */
  lemma NineBytesAreNeeded(input: seq<byte>)
    requires input == [0, 0, 0, 0x80, 7, 0, 15, 255, 0]
    ensures AllTokens(input, 1, RESET).None?
    ensures AllTokens(input + [0], 1, RESET).Some?
  {
    Top(input);
    Top(input + [0]);
  }

  lemma Top(input: seq<byte>)
    requires |input| >= 4 && input[..4] == [0, 0, 0, 0x80]
    ensures Shr(Word32(input, 0), 31) == 1
  {
    ShlShl(1, 31, 1);
    Shl32();
    ShlAdd(1, 1, 31);
    assert Shl(1, 32) == Shl(2, 31) == Shl(1, 31) + Shl(1, 31);
    assert forall i :: 0 <= i < 4 ==> input[i] == input[..4][i];
    assert Word32(input, 0) == Shl(1, 31);
    ShrShl(1, 31);
  }
}
