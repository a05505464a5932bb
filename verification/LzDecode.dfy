/** `lzxpress_decompress` of lib/compression/lzxpress.c and what it means. */
module LzDecode {
  import opened Common
  import opened LzBits
  import opened LzFormat

  function Read8(s: seq<byte>, i: nat): Option<nat> {
    if i < |s| then Some(s[i]) else None
  }

  function Read16(s: seq<byte>, i: nat): Option<nat> {
    if i + 2 <= |s| then Some(Word16(s, i)) else None
  }

  function Read32(s: seq<byte>, i: nat): Option<nat> {
    if i + 4 <= |s| then Some(Word32(s, i)) else None
  }

  /** The read cursor: `input_index`, `indicator`, `indicator_bit` and `nibble_index`. */
  datatype Reader = Reader(pos: nat, indicator: nat, bit: nat, nib: nat)

  const RESET := Reader(0, 0, 0, 0)

  /** The indicator word is fetched only when a token needs it. */
  function Refill(input: seq<byte>, r: Reader): Option<Reader> {
    if r.bit == 0 then
      var w :- Read32(input, r.pos);
      Some(Reader(r.pos + 4, w, 32, r.nib))
    else
      Some(r)
  }

  /** The length beyond the three bits of the metadata word: (length - 3, position, nibble position). */
  function LongLength(input: seq<byte>, pos: nat, nib: nat): Option<(nat, nat, nat)> {
    var b :- Read8(input, if nib == 0 then pos else nib);
    var low := if nib == 0 then b % 16 else b / 16;
    var p := if nib == 0 then pos + 1 else pos;
    var nib' := if nib == 0 then pos else 0;
    if low < 15 then Some((low + 7, p, nib'))
    else
      var c :- Read8(input, p);
      if c < 255 then Some((c + 15 + 7, p + 1, nib'))
      else
        var w :- Read16(input, p + 1);
        Some((w, p + 3, nib'))
  }

  function ReadMatch(input: seq<byte>, pos: nat, nib: nat): (res: Option<(Token, nat, nat)>)
    ensures res.Some? ==>
              && res.value.1 > pos
              && res.value.0.Match? && res.value.0.length >= 3
  {
    var w :- Read16(input, pos);
    if w % 8 < 7 then
      Some((Match(w / 8 + 1, w % 8 + 3), pos + 2, nib))
    else
      var (len, pos', nib') :- LongLength(input, pos + 2, nib);
      Some((Match(w / 8 + 1, len + 3), pos', nib'))
  }

  /** The next token, or None when reading it would leave the buffer. */
  function NextToken(input: seq<byte>, r0: Reader): (res: Option<(Token, Reader)>)
    ensures res.Some? ==>
              && res.value.1.pos > r0.pos
              && (res.value.0.Match? ==> res.value.0.length >= 3)
  {
    var r :- Refill(input, r0);
    var bit := r.bit - 1;
    if Shr(r.indicator, bit) % 2 == 0 then
      var b :- Read8(input, r.pos);
      Some((Literal(b), Reader(r.pos + 1, r.indicator, bit, r.nib)))
    else
      var (t, pos, nib) :- ReadMatch(input, r.pos, r.nib);
      Some((t, Reader(pos, r.indicator, bit, nib)))
  }

  /** A copy that stops at `max` bytes of output. */
  function CopyUpTo(out: seq<byte>, distance: pos, length: nat, max: nat): seq<byte>
    decreases length
  {
    if length == 0 || |out| >= max || distance > |out| then out
    else CopyUpTo(out + [out[|out| - distance]], distance, length - 1, max)
  }

  function Emit(out: seq<byte>, t: Token, max: nat): seq<byte>
  {
    match t
    case Literal(b) => out + [b]
    case Match(d, n) => CopyUpTo(out, d, n, max)
  }

  /** The decoding loop, token by token; None when it would read outside `input`. */
  function Decode(input: seq<byte>, size: nat, max: nat, r: Reader, out: seq<byte>): Option<seq<byte>>
    decreases size - r.pos
  {
    var (t, r') :- NextToken(input, r);
    var out' := Emit(out, t, max);
    if |out'| < max && r'.pos < size then Decode(input, size, max, r', out') else Some(out')
  }

  /** All tokens that start before `size`, whatever they expand to. */
  function AllTokens(input: seq<byte>, size: nat, r: Reader): (res: Option<seq<Token>>)
    ensures res.Some? ==> res.value != []
    decreases size - r.pos
  {
    var (t, r') :- NextToken(input, r);
    if r'.pos < size then
      var rest :- AllTokens(input, size, r');
      Some([t] + rest)
    else
      Some([t])
  }

  /** Unsigned 32-bit wrap-around. */
  function Wrap32(x: int): nat {
    x % WORD32
  }

  /**
   * `lzxpress_decompress`. The caller must make every byte the loop looks at readable, which is
   * more than `input_size` for some inputs (see SlackSuffices), and room for one byte even
   * when `max_output_size` is 0.
   */
  method Decompress(input: array<byte>, inputSize: nat, output: array<byte>, maxOutputSize: nat)
    returns (outputIndex: nat)
    requires input != output
    requires inputSize + 10 < WORD32
    requires Decode(input[..], inputSize, maxOutputSize, RESET, []).Some?
    requires output.Length >= maxOutputSize && output.Length > 0
    modifies output
    ensures outputIndex <= output.Length
    ensures Decode(old(input[..]), inputSize, maxOutputSize, RESET, []) == Some(output[..outputIndex])
    ensures forall i :: outputIndex <= i < output.Length ==> output[i] == old(output[i])
  {
    hide ReadMatch, CopyUpTo, Word32, Shr;
    outputIndex := 0;
    var inputIndex: nat, indicator: nat, indicatorBit: nat, nibbleIndex: nat := 0, 0, 0, 0;
    ghost var src := input[..];
    ghost var r := RESET;
    var more := true;
    while more
      invariant r == Reader(inputIndex, indicator, indicatorBit, nibbleIndex)
      invariant input[..] == src
      invariant outputIndex <= output.Length
      invariant more ==> outputIndex < output.Length
      invariant var goal := Decode(src, inputSize, maxOutputSize, RESET, []);
                if more then goal == Decode(src, inputSize, maxOutputSize, r, output[..outputIndex])
                else goal == Some(output[..outputIndex])
      invariant forall i :: outputIndex <= i < output.Length ==> output[i] == old(output[i])
      decreases more, inputSize - inputIndex
    {
      ghost var (token, r') := NextToken(src, r).value;
      ghost var before := output[..outputIndex];
      inputIndex, indicator, indicatorBit := FetchIndicator(input, inputIndex, indicator, indicatorBit, nibbleIndex);
      indicatorBit := indicatorBit - 1;
      if Shr(indicator, indicatorBit) % 2 == 0 {
        outputIndex := StoreLiteral(output, outputIndex, input[inputIndex]);
        inputIndex := inputIndex + 1;
      } else {
        var offset, length;
        offset, length, inputIndex, nibbleIndex := ReadOffsetAndLength(input, inputIndex, nibbleIndex);
        outputIndex := CopyLoop(output, outputIndex, offset, length, maxOutputSize);
      }
      assert output[..outputIndex] == Emit(before, token, maxOutputSize);
      r := r';
      more := outputIndex < maxOutputSize && inputIndex < inputSize;
    }
  }

  method FetchIndicator(input: array<byte>, pos: nat, indicator: nat, bit: nat, ghost nib: nat)
    returns (pos': nat, indicator': nat, bit': nat)
    requires Refill(input[..], Reader(pos, indicator, bit, nib)).Some?
    ensures bit' > 0
    ensures Refill(input[..], Reader(pos, indicator, bit, nib)) == Some(Reader(pos', indicator', bit', nib))
  {
    pos', indicator', bit' := pos, indicator, bit;
    if bit' == 0 {
      indicator' := ReadWord32(input, pos');
      pos' := pos' + 4;
      bit' := 32;
    }
  }

  method StoreLiteral(output: array<byte>, start: nat, b: byte) returns (end: nat)
    requires start < output.Length
    modifies output
    ensures end == start + 1
    ensures output[..end] == old(output[..start]) + [b]
    ensures forall i :: end <= i < output.Length ==> output[i] == old(output[i])
  {
    output[start] := b;
    end := start + 1;
  }

  method ReadWord32(input: array<byte>, i: nat) returns (w: nat)
    requires i + 4 <= input.Length
    ensures w == Word32(input[..], i)
  {
    w := input[i] as int + 0x100 * (input[i + 1] as int)
    + 0x1_0000 * (input[i + 2] as int) + 0x100_0000 * (input[i + 3] as int);
  }

  method ReadOffsetAndLength(input: array<byte>, pos: nat, nib: nat)
    returns (offset: nat, length: nat, pos': nat, nib': nat)
    requires ReadMatch(input[..], pos, nib).Some?
    ensures length >= 3
    ensures ReadMatch(input[..], pos, nib) == Some((Match(offset + 1, length), pos', nib'))
  {
    length := input[pos] as int + 0x100 * (input[pos + 1] as int);
    pos', nib' := pos + 2, nib;
    offset := length / 8;
    length := length % 8;
    if length == 7 {
      length, pos', nib' := ReadLongLength(input, pos', nib');
    }
    length := Wrap32(length + 3);
  }

  /** The shared nibble: the low half of a new byte, or the high half of the one waiting. */
  method ReadNibble(input: array<byte>, pos: nat, nib: nat) returns (low: nat, pos': nat, nib': nat)
    requires (if nib == 0 then pos else nib) < input.Length
    ensures low < 16
    ensures if nib == 0 then low == input[pos] % 16 && pos' == pos + 1 && nib' == pos
            else low == input[nib] / 16 && pos' == pos && nib' == 0
  {
    pos', nib' := pos, nib;
    if nib' == 0 {
      nib' := pos';
      low := input[pos'] % 16;
      pos' := pos' + 1;
    } else {
      low := input[nib'] / 16;
      nib' := 0;
    }
  }

  /** The nibble, byte and 16-bit extensions; the subtraction may wrap and the additions undo it. */
  method ReadLongLength(input: array<byte>, pos: nat, nib: nat) returns (length: nat, pos': nat, nib': nat)
    requires LongLength(input[..], pos, nib).Some?
    ensures LongLength(input[..], pos, nib) == Some((length, pos', nib'))
    ensures length < 0x1_0000
  {
    hide Wrap32;
    length, pos', nib' := ReadNibble(input, pos, nib);
    WrapSmall(length + 7);
    if length == 15 {
      length := input[pos'];
      pos' := pos' + 1;
      WrapSmall(length + 15);
      WrapSmall(length + 15 + 7);
      if length == 255 {
        length := input[pos'] as int + 0x100 * (input[pos' + 1] as int);
        pos' := pos' + 2;
        WrapCancels(length);
        length := Wrap32(length - (15 + 7));
      }
      length := Wrap32(length + 15);
    }
    length := Wrap32(length + 7);
  }

  lemma WrapSmall(x: nat)
    requires x < WORD32
    ensures Wrap32(x) == x
  {
  }

  lemma WrapCancels(w: nat)
    requires w < 0x1_0000
    ensures Wrap32(Wrap32(Wrap32(w - (15 + 7)) + 15) + 7) == w
  {
  }

  /** The byte-by-byte copy, self-overlapping when `length` exceeds the distance. */
  method CopyLoop(output: array<byte>, start: nat, offset: nat, length: nat, max: nat) returns (end: nat)
    requires start < output.Length && max <= output.Length && length > 0
    modifies output
    ensures start <= end <= output.Length
    ensures output[..end] == CopyUpTo(old(output[..start]), offset + 1, length, max)
    ensures forall i :: end <= i < output.Length ==> output[i] == old(output[i])
  {
    end := start;
    var left := length;
    ghost var target := CopyUpTo(output[..start], offset + 1, length, max);
    while left != 0
      invariant start <= end <= output.Length
      invariant target == CopyUpTo(output[..end], offset + 1, left, max)
      invariant forall i :: end <= i < output.Length ==> output[i] == old(output[i])
      decreases left
    {
      if end >= max || offset + 1 > end {
        break;
      }
      ghost var was := output[..end];
      output[end] := output[end - offset - 1];
      end := end + 1;
      left := left - 1;
      assert output[..end] == was + [was[|was| - (offset + 1)]];
    }
  }
}
