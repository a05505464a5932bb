/**
 * The plain LZ77 format of [MS-XCA] sections 2.3 and 2.4 as the codec in
 * lib/compression/lzxpress.c lays it out: where each token goes, and when a buffer holds a
 * given list of tokens.
 */
module LzFormat {
  import opened Common
  import opened LzBits

  type pos = x: int | 0 < x witness 1

  datatype Token = Literal(value: byte) | Match(distance: pos, length: nat)

  /** Matches the compressor may emit: a 13-bit distance field and at most 255 + 15 + 7 + 3 bytes. */
  predicate Encodable(t: Token) {
    t.Match? ==> t.distance <= 0x1FFF && 3 <= t.length <= 280
  }

  /** How many bytes of plain text a token stands for. */
  function Covered(t: Token): nat {
    if t.Literal? then 1 else t.length
  }

  /** How many bytes a token adds to the stream; `shared` when a half-used nibble byte is waiting. */
  function TokenSize(t: Token, shared: bool): nat {
    if t.Literal? then 1
    else if t.length < 10 then 2
    else
      (if shared then 2 else 3) + (if t.length < 25 then 0 else if t.length < 280 then 1 else 3)
  }

  /**
   * The write cursor between two tokens: the next free position, the position reserved for the
   * indicator word of the current group of 32 tokens, the number of tokens so far, and the
   * position of the half-used nibble byte (0 when there is none).
   */
  datatype Cursor = Cursor(pos: nat, indicPos: nat, count: nat, nib: nat)

  const START := Cursor(4, 0, 0, 0)

  function Advance(s: Cursor, t: Token): Cursor {
    var pos := s.pos + TokenSize(t, s.nib != 0);
    var nib := if t.Match? && t.length >= 10 then (if s.nib == 0 then s.pos + 2 else 0) else s.nib;
    if (s.count + 1) % 32 == 0 then
      Cursor(pos + 4, pos, s.count + 1, nib)
    else
      Cursor(pos, s.indicPos, s.count + 1, nib)
  }

  function CursorAfter(toks: seq<Token>): (s: Cursor)
    ensures s.count == |toks|
    ensures s.indicPos + 4 <= s.pos
    ensures s.nib == 0 || (s.nib < s.pos && !(s.indicPos <= s.nib < s.indicPos + 4))
  {
    if toks == [] then START else Advance(CursorAfter(toks[..|toks| - 1]), toks[|toks| - 1])
  }

  /** The number of bytes the compressor reports: four more than the end of the last token. */
  function StreamSize(toks: seq<Token>): nat {
    var s := CursorAfter(toks);
    if s.count % 32 > 0 then s.pos + 4 else s.pos
  }

  /** The bytes of token `t` are in `buf` at cursor `s`. */
  ghost predicate TokenAt(buf: seq<byte>, s: Cursor, t: Token) {
    && Encodable(t)
    && s.pos + TokenSize(t, s.nib != 0) <= |buf|
    && s.nib < s.pos
    && (t.Literal? ==> buf[s.pos] == t.value)
    && (t.Match? ==>
          && Word16(buf, s.pos) == (t.distance - 1) * 8 + Min(t.length - 3, 7)
          && (t.length >= 10 ==>
                var q := s.pos + (if s.nib != 0 then 2 else 3);
                && (if s.nib != 0 then buf[s.nib] / 16 else buf[s.pos + 2] % 16) == Min(t.length - 10, 15)
                && (t.length >= 25 ==> buf[q] == Min(t.length - 25, 255))
                && (t.length == 280 ==> Word16(buf, q + 1) == t.length - 3)))
  }

  function Bit(t: Token): nat {
    if t.Match? then 1 else 0
  }

  /** The indicator bit of the token at cursor `s`, most significant bit first. */
  ghost predicate BitAt(buf: seq<byte>, s: Cursor, t: Token) {
    s.indicPos + 4 <= |buf| && Shr(Word32(buf, s.indicPos), 31 - s.count % 32) % 2 == Bit(t)
  }

  ghost predicate EncodesOne(buf: seq<byte>, toks: seq<Token>, k: nat)
    requires k < |toks|
  {
    var s := CursorAfter(toks[..k]);
    TokenAt(buf, s, toks[k]) && BitAt(buf, s, toks[k])
  }

  /** `buf` starts with an encoding of `toks`. */
  ghost predicate Encodes(buf: seq<byte>, toks: seq<Token>) {
    forall k :: 0 <= k < |toks| ==> EncodesOne(buf, toks, k)
  }

  /** One output byte at a time, from `distance` bytes back; a distance past the start copies nothing. */
  function Copy(out: seq<byte>, distance: pos, length: nat): (r: seq<byte>)
    ensures out <= r
    ensures |r| == if distance > |out| then |out| else |out| + length
    ensures forall i :: |out| <= i < |r| ==> r[i] == r[i - distance]
    decreases length
  {
    if length == 0 || distance > |out| then out
    else Copy(out + [out[|out| - distance]], distance, length - 1)
  }

  function ExpandOne(out: seq<byte>, t: Token): (r: seq<byte>)
    ensures out <= r
  {
    match t
    case Literal(b) => out + [b]
    case Match(d, n) => Copy(out, d, n)
  }

  /** The plain text a list of tokens stands for, after `out`. */
  function Expand(toks: seq<Token>, out: seq<byte>): (r: seq<byte>)
    ensures out <= r
  {
    if toks == [] then out else Expand(toks[1..], ExpandOne(out, toks[0]))
  }

  lemma CursorSnoc(toks: seq<Token>, t: Token)
    ensures CursorAfter(toks + [t]) == Advance(CursorAfter(toks), t)
  {
    assert (toks + [t])[..|toks + [t]| - 1] == toks;
  }

  lemma {:induction false} ExpandSnoc(toks: seq<Token>, t: Token, out: seq<byte>)
    ensures Expand(toks + [t], out) == ExpandOne(Expand(toks, out), t)
  {
    if toks != [] {
      assert (toks + [t])[1..] == toks[1..] + [t];
      ExpandSnoc(toks[1..], t, ExpandOne(out, toks[0]));
    } else {
      assert (toks + [t])[1..] == [];
    }
  }

  function TotalCovered(toks: seq<Token>): nat {
    if toks == [] then 0 else TotalCovered(toks[..|toks| - 1]) + Covered(toks[|toks| - 1])
  }

  lemma TotalCoveredSnoc(toks: seq<Token>, t: Token)
    ensures TotalCovered(toks + [t]) == TotalCovered(toks) + Covered(t)
  {
    assert (toks + [t])[..|toks|] == toks;
  }

  lemma CostsAtMostItCovers(t: Token, shared: bool)
    requires Encodable(t)
    ensures 1 <= TokenSize(t, shared) <= Covered(t)
  {
  }

  lemma AdvanceBound(s: Cursor, t: Token)
    requires Encodable(t)
    ensures Advance(s, t).pos - 4 * ((s.count + 1) / 32) <= s.pos - 4 * (s.count / 32) + Covered(t)
    ensures 1 <= Covered(t)
  {
    CostsAtMostItCovers(t, s.nib != 0);
  }

  /** No token costs more bytes than it covers, and every 32 tokens cost one indicator word. */
  lemma {:induction false} CursorBound(toks: seq<Token>)
    requires forall t :: t in toks ==> Encodable(t)
    ensures CursorAfter(toks).pos <= 4 + TotalCovered(toks) + 4 * (|toks| / 32)
    ensures |toks| <= TotalCovered(toks)
  {
    hide Advance, Covered, Encodable;
    if toks != [] {
      var rest, t := toks[..|toks| - 1], toks[|toks| - 1];
      assert t in toks && forall u :: u in rest ==> u in toks;
      CursorBound(rest);
      AdvanceBound(CursorAfter(rest), t);
    }
  }
}
