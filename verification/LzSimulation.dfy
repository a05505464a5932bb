/** Reading back what an encoding holds: the decoder follows the encoder's cursor token by token. */
module LzSimulation {
  import opened Common
  import opened LzBits
  import opened LzFormat
  import opened LzDecode
  import opened LzDecodeProps

  /**
   * The reader is about to read the token at cursor `s`. The writer reserves an indicator word as
   * soon as a group is full; the reader moves past it only when the next token needs it.
   */
  ghost predicate AtToken(buf: seq<byte>, r: Reader, s: Cursor) {
    && s.indicPos + 4 <= |buf|
    && r.nib == s.nib
    && (if s.count % 32 == 0 then r.bit == 0 && r.pos == s.indicPos && s.pos == s.indicPos + 4
        else r.bit == 32 - s.count % 32 && r.pos == s.pos && r.indicator == Word32(buf, s.indicPos))
  }

  lemma LongLengthAt(buf: seq<byte>, s: Cursor, t: Token)
    requires TokenAt(buf, s, t) && t.Match? && t.length >= 10
    ensures LongLength(buf, s.pos + 2, s.nib)
            == Some((t.length - 3, s.pos + TokenSize(t, s.nib != 0), if s.nib == 0 then s.pos + 2 else 0))
  {
  }

  lemma ReadMatchAt(buf: seq<byte>, s: Cursor, t: Token)
    requires TokenAt(buf, s, t) && t.Match?
    ensures ReadMatch(buf, s.pos, s.nib)
            == Some((t, s.pos + TokenSize(t, s.nib != 0), Advance(s, t).nib))
  {
    var w := Word16(buf, s.pos);
    assert w % 8 == Min(t.length - 3, 7) && w / 8 == t.distance - 1;
    if t.length >= 10 {
      LongLengthAt(buf, s, t);
    }
  }

  /** The reader after its token: past it, with one bit of the indicator word used up. */
  function ReaderAfter(buf: seq<byte>, s: Cursor, t: Token): Reader
    requires s.indicPos + 4 <= |buf|
  {
    Reader(s.pos + TokenSize(t, s.nib != 0), Word32(buf, s.indicPos), 31 - s.count % 32, Advance(s, t).nib)
  }

  lemma RefillsAt(buf: seq<byte>, r: Reader, s: Cursor)
    requires AtToken(buf, r, s)
    ensures Refill(buf, r) == Some(Reader(s.pos, Word32(buf, s.indicPos), 32 - s.count % 32, s.nib))
  {
    hide Word32;
  }

  lemma AtNextToken(buf: seq<byte>, s: Cursor, t: Token)
    requires s.indicPos + 4 <= |buf| && Advance(s, t).pos <= |buf|
    ensures AtToken(buf, ReaderAfter(buf, s, t), Advance(s, t))
  {
    hide Word32, TokenSize;
  }

  lemma ReadsToken(buf: seq<byte>, r: Reader, s: Cursor, t: Token) returns (r': Reader)
    requires TokenAt(buf, s, t) && BitAt(buf, s, t) && AtToken(buf, r, s)
    requires Advance(s, t).pos <= |buf|
    ensures NextToken(buf, r) == Some((t, r'))
    ensures AtToken(buf, r', Advance(s, t))
  {
    RefillsAt(buf, r, s);
    AtNextToken(buf, s, t);
    r' := ReaderAfter(buf, s, t);
    hide Shr, Word32, ReadMatch, Refill, AtToken;
    if t.Match? {
      ReadMatchAt(buf, s, t);
    }
  }

  lemma {:induction false} CursorMonotone(toks: seq<Token>, k: nat)
    requires k <= |toks|
    ensures CursorAfter(toks[..k]).pos <= CursorAfter(toks).pos
    decreases |toks| - k
  {
    if k < |toks| {
      assert toks[..k + 1][..k] == toks[..k];
      CursorMonotone(toks, k + 1);
    } else {
      assert toks[..k] == toks;
    }
  }

  /** The position the reader ends a token at leaves at least four bytes of the stream. */
  lemma ReaderInsideStream(buf: seq<byte>, toks: seq<Token>, k: nat, r: Reader)
    requires k <= |toks| && AtToken(buf, r, CursorAfter(toks[..k]))
    ensures r.pos + 4 <= StreamSize(toks)
  {
    CursorMonotone(toks, k);
    if k == |toks| {
      assert toks[..k] == toks;
    } else if CursorAfter(toks).count % 32 == 0 && CursorAfter(toks[..k]).count % 32 != 0 {
      LastGroup(toks, k);
    }
  }

  /** A full last group ends with a reserved word that no earlier token reaches. */
  lemma {:induction false} LastGroup(toks: seq<Token>, k: nat)
    requires k < |toks| && |toks| % 32 == 0
    ensures CursorAfter(toks[..k]).pos + 4 <= CursorAfter(toks).pos
  {
    var last := toks[..|toks| - 1];
    CursorMonotone(last, k);
    assert last[..k] == toks[..k];
  }

  lemma {:induction false} DecodesFrom(
    buf: seq<byte>, toks: seq<Token>, k: nat, r: Reader, out: seq<byte>, size: nat, max: nat)
    requires Encodes(buf, toks)
    requires StreamSize(toks) <= size && CursorAfter(toks).pos <= |buf|
    requires k <= |toks| && AtToken(buf, r, CursorAfter(toks[..k]))
    requires out == Expand(toks[..k], [])
    requires |out| < max <= |Expand(toks, [])|
    ensures Decode(buf, size, max, r, out) == Some(Take(Expand(toks, []), max))
    decreases |toks| - k
  {
    hide NextToken, Advance, TokenAt, BitAt, CursorAfter, Copy, CopyUpTo, Expand, ExpandOne, StreamSize, AtToken;
    assert toks[..|toks|] == toks;
    var s, t := CursorAfter(toks[..k]), toks[k];
    assert EncodesOne(buf, toks, k);
    assert toks[..k + 1] == toks[..k] + [t];
    CursorSnoc(toks[..k], t);
    CursorMonotone(toks, k + 1);
    var r' := ReadsToken(buf, r, s, t);
    ExpandSnoc(toks[..k], t, []);
    ExpandSplit(toks, k + 1, []);
    var full := Expand(toks[..k + 1], []);
    EmitIsTruncated(out, t, max);
    ReaderInsideStream(buf, toks, k + 1, r');
    if |full| >= max {
      TakePrefix(full, Expand(toks, []), max);
    } else {
      DecodesFrom(buf, toks, k + 1, r', full, size, max);
    }
  }

  lemma {:induction false} ExpandSplit(toks: seq<Token>, k: nat, out: seq<byte>)
    requires k <= |toks|
    ensures Expand(toks[..k], out) <= Expand(toks, out)
    decreases |toks|
  {
    if k > 0 {
      assert toks[1..][..k - 1] == toks[..k][1..];
      ExpandSplit(toks[1..], k - 1, ExpandOne(out, toks[0]));
    }
  }

  /**
   * Any buffer that holds an encoding of `toks` decodes to their expansion, up to `max` bytes,
   * when the declared size counts the four bytes the compressor adds.
   */
  lemma DecodeOfEncoding(buf: seq<byte>, toks: seq<Token>, size: nat, max: nat)
    requires Encodes(buf, toks)
    requires StreamSize(toks) <= size && CursorAfter(toks).pos <= |buf|
    requires 0 < max <= |Expand(toks, [])|
    ensures Decode(buf, size, max, RESET, []) == Some(Expand(toks, [])[..max])
  {
    assert toks[..0] == [];
    DecodesFrom(buf, toks, 0, RESET, [], size, max);
  }
}
