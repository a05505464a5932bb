/**
 * What a half-written buffer already settles. The compressor goes back to the current indicator
 * word and to the high half of a nibble byte long after later tokens were written; everything else
 * behind the write cursor is final.
 */
module LzWrite {
  import opened Common
  import opened LzBits
  import opened LzFormat

  /** `f` and `g` agree wherever the writer at cursor `s` will not write again. */
  ghost predicate Agree(f: seq<byte>, g: seq<byte>, s: Cursor) {
    && |f| == |g|
    && s.pos <= |f|
    && forall i :: 0 <= i < s.pos && !(s.indicPos <= i < s.indicPos + 4) ==>
                     if s.nib != 0 && i == s.nib then f[i] % 16 == g[i] % 16 else f[i] == g[i]
  }

  /** The bits decided so far of the current indicator word are those of `acc`. */
  ghost predicate HeadBits(f: seq<byte>, s: Cursor, acc: nat) {
    s.indicPos + 4 <= |f| && Shr(Word32(f, s.indicPos), 32 - s.count % 32) == acc
  }

  /** However the open places are filled in, the buffer will encode `toks`. */
  ghost predicate Written(buf: seq<byte>, toks: seq<Token>, acc: nat) {
    forall f: seq<byte> ::
      Agree(f, buf, CursorAfter(toks)) && HeadBits(f, CursorAfter(toks), acc) ==> Encodes(f, toks)
  }

  /** A token in place stays in place when only open places change. */
  lemma TokenStays(f: seq<byte>, g: seq<byte>, s: Cursor, t: Token)
    requires TokenAt(g, s, t) && Agree(f, g, Advance(s, t))
    requires s.indicPos + 4 <= s.pos
    requires s.nib == 0 || (s.nib < s.pos && !(s.indicPos <= s.nib < s.indicPos + 4))
    ensures TokenAt(f, s, t)
  {
    var s' := Advance(s, t);
    var end := s.pos + TokenSize(t, s.nib != 0);
    assert forall i :: s.pos <= i < end && !(s'.nib != 0 && i == s'.nib) ==> f[i] == g[i];
    if t.Match? && t.length >= 10 && s.nib != 0 {
      assert f[s.nib] == g[s.nib];
    }
  }

  /** Places closed at `s` are closed at the next cursor. */
  lemma AgreeBack(f: seq<byte>, b: seq<byte>, b': seq<byte>, s: Cursor, t: Token)
    requires Agree(b', b, s) && Agree(f, b', Advance(s, t))
    requires s.indicPos + 4 <= s.pos
    ensures Agree(f, b, s)
  {
  }

  /** Emitting one token: the data first, the indicator bit in the accumulator or, when full, in the word. */
  lemma ExtendWritten(b: seq<byte>, b': seq<byte>, toks: seq<Token>, t: Token, acc: nat, acc': nat)
    requires Written(b, toks, acc)
    requires Agree(b', b, CursorAfter(toks))
    requires TokenAt(b', CursorAfter(toks), t)
    requires (|toks| + 1) % 32 != 0 ==> acc' == 2 * acc + Bit(t)
    requires (|toks| + 1) % 32 == 0 ==> Word32(b', CursorAfter(toks).indicPos) == 2 * acc + Bit(t)
    ensures Written(b', toks + [t], acc')
  {
    var s := CursorAfter(toks);
    var s' := Advance(s, t);
    CursorSnoc(toks, t);
    forall f: seq<byte> | Agree(f, b', s') && HeadBits(f, s', acc')
      ensures Encodes(f, toks + [t])
    {
      hide Agree, HeadBits, TokenAt, BitAt, Encodes, Word32, Shr, Advance;
      AgreeBack(f, b, b', s, t);
      TokenStays(f, b', s, t);
      HeadBitsBack(f, b', s, t, acc, acc');
      AppendEncodes(f, toks, t);
    }
  }

  lemma HeadBitsBack(f: seq<byte>, b': seq<byte>, s: Cursor, t: Token, acc: nat, acc': nat)
    requires s.indicPos + 4 <= s.pos
    requires s.nib == 0 || !(s.indicPos <= s.nib < s.indicPos + 4)
    requires Agree(f, b', Advance(s, t)) && HeadBits(f, Advance(s, t), acc')
    requires (s.count + 1) % 32 != 0 ==> acc' == 2 * acc + Bit(t)
    requires (s.count + 1) % 32 == 0 ==> Word32(b', s.indicPos) == 2 * acc + Bit(t)
    ensures HeadBits(f, s, acc) && BitAt(f, s, t)
  {
    var w := Word32(f, s.indicPos);
    if (s.count + 1) % 32 == 0 {
      assert forall i :: s.indicPos <= i < s.indicPos + 4 ==> f[i] == b'[i];
      assert w == Word32(b', s.indicPos);
      assert Shr(w, 0) == w;
      assert Shr(w, 1) == w / 2;
    } else {
      assert Shr(w, 31 - s.count % 32) == 2 * acc + Bit(t);
    }
  }

  lemma AppendEncodes(f: seq<byte>, toks: seq<Token>, t: Token)
    requires Encodes(f, toks)
    requires TokenAt(f, CursorAfter(toks), t) && BitAt(f, CursorAfter(toks), t)
    ensures Encodes(f, toks + [t])
  {
    var all := toks + [t];
    forall k | 0 <= k < |all|
      ensures EncodesOne(f, all, k)
    {
      assert all[..k] == toks[..k];
      if k < |toks| {
        assert EncodesOne(f, toks, k);
      } else {
        assert toks[..k] == toks;
      }
    }
  }

  /** Once the last, partly filled word is stored, the buffer encodes the tokens. */
  lemma FinishWritten(b: seq<byte>, b': seq<byte>, toks: seq<Token>, acc: nat)
    requires Written(b, toks, acc)
    requires Agree(b', b, CursorAfter(toks))
    requires |toks| % 32 == 0 ==> acc == 0
    requires |toks| % 32 > 0 ==> Word32(b', CursorAfter(toks).indicPos) == Shl(acc, 32 - |toks| % 32)
    ensures Encodes(b', toks)
  {
    var s := CursorAfter(toks);
    if |toks| % 32 > 0 {
      ShrShl(acc, 32 - |toks| % 32);
    } else {
      ShrWord(Word32(b', s.indicPos));
    }
    assert HeadBits(b', s, acc);
  }
}
