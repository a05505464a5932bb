/** `lzxpress_compress` of lib/compression/lzxpress.c. */
module LzCompress {
  import opened Common
  import opened LzBits
  import opened LzFormat
  import opened LzGreedy
  import opened LzGreedyProps
  import opened LzWrite

  /** An upper bound on the reported size for `n` bytes of plain text. */
  function SizeBound(n: nat): nat {
    n + 9 + 4 * ((n + 1) / 32)
  }

  /** The search loop: every offset of the window, strictly longer matches win. */
  method FindLongest(d: array<byte>, n: nat, p: nat) returns (found: bool, bestLen: nat, bestOffset: nat)
    requires p < n <= d.Length
    ensures found <==> bestOffset != 0
    ensures (bestLen, bestOffset) == Best(d[..], p, Min(LONGEST, n - p), Min(WINDOW, p))
  {
    var maxOffset: nat := Min(WINDOW, p);
    found, bestLen, bestOffset := false, 2, 0;
    var offset := 1;
    while offset <= maxOffset
      invariant 1 <= offset <= maxOffset + 1
      invariant found <==> bestOffset != 0
      invariant (bestLen, bestOffset) == Best(d[..], p, Min(LONGEST, n - p), offset - 1)
    {
      var maxLen: nat := Min(LONGEST, n - p);
      var len := 0;
      while len < maxLen && d[p + len] == d[p + len - offset]
        invariant len <= maxLen
        invariant MatchFrom(d[..], p, offset, 0, maxLen) == MatchFrom(d[..], p, offset, len, maxLen)
      {
        len := len + 1;
      }
      if len > bestLen {
        found, bestLen, bestOffset := true, len, offset;
      }
      offset := offset + 1;
    }
  }

  /** `*(uint32_t *)&buf[i] = w` on a little-endian host. */
  method StoreWord32(buf: array<byte>, i: nat, w: nat)
    requires i + 4 <= buf.Length && w < WORD32
    modifies buf
    ensures Word32(buf[..], i) == w
    ensures forall k :: 0 <= k < buf.Length && !(i <= k < i + 4) ==> buf[k] == old(buf[k])
  {
    var w1 := w / 0x100;
    var w2 := w1 / 0x100;
    buf[i], buf[i + 1], buf[i + 2], buf[i + 3] := w % 0x100, w1 % 0x100, w2 % 0x100, w2 / 0x100;
  }

  /** The nibble of value `v` is where a length at `pos` keeps it: low half of a new byte, or high half of `nib`. */
  ghost predicate NibbleAt(buf: seq<byte>, pos: nat, nib: nat, v: nat) {
    if nib == 0 then pos < |buf| && buf[pos] % 16 == v else nib < |buf| && buf[nib] / 16 == v
  }

  /** Only the new byte at `pos`, or the high half of `nib`, differs between `f` and `g`. */
  ghost predicate SameButNibble(f: seq<byte>, g: seq<byte>, pos: nat, nib: nat) {
    && |f| == |g|
    && (forall k :: 0 <= k < |f| && k != (if nib == 0 then pos else nib) ==> f[k] == g[k])
    && (nib != 0 && nib < |f| ==> f[nib] % 16 == g[nib] % 16)
  }

  /** A new byte is overwritten; the waiting byte has its high half cleared and set. */
  method StoreNibble(buf: array<byte>, pos: nat, nib: nat, v: nat)
    requires v < 16 && nib <= pos < buf.Length + (if nib == 0 then 0 else 1)
    requires nib < buf.Length
    modifies buf
    ensures NibbleAt(buf[..], pos, nib, v) && SameButNibble(buf[..], old(buf[..]), pos, nib)
  {
    if nib == 0 {
      buf[pos] := v % 16;
    } else {
      buf[nib] := buf[nib] % 16;
      buf[nib] := buf[nib] + v * 16;
    }
  }

  /** The longest form only ORs fifteen in, so a new byte keeps whatever high half the buffer had. */
  method OrNibble15(buf: array<byte>, pos: nat, nib: nat)
    requires nib <= pos < buf.Length + (if nib == 0 then 0 else 1)
    requires nib < buf.Length
    modifies buf
    ensures NibbleAt(buf[..], pos, nib, 15) && SameButNibble(buf[..], old(buf[..]), pos, nib)
  {
    if nib == 0 {
      buf[pos] := buf[pos] / 16 * 16 + 15;
    } else {
      buf[nib] := buf[nib] % 16 + 15 * 16;
    }
  }

  /** The nibble of a long match and its extensions; the metadata word before `pos` is in place. */
  method EmitLong(buf: array<byte>, pos: nat, nib: nat, len: nat) returns (size: nat)
    requires 0 < pos && nib < pos && 10 <= len <= LONGEST
    requires pos + (if nib != 0 then 0 else 1) + (if len < 25 then 0 else if len < 280 then 1 else 3) <= buf.Length
    modifies buf
    ensures size == (if nib != 0 then 0 else 1) + (if len < 25 then 0 else if len < 280 then 1 else 3)
    ensures NibbleAt(buf[..], pos, nib, Min(len - 10, 15))
    ensures var q := pos + (if nib != 0 then 0 else 1);
            && (len >= 25 ==> buf[q] == Min(len - 25, 255))
            && (len == 280 ==> Word16(buf[..], q + 1) == len - 3)
    ensures forall k :: 0 <= k < pos && k != nib ==> buf[k] == old(buf[k])
    ensures nib != 0 ==> buf[nib] % 16 == old(buf[nib]) % 16
    ensures nib == 0 ==> forall k :: 0 <= k < pos ==> buf[k] == old(buf[k])
    ensures forall k :: pos + size <= k < buf.Length ==> buf[k] == old(buf[k])
  {
    size := if nib == 0 then 1 else 0;
    if len < 15 + 7 + 3 {
      StoreNibble(buf, pos, nib, len - (3 + 7));
    } else if len < 3 + 7 + 15 + 255 {
      StoreNibble(buf, pos, nib, 15);
      buf[pos + size] := (len - (3 + 7 + 15)) % 0x100;
      size := size + 1;
    } else {
      OrNibble15(buf, pos, nib);
      buf[pos + size] := 255;
      StoreWord16(buf, pos + size + 1, len - 3);
      size := size + 3;
    }
  }

  /** The metadata word, the shared nibble and the length extensions of one match. */
  method EmitMatch(buf: array<byte>, nib: nat, len: nat, offset: nat, ghost s: Cursor, pos: nat) returns (size: nat)
    requires s.pos == pos && s.nib == nib && nib < pos && s.indicPos + 4 <= pos
    requires nib == 0 || !(s.indicPos <= nib < s.indicPos + 4)
    requires 1 <= offset <= WINDOW && 3 <= len <= LONGEST
    requires pos + TokenSize(Match(offset, len), nib != 0) <= buf.Length
    modifies buf
    ensures size == TokenSize(Match(offset, len), nib != 0)
    ensures TokenAt(buf[..], s, Match(offset, len))
    ensures Agree(buf[..], old(buf[..]), s)
    ensures forall k :: pos + size <= k < buf.Length ==> buf[k] == old(buf[k])
  {
    StoreWord16(buf, pos, (offset - 1) * 8 + (if len < 10 then len - 3 else 7));
    size := 2;
    if len >= 10 {
      var more := EmitLong(buf, pos + 2, nib, len);
      size := size + more;
    }
  }

  method StoreWord16(buf: array<byte>, i: nat, w: nat)
    requires i + 2 <= buf.Length && w < 0x1_0000
    modifies buf
    ensures Word16(buf[..], i) == w
    ensures forall k :: 0 <= k < buf.Length && !(i <= k < i + 2) ==> buf[k] == old(buf[k])
  {
    buf[i], buf[i + 1] := w % 0x100, w / 0x100;
  }

  /** What the loops keep: the tokens so far are written, and `indic` holds the bits of the open group. */
  ghost predicate Progress(buf: seq<byte>, toks: seq<Token>, acc: nat, indic: nat) {
    && Written(buf, toks, acc)
    && acc < Shl(1, |toks| % 32)
    && indic == Shl(acc, 32 - |toks| % 32)
  }

  /** After the data of token `t`: a full group stores its indicator word and reserves the next one. */
  method CloseGroup(buf: array<byte>, indic: nat, indicBit: nat, indicPos: nat, pos: nat,
    ghost b: seq<byte>, ghost toks: seq<Token>, ghost t: Token, ghost acc: nat)
    returns (indic': nat, indicPos': nat, pos': nat, ghost acc': nat)
    requires indicPos == CursorAfter(toks).indicPos && indicBit == |toks| + 1
    requires pos == CursorAfter(toks).pos + TokenSize(t, CursorAfter(toks).nib != 0)
    requires pos + 4 <= buf.Length
    requires Written(b, toks, acc) && acc < Shl(1, |toks| % 32)
    requires indic == Shl(2 * acc + Bit(t), 31 - |toks| % 32)
    requires Agree(buf[..], b, CursorAfter(toks)) && TokenAt(buf[..], CursorAfter(toks), t)
    modifies buf
    ensures CursorAfter(toks + [t]) == Cursor(pos', indicPos', indicBit, Advance(CursorAfter(toks), t).nib)
    ensures Progress(buf[..], toks + [t], acc', indic')
    ensures pos <= pos'
    ensures forall k :: pos <= k < buf.Length ==> buf[k] == old(buf[k])
  {
    hide Written, Agree, TokenAt, TokenSize, Shl, Shr, Word32, CursorAfter;
    ghost var s := CursorAfter(toks);
    CursorSnoc(toks, t);
    AppendBit(acc, |toks| % 32, 31 - |toks| % 32);
    indic', indicPos', pos' := indic, indicPos, pos;
    acc' := 2 * acc + Bit(t);
    ShlEnds(acc');
    ghost var b' := buf[..];
    if (indicBit - 1) % 32 > indicBit % 32 {
      WordFits(acc', 32);
      StoreWord32(buf, indicPos', indic');
      StoredOverOpenWord(b, b', buf[..], s, t);
      indic' := 0;
      indicPos' := pos';
      pos' := pos' + 4;
      acc' := 0;
    }
    ExtendWritten(b, buf[..], toks, t, acc, acc');
  }

  lemma ShlEnds(x: nat)
    ensures Shl(x, 0) == x && Shl(0, 32) == 0 && Shl(1, 0) == 1
  {
    ShlZero(32);
  }

  lemma WordFits(acc: nat, k: nat)
    requires k <= 32 && acc < Shl(1, k)
    ensures Shl(acc, 32 - k) < WORD32
  {
    ShlStrict(acc, Shl(1, k), 32 - k);
    ShlShl(1, k, 32 - k);
    Shl32();
  }

  lemma StoredOverOpenWord(b: seq<byte>, f: seq<byte>, g: seq<byte>, s: Cursor, t: Token)
    requires TokenAt(f, s, t) && |f| == |g| && Agree(f, b, s)
    requires s.indicPos + 4 <= s.pos
    requires s.nib == 0 || !(s.indicPos <= s.nib < s.indicPos + 4)
    requires forall k :: 0 <= k < |f| && !(s.indicPos <= k < s.indicPos + 4) ==> f[k] == g[k]
    ensures TokenAt(g, s, t) && Agree(g, b, s)
  {
  }

  /** The write cursor and counters of the compressor, and the tokens they stand for. */
  ghost predicate Between(buf: seq<byte>, toks: seq<Token>, acc: nat, up: nat,
                          cp: nat, indic: nat, indicPos: nat, indicBit: nat, nib: nat)
  {
    && CursorAfter(toks) == Cursor(cp, indicPos, indicBit, nib)
    && Progress(buf, toks, acc, indic)
    && TotalCovered(toks) == up
    && forall t :: t in toks ==> Encodable(t)
  }

  /** Room for one more token, its possible indicator word, and nothing past the bound. */
  lemma Room(toks: seq<Token>, t: Token, n: nat)
    requires forall u :: u in toks ==> Encodable(u)
    requires Encodable(t) && TotalCovered(toks) + Covered(t) <= n + 1
    ensures CursorAfter(toks).pos + TokenSize(t, CursorAfter(toks).nib != 0) + 4 <= SizeBound(n)
    ensures CursorAfter(toks).pos + 4 <= SizeBound(n)
  {
    hide CursorAfter, TokenSize, Covered, TotalCovered, Encodable;
    CursorBound(toks);
    CostsAtMostItCovers(t, CursorAfter(toks).nib != 0);
    assert |toks| / 32 <= (n + 1) / 32;
  }

  /** One round of the main loop: the chosen token's data, its indicator bit, and the group's end. */
  method MainStep(d: array<byte>, n: nat, up: nat, buf: array<byte>,
    cp: nat, indic: nat, indicPos: nat, indicBit: nat, nib: nat, ghost toks: seq<Token>, ghost acc: nat)
    returns (up': nat, cp': nat, indic': nat, indicPos': nat, indicBit': nat, nib': nat, ghost acc': nat)
    requires d != buf && up < n < d.Length && SizeBound(n) <= buf.Length
    requires Between(buf[..], toks, acc, up, cp, indic, indicPos, indicBit, nib)
    modifies buf
    ensures up' == up + Covered(Choose(d[..], n, up)) <= n
    ensures Between(buf[..], toks + [Choose(d[..], n, up)], acc', up', cp', indic', indicPos', indicBit', nib')
    ensures forall k :: SizeBound(n) - 4 <= k < buf.Length ==> buf[k] == old(buf[k])
  {
    hide Best, Written, Agree, TokenAt, Shr, Shl, Word32, CursorAfter, TotalCovered;
    ghost var t := Choose(d[..], n, up);
    ghost var b := buf[..];
    ChooseCovers(d[..], n, up);
    TotalCoveredSnoc(toks, t);
    Room(toks, t, n);
    AppendBit(acc, |toks| % 32, 31 - |toks| % 32);
    var found, bestLen, bestOffset := FindLongest(d, n, up);
    up', cp', indic', indicPos', indicBit', nib' := up, cp, indic, indicPos, indicBit, nib;
    if found {
      var size := EmitMatch(buf, nib', bestLen, bestOffset, CursorAfter(toks), cp');
      indic' := OrBit(indic', 32 - (indicBit' % 32 + 1));
      if bestLen > 9 {
        nib' := if nib' == 0 then cp' + 2 else 0;
      }
      cp' := cp' + size;
      up' := up' + bestLen;
    } else {
      StoreByte(buf, cp', d[up'], CursorAfter(toks));
      cp' := cp' + 1;
      up' := up' + 1;
    }
    indicBit' := indicBit' + 1;
    indic', indicPos', cp', acc' := CloseGroup(buf, indic', indicBit', indicPos', cp', b, toks, t, acc);
  }

  method StoreByte(buf: array<byte>, pos: nat, v: byte, ghost s: Cursor)
    requires pos < buf.Length && s.pos == pos && s.nib < pos
    modifies buf
    ensures TokenAt(buf[..], s, Literal(v))
    ensures Agree(buf[..], old(buf[..]), s)
    ensures forall k :: pos < k < buf.Length ==> buf[k] == old(buf[k])
  {
    buf[pos] := v;
  }

  /** One round of the tail loop: a literal, whose indicator bit stays clear. */
  method TailStep(d: array<byte>, n: nat, up: nat, buf: array<byte>,
    cp: nat, indic: nat, indicPos: nat, indicBit: nat, nib: nat, ghost toks: seq<Token>, ghost acc: nat)
    returns (cp': nat, indic': nat, indicPos': nat, ghost acc': nat)
    requires d != buf && up <= n < d.Length && SizeBound(n) <= buf.Length
    requires Between(buf[..], toks, acc, up, cp, indic, indicPos, indicBit, nib)
    modifies buf
    ensures Between(buf[..], toks + [Literal(d[up])], acc', up + 1, cp', indic', indicPos', indicBit + 1, nib)
    ensures forall k :: SizeBound(n) - 4 <= k < buf.Length ==> buf[k] == old(buf[k])
  {
    hide Written, Agree, TokenAt, Shr, Shl, Word32, CursorAfter, TotalCovered;
    ghost var t := Literal(d[up]);
    ghost var b := buf[..];
    TotalCoveredSnoc(toks, t);
    Room(toks, t, n);
    AppendBit(acc, |toks| % 32, 31 - |toks| % 32);
    StoreByte(buf, cp, d[up], CursorAfter(toks));
    indic', indicPos', cp', acc' := CloseGroup(buf, indic, indicBit + 1, indicPos, cp + 1, b, toks, t, acc);
  }

  lemma OneMoreToken(text: seq<byte>, n: nat, p: nat, toks: seq<Token>)
    requires p < n < |text|
    ensures var t := Choose(text, n, p);
            var next := p + Covered(t);
            && next <= n
            && toks + Tokens(text, n, p) == (toks + [t]) + (if n - next > 3 then Tokens(text, n, next)
                                                            else Literals(text, next, TailEnd(n, next)))
  {
    hide Choose, Covered;
    ChooseCovers(text, n, p);
  }

  /** The main loop: at least one round, until three bytes or fewer are left. */
  method MainLoop(d: array<byte>, n: nat, buf: array<byte>)
    returns (up: nat, cp: nat, indic: nat, indicPos: nat, indicBit: nat, nib: nat,
             ghost toks: seq<Token>, ghost acc: nat)
    requires d != buf && 0 < n < d.Length && SizeBound(n) <= buf.Length
    modifies buf
    ensures up <= n
    ensures Between(buf[..], toks, acc, up, cp, indic, indicPos, indicBit, nib)
    ensures toks + Literals(d[..], up, TailEnd(n, up)) == Tokens(d[..], n, 0)
    ensures forall k :: SizeBound(n) - 4 <= k < buf.Length ==> buf[k] == old(buf[k])
  {
    hide Choose, Progress, Covered, Encodable, CursorAfter, TotalCovered, Between, Tokens, Literals;
    toks, acc := [], 0;
    up, cp, indic, indicPos, indicBit, nib := 0, 4, 0, 0, 0, 0;
    StartBetween(buf[..]);
    var more := true;
    while more
      invariant up <= n
      invariant Between(buf[..], toks, acc, up, cp, indic, indicPos, indicBit, nib)
      invariant more ==> up < n
      invariant toks + (if more then Tokens(d[..], n, up) else Literals(d[..], up, TailEnd(n, up)))
                == Tokens(d[..], n, 0)
      invariant forall k :: SizeBound(n) - 4 <= k < buf.Length ==> buf[k] == old(buf[k])
      decreases more, n - up
    {
      ghost var t, p := Choose(d[..], n, up), up;
      ChooseCovers(d[..], n, up);
      up, cp, indic, indicPos, indicBit, nib, acc :=
        MainStep(d, n, up, buf, cp, indic, indicPos, indicBit, nib, toks, acc);
      more := n - up > 3;
      OneMoreToken(d[..], n, p, toks);
      toks := toks + [t];
    }
  }

  /** The tail loop: every byte left as a literal, or one byte past the end when none is left. */
  method TailLoop(d: array<byte>, n: nat, up0: nat, buf: array<byte>, cp0: nat, indic0: nat, indicPos0: nat,
    indicBit0: nat, nib: nat, ghost toks0: seq<Token>, ghost acc0: nat)
    returns (cp: nat, indic: nat, indicPos: nat, indicBit: nat, ghost acc: nat)
    requires d != buf && up0 <= n < d.Length && SizeBound(n) <= buf.Length
    requires Between(buf[..], toks0, acc0, up0, cp0, indic0, indicPos0, indicBit0, nib)
    modifies buf
    ensures Between(buf[..], toks0 + Literals(d[..], up0, TailEnd(n, up0)), acc, TailEnd(n, up0),
                    cp, indic, indicPos, indicBit, nib)
    ensures forall k :: SizeBound(n) - 4 <= k < buf.Length ==> buf[k] == old(buf[k])
  {
    hide Progress, CursorAfter, TotalCovered, Between;
    cp, indic, indicPos, indicBit, acc := cp0, indic0, indicPos0, indicBit0, acc0;
    var up := up0;
    ghost var end, toks := TailEnd(n, up0), toks0;
    ghost var goal := toks0 + Literals(d[..], up0, end);
    var more := true;
    while more
      invariant up <= end && (more <==> up < end)
      invariant Between(buf[..], toks, acc, up, cp, indic, indicPos, indicBit, nib)
      invariant toks + Literals(d[..], up, end) == goal
      invariant forall k :: SizeBound(n) - 4 <= k < buf.Length ==> buf[k] == old(buf[k])
      decreases end - up
    {
      cp, indic, indicPos, acc := TailStep(d, n, up, buf, cp, indic, indicPos, indicBit, nib, toks, acc);
      indicBit := indicBit + 1;
      toks := toks + [Literal(d[up])];
      up := up + 1;
      more := up < n;
    }
    assert toks == goal;
  }

  /**
   * `lzxpress_compress`; the fourth C parameter is never read. The text needs one readable byte past
   * its end and the buffer must hold the bound; what the buffer held before does not matter.
   */
  method Compress(d: array<byte>, n: nat, buf: array<byte>) returns (size: nat)
    requires d != buf
    requires n == 0 || (n < d.Length && SizeBound(n) <= buf.Length)
    requires SizeBound(n) < WORD32
    modifies buf
    ensures n == 0 ==> size == 0 && buf[..] == old(buf[..])
    ensures n > 0 ==>
              && size == StreamSize(Tokens(d[..], n, 0)) <= SizeBound(n)
              && Encodes(buf[..], Tokens(d[..], n, 0))
              && IsParse(d[..], n, 0, Tokens(d[..], n, 0))
    ensures forall k :: SizeBound(n) - 4 <= k < buf.Length ==> buf[k] == old(buf[k])
  {
    if n == 0 {
      return 0;
    }
    hide Between, Encodes, IsParse;
    TokensAreGreedy(d[..], n, 0);
    var up: nat, cp: nat, indic: nat, indicPos: nat, indicBit: nat, nib: nat;
    ghost var toks, acc;
    up, cp, indic, indicPos, indicBit, nib, toks, acc := MainLoop(d, n, buf);
    ghost var end := TailEnd(n, up);
    cp, indic, indicPos, indicBit, acc := TailLoop(d, n, up, buf, cp, indic, indicPos, indicBit, nib, toks, acc);
    size := FinishStream(n, buf, cp, indic, indicPos, indicBit, nib, Tokens(d[..], n, 0), acc, end);
  }

  lemma StartBetween(buf: seq<byte>)
    ensures Between(buf, [], 0, 0, 4, 0, 0, 0, 0)
  {
    ShlZero(32);
  }

  /** The last, partly filled indicator word; the four bytes added to the size are not written. */
  method FinishStream(n: nat, buf: array<byte>, cp: nat, indic: nat, indicPos: nat, indicBit: nat, nib: nat,
    ghost toks: seq<Token>, ghost acc: nat, ghost up: nat) returns (size: nat)
    requires Between(buf[..], toks, acc, up, cp, indic, indicPos, indicBit, nib)
    requires 0 < up <= n + 1 && SizeBound(n) <= buf.Length
    modifies buf
    ensures size == StreamSize(toks) <= SizeBound(n)
    ensures Encodes(buf[..], toks)
    ensures forall k :: SizeBound(n) - 4 <= k < buf.Length ==> buf[k] == old(buf[k])
  {
    hide Written, Encodes, Shr, Shl, Word32, CursorAfter, TotalCovered, TokenAt;
    CursorBound(toks);
    assert |toks| / 32 <= (n + 1) / 32;
    ghost var b := buf[..];
    size := cp;
    if indicBit % 32 > 0 {
      WordFits(acc, |toks| % 32);
      StoreWord32(buf, indicPos, indic);
      size := size + 4;
    }
    ShlEnds(0);
    FinishWritten(b, buf[..], toks, acc);
  }
}
