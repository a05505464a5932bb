/** Compressing and decompressing gives the plain text back. */
module LzRoundTrip {
  import opened Common
  import opened LzBits
  import opened LzFormat
  import opened LzDecode
  import opened LzDecodeProps
  import opened LzSimulation
  import opened LzGreedy
  import opened LzCompress

  /**
   * Whatever buffer holds the chosen tokens decodes to the text when the output limit is the
   * original size, and with one more to the text and the byte after it when the main loop used the
   * text up.
   */
  lemma RoundTrip(text: seq<byte>, n: nat, buf: seq<byte>)
    requires 0 < n < |text|
    requires Encodes(buf, Tokens(text, n, 0)) && StreamSize(Tokens(text, n, 0)) <= |buf|
    ensures Decode(buf, StreamSize(Tokens(text, n, 0)), n, RESET, []) == Some(text[..n])
    ensures MainEnd(text, n, 0) == n ==>
              Decode(buf, StreamSize(Tokens(text, n, 0)), n + 1, RESET, []) == Some(text[..n + 1])
  {
    hide *;
    var toks := Tokens(text, n, 0);
    TokensRebuild(text, n, 0);
    assert text[..0] == [];
    var reach := Reach(text, n, 0);
    ReachIs(text, n);
    EncodingEnds(toks);
    DecodeOfEncoding(buf, toks, StreamSize(toks), n);
    assert text[..reach][..n] == text[..n];
    if MainEnd(text, n, 0) == n {
      DecodeOfEncoding(buf, toks, StreamSize(toks), n + 1);
      assert text[..reach][..n + 1] == text[..n + 1];
    }
  }

  /** Under every limit the text comes first: the result agrees with it up to the limit. */
  lemma TextUnderEveryLimit(text: seq<byte>, n: nat, buf: seq<byte>, max: nat)
    requires 0 < n < |text| && 0 < max
    requires Encodes(buf, Tokens(text, n, 0)) && StreamSize(Tokens(text, n, 0)) + 9 <= |buf|
    ensures var r := Decode(buf, StreamSize(Tokens(text, n, 0)), max, RESET, []);
            && r.Some? && Min(max, n) <= |r.value| <= max
            && r.value[..Min(max, n)] == text[..Min(max, n)]
  {
    hide Encodes, Tokens, StreamSize, Decode, AllTokens, Expand;
    var size := StreamSize(Tokens(text, n, 0));
    EncodingEnds(Tokens(text, n, 0));
    RoundTrip(text, n, buf);
    DecodesEveryInput(buf, size, n);
    DecodesEveryInput(buf, size, max);
    var all := Expand(AllTokens(buf, size, RESET).value, []);
    assert all[..n] == text[..n];
    assert Take(all, max)[..Min(max, n)] == all[..n][..Min(max, n)];
  }

  /**
   * What follows the text is no sign of anything when the main loop did not use it up: here the
   * limit allows one byte more, and the decoder takes it from the four bytes that are counted but
   * never written.
   */
  lemma LongerLimitReadsOn(a: byte, b: byte, next: byte, stale: byte)
    ensures var text, buf := [a, b, next], [0, 0, 0, 0, a, b, stale, 0, 0, 0];
            && MainEnd(text, 2, 0) == 1
            && Encodes(buf, Tokens(text, 2, 0)) && StreamSize(Tokens(text, 2, 0)) == 10
            && Decode(buf, 10, 3, RESET, []) == Some([a, b, stale])
  {
    var text: seq<byte>, buf: seq<byte> := [a, b, next], [0, 0, 0, 0, a, b, stale, 0, 0, 0];
    hide StreamSize, Shr, CursorAfter, Decode, Encodes;
    assert Choose(text, 2, 0) == Literal(a);
    hide Choose;
    assert Literals(text, 1, 2) == [Literal(b)] + Literals(text, 2, 2) == [Literal(b)];
    assert Tokens(text, 2, 0) == [Literal(a)] + [Literal(b)];
    TwoLiterals(Literal(a), Literal(b));
    TwoLiteralsEncoded(buf, a, b);
    ThreeLiteralsDecoded(buf, a, b, stale);
  }

  lemma ThreeLiteralsDecoded(buf: seq<byte>, a: byte, b: byte, c: byte)
    requires buf == [0, 0, 0, 0, a, b, c, 0, 0, 0]
    ensures Decode(buf, 10, 3, RESET, []) == Some([a, b, c])
  {
    hide Shr;
    ShrZero(31);
    ShrZero(30);
    ShrZero(29);
    assert Word32(buf, 0) == 0;
    var r1, r2, r3 := Reader(5, 0, 31, 0), Reader(6, 0, 30, 0), Reader(7, 0, 29, 0);
    assert NextToken(buf, RESET) == Some((Literal(a), r1));
    assert NextToken(buf, r1) == Some((Literal(b), r2));
    assert NextToken(buf, r2) == Some((Literal(c), r3));
    hide NextToken;
    assert [] + [a] == [a] && [a] + [b] == [a, b] && [a, b] + [c] == [a, b, c];
    assert Decode(buf, 10, 3, r2, [a, b]) == Some([a, b, c]);
    assert Decode(buf, 10, 3, r1, [a]) == Decode(buf, 10, 3, r2, [a, b]);
  }

  lemma {:induction false} ShrZero(k: nat)
    ensures Shr(0, k) == 0
  {
    if k > 0 {
      ShrZero(k - 1);
    }
  }

  lemma TwoLiteralsEncoded(buf: seq<byte>, a: byte, b: byte)
    requires |buf| >= 6 && buf[..6] == [0, 0, 0, 0, a, b]
    ensures Encodes(buf, [Literal(a)] + [Literal(b)])
  {
    hide Shr;
    var toks := [Literal(a)] + [Literal(b)];
    assert forall i :: 0 <= i < 6 ==> buf[i] == buf[..6][i];
    ShrZero(31);
    ShrZero(30);
    assert toks[..0] == [] && toks[..1] == [Literal(a)] && [] + [Literal(a)] == [Literal(a)];
    CursorSnoc([], Literal(a));
    assert EncodesOne(buf, toks, 0) && EncodesOne(buf, toks, 1);
  }

  lemma ReachIs(text: seq<byte>, n: nat)
    requires 0 < n < |text|
    ensures Reach(text, n, 0) == if MainEnd(text, n, 0) == n then n + 1 else n
  {
  }

  lemma EncodingEnds(toks: seq<Token>)
    ensures CursorAfter(toks).pos <= StreamSize(toks)
  {
  }

  /** Both calls in sequence, with arbitrary initial contents of both buffers. */
  method CompressThenDecompress(d: array<byte>, n: nat, buf: array<byte>, out: array<byte>)
    returns (size: nat, got: nat)
    requires d != buf && d != out && buf != out
    requires 0 < n < d.Length && SizeBound(n) <= buf.Length && n <= out.Length
    requires SizeBound(n) + 10 < WORD32
    modifies buf, out
    ensures size <= SizeBound(n)
    ensures got == n && out[..n] == d[..n]
  {
    hide Encodes, Tokens, StreamSize, Decode;
    ghost var text := d[..];
    size := Compress(d, n, buf);
    assert d[..] == text;
    RoundTrip(text, n, buf[..]);
    got := Decompress(buf, size, out, n);
    assert Some(out[..got]) == Some(text[..n]);
    assert d[..] == text && d[..n] == text[..n];
    assert |out[..got]| == got;
  }

  /** The reported size for any text. */
  lemma ReportedSize(text: seq<byte>, n: nat)
    requires 0 < n < |text|
    ensures StreamSize(Tokens(text, n, 0)) <= (if MainEnd(text, n, 0) == n then SizeBound(n) else n + 8 + 4 * (n / 32))
  {
    hide CursorAfter, Encodable, Tokens, MainEnd;
    var toks := Tokens(text, n, 0);
    TokensEncodable(text, n, 0);
    CursorBound(toks);
    TokensCover(text, n, 0);
    assert |toks| / 32 <= TotalCovered(toks) / 32;
  }

  /** The fixed buffer of librpc/ndr/ndr_compression.c holds every chunk of at most 64 KiB. */
  lemma CallerBufferSuffices(text: seq<byte>, n: nat)
    requires 0 < n < |text| && n <= 0x1_0000
    ensures StreamSize(Tokens(text, n, 0)) <= SizeBound(n) <= 0x2_0000 + 2
  {
    hide Tokens, StreamSize, MainEnd;
    ReportedSize(text, n);
  }

  /** The bound is met: one byte of text costs ten. */
  lemma BoundIsTight(text: seq<byte>)
    requires |text| == 2
    ensures StreamSize(Tokens(text, 1, 0)) == SizeBound(1) == 10
  {
    hide StreamSize, CursorAfter;
    var a, b := Literal(text[0]), Literal(text[1]);
    assert Choose(text, 1, 0) == a;
    hide Choose;
    assert Literals(text, 1, 2) == [b] + Literals(text, 2, 2) == [b];
    assert Tokens(text, 1, 0) == [a] + Literals(text, 1, 2);
    TwoLiterals(a, b);
  }

  lemma TwoLiterals(a: Token, b: Token)
    requires a.Literal? && b.Literal?
    ensures StreamSize([a] + [b]) == 10
  {
    assert [] + [a] == [a];
    CursorSnoc([], a);
    CursorSnoc([a], b);
  }

  lemma {:induction false} TotalCoveredCons(t: Token, rest: seq<Token>)
    ensures TotalCovered([t] + rest) == Covered(t) + TotalCovered(rest)
    decreases |rest|
  {
    if rest != [] {
      var front, last := rest[..|rest| - 1], rest[|rest| - 1];
      assert [t] + rest == ([t] + front) + [last];
      assert rest == front + [last];
      TotalCoveredCons(t, front);
      TotalCoveredSnoc([t] + front, last);
    }
  }

  lemma {:induction false} LiteralsCover(d: seq<byte>, lo: nat, hi: nat)
    requires lo <= hi <= |d|
    ensures TotalCovered(Literals(d, lo, hi)) == hi - lo
    decreases hi - lo
  {
    if lo < hi {
      LiteralsCover(d, lo + 1, hi);
      TotalCoveredCons(Literal(d[lo]), Literals(d, lo + 1, hi));
    }
  }

  /** The tokens cover the text, plus one byte exactly when the main loop used it up. */
  lemma {:induction false} TokensCover(d: seq<byte>, n: nat, p: nat)
    requires p < n < |d|
    ensures TotalCovered(Tokens(d, n, p)) == Reach(d, n, p) - p
    decreases n - p
  {
    hide Choose, TotalCovered;
    ChooseCovers(d, n, p);
    var t := Choose(d, n, p);
    var p' := p + Covered(t);
    if n - p' > 3 {
      TokensCover(d, n, p');
      TotalCoveredCons(t, Tokens(d, n, p'));
    } else {
      var end := TailEnd(n, p');
      LiteralsCover(d, p', end);
      TotalCoveredCons(t, Literals(d, p', end));
    }
  }
}
