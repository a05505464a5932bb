/** How long a stream is, in closed form, and streams written out byte by byte. */
module LzVectors {
  import opened Common
  import opened LzBits
  import opened LzFormat
  import opened LzDecode
  import opened LzDecodeProps
  import opened LzGreedy
  import opened LzGreedyProps

  /** The bytes of a token, its length nibble aside. */
  function Own(t: Token): nat {
    if t.Literal? then 1 else if t.length < 25 then 2 else if t.length < 280 then 3 else 5
  }

  function OwnBytes(toks: seq<Token>): nat {
    if toks == [] then 0 else OwnBytes(toks[..|toks| - 1]) + Own(toks[|toks| - 1])
  }

  /** A match that has a length nibble. */
  predicate Long(t: Token) {
    t.Match? && t.length >= 10
  }

  function Nibbles(toks: seq<Token>): nat {
    if toks == [] then 0 else Nibbles(toks[..|toks| - 1]) + (if Long(toks[|toks| - 1]) then 1 else 0)
  }

  /** Two nibbles share a byte. */
  function NibbleBytes(m: nat): nat {
    (m + 1) / 2
  }

  /** The groups of 32 tokens that are full. */
  function FullGroups(count: nat): nat {
    count / 32
  }

  lemma OneMoreNibble(m: nat)
    ensures NibbleBytes(m + 1) == NibbleBytes(m) + (if m % 2 == 0 then 1 else 0)
    ensures (m + 1) % 2 == 0 <==> m % 2 != 0
  {
  }

  lemma OneMoreToken(count: nat)
    ensures FullGroups(count + 1) == FullGroups(count) + (if (count + 1) % 32 == 0 then 1 else 0)
  {
  }

  lemma {:induction false} CursorIs(toks: seq<Token>)
    ensures var s := CursorAfter(toks);
            && s.pos == 4 + OwnBytes(toks) + NibbleBytes(Nibbles(toks)) + 4 * FullGroups(|toks|)
            && (s.nib == 0 <==> Nibbles(toks) % 2 == 0)
  {
    if toks != [] {
      hide Advance, NibbleBytes, FullGroups, Own, Long;
      var rest, t := toks[..|toks| - 1], toks[|toks| - 1];
      CursorIs(rest);
      OneMoreNibble(Nibbles(rest));
      OneMoreToken(|rest|);
      CursorStep(CursorAfter(rest), t);
      assert CursorAfter(toks) == Advance(CursorAfter(rest), t);
      hide CursorAfter;
    }
  }

  lemma CursorStep(s: Cursor, t: Token)
    ensures && Advance(s, t).pos == s.pos + Own(t) + (if Long(t) && s.nib == 0 then 1 else 0)
                                    + (if (s.count + 1) % 32 == 0 then 4 else 0)
            && (Advance(s, t).nib == 0 <==> if Long(t) then s.nib != 0 else s.nib == 0)
  {
  }

  /**
   * The reported size: the tokens, a byte for every two nibbles, an indicator word for every 32 tokens
   * begun or completed, and four bytes more when the last group is not full.
   */
  lemma StreamSizeIs(toks: seq<Token>)
    ensures StreamSize(toks) == OwnBytes(toks) + NibbleBytes(Nibbles(toks)) + 4 * (FullGroups(|toks|) + 1)
                                + (if |toks| % 32 == 0 then 0 else 4)
  {
    CursorIs(toks);
    hide OwnBytes, Nibbles;
  }

  /** Sixteen equal bytes cost a literal, a match and the literal of the tail: thirteen bytes. */
  lemma SixteenEqualBytes(d: seq<byte>, a: byte)
    requires |d| == 17 && forall i :: 0 <= i < 16 ==> d[i] == a
    ensures Tokens(d, 16, 0) == [Literal(a), Match(1, 15), Literal(d[16])]
    ensures StreamSize(Tokens(d, 16, 0)) == 13
  {
    var toks := [Literal(a), Match(1, 15), Literal(d[16])];
    hide Tokens, StreamSize;
    assert IsGreedy(d, 16, 0, toks[0]) && IsGreedy(d, 16, 1, toks[1]);
    assert toks[1..] == [Match(1, 15), Literal(d[16])] && toks[1..][1..] == [Literal(d[16])];
    assert IsTail(d, 16, 16, [Literal(d[16])]);
    assert IsParse(d, 16, 1, toks[1..]);
    assert IsParse(d, 16, 0, toks);
    TokensAreGreedy(d, 16, 0);
    ParseUnique(d, 16, 0, Tokens(d, 16, 0), toks);
    StreamSizeIs(toks);
    assert toks[..2][..1] == toks[..1] && toks[..1][..0] == [];
    assert OwnBytes(toks[..1]) == 1 && Nibbles(toks[..1]) == 0;
    assert OwnBytes(toks[..2]) == 3 && Nibbles(toks[..2]) == 1;
  }

  lemma {:induction false} ShrMonotone(x: nat, y: nat, k: nat)
    requires x <= y
    ensures Shr(x, k) <= Shr(y, k)
  {
    if k > 0 {
      ShrMonotone(x, y, k - 1);
    }
  }

  /** The top bits of 0x1FFFFFFF: three clear ones and a set one. */
  lemma TopBits()
    ensures Shr(0x1FFF_FFFF, 31) == Shr(0x1FFF_FFFF, 30) == Shr(0x1FFF_FFFF, 29) == 0 && Shr(0x1FFF_FFFF, 28) == 1
  {
    hide Shr;
    Shl32();
    ShlShl(1, 29, 3);
    ShlAdd(1, 1, 28);
    assert Shl(1, 29) == Shl(2, 28);
    EightTimes(Shl(1, 29));
    ShrBound(0x1FFF_FFFF, 29, 0);
    ShrBound(0x1FFF_FFFF, 28, 1);
    ShrShl(1, 28);
    ShrMonotone(Shl(1, 28), 0x1FFF_FFFF, 28);
    assert Shl(1, 1) == 2 && Shl(1, 0) == 1;
    TwoMore(0x1FFF_FFFF, 29);
  }

  lemma EightTimes(x: nat)
    ensures Shl(x, 3) == 8 * x
  {
  }

  lemma TwoMore(x: nat, k: nat)
    requires Shr(x, k) == 0
    ensures Shr(x, k + 1) == Shr(x, k + 2) == 0
  {
  }

  const ABC: seq<byte> := [0x61, 0x62, 0x63]

  /**
   * The stream that [MS-XCA] gives for "abc" a hundred times: three literals, and one match whose
   * length needs the nibble, the byte and the 16-bit form.
   */
  lemma HundredTimesAbc(input: seq<byte>)
    requires input == [0xFF, 0xFF, 0xFF, 0x1F, 0x61, 0x62, 0x63, 0x17, 0x00, 0x0F, 0xFF, 0x26, 0x01]
    ensures var r := Decode(input, 13, 300, RESET, []);
            r.Some? && |r.value| == 300 && forall i :: 0 <= i < 300 ==> r.value[i] == ABC[i % 3]
  {
    hide Shr, CopyUpTo, Copy;
    TopBits();
    assert Word32(input, 0) == 0x1FFF_FFFF;
    var w := 0x1FFF_FFFF;
    var r1, r2, r3, r4 := Reader(5, w, 31, 0), Reader(6, w, 30, 0), Reader(7, w, 29, 0), Reader(13, w, 28, 9);
    assert NextToken(input, RESET) == Some((Literal(0x61), r1));
    assert NextToken(input, r1) == Some((Literal(0x62), r2));
    assert NextToken(input, r2) == Some((Literal(0x63), r3));
    AbcMatch(input);
    assert NextToken(input, r3) == Some((Match(3, 297), r4));
    hide NextToken;
    assert [] + [0x61] == [0x61] && [0x61] + [0x62] == [0x61, 0x62] && [0x61, 0x62] + [0x63] == ABC;
    var out := CopyUpTo(ABC, 3, 297, 300);
    assert Decode(input, 13, 300, r3, ABC) == Some(out);
    assert Decode(input, 13, 300, r2, [0x61, 0x62]) == Some(out);
    assert Decode(input, 13, 300, r1, [0x61]) == Some(out);
    CopyUpToIsTruncatedCopy(ABC, 3, 297, 300);
    assert out == Copy(ABC, 3, 297);
    Periodic(out, 299);
  }

  lemma AbcMatch(input: seq<byte>)
    requires input == [0xFF, 0xFF, 0xFF, 0x1F, 0x61, 0x62, 0x63, 0x17, 0x00, 0x0F, 0xFF, 0x26, 0x01]
    ensures ReadMatch(input, 7, 0) == Some((Match(3, 297), 13, 9))
  {
    assert Word16(input, 7) == 0x17 && Word16(input, 11) == 0x126;
  }

  lemma {:induction false} Periodic(out: seq<byte>, k: nat)
    requires k < |out| && ABC <= out && forall i :: 3 <= i < |out| ==> out[i] == out[i - 3]
    ensures forall i :: 0 <= i <= k ==> out[i] == ABC[i % 3]
  {
    if k >= 1 {
      Periodic(out, k - 1);
    }
    if k < 3 {
      assert out[k] == out[..3][k];
    } else {
      assert out[k] == out[k - 3] && (k - 3) % 3 == k % 3;
    }
  }
}
