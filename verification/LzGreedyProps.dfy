/** What the compressor's choice of tokens amounts to, said without the search that makes it. */
module LzGreedyProps {
  import opened Common
  import opened LzFormat
  import opened LzGreedy

  /** The `len` bytes at `p` are those `offset` back; the two runs may overlap. */
  ghost predicate Repeats(d: seq<byte>, p: nat, offset: nat, len: nat) {
    1 <= offset <= p && p + len <= |d| && forall i :: p <= i < p + len ==> d[i] == d[i - offset]
  }

  /** A match the format can hold, in the text that ends at `n`. */
  ghost predicate IsMatch(d: seq<byte>, n: nat, p: nat, offset: nat, len: nat) {
    offset <= 0x1FFF && 3 <= len <= 280 && p + len <= n && Repeats(d, p, offset, len)
  }

  /** The longest of all matches at `p`, and the nearest one of that length. */
  ghost predicate IsBestMatch(d: seq<byte>, n: nat, p: nat, offset: nat, len: nat) {
    && IsMatch(d, n, p, offset, len)
    && forall o: nat, l: nat :: IsMatch(d, n, p, o, l) ==> l < len || (l == len && offset <= o)
  }

  /** A token of the main loop: the best match, or the byte itself exactly when there is no match. */
  ghost predicate IsGreedy(d: seq<byte>, n: nat, p: nat, t: Token)
    requires p < |d|
  {
    match t
    case Match(offset, len) => IsBestMatch(d, n, p, offset, len)
    case Literal(b) => b == d[p] && forall o: nat, l: nat :: !IsMatch(d, n, p, o, l)
  }

  /** The tail loop: one literal, and another one while text is left. */
  ghost predicate IsTail(d: seq<byte>, n: nat, p: nat, toks: seq<Token>)
    decreases |toks|
  {
    && toks != [] && p < |d| && toks[0] == Literal(d[p])
    && if p + 1 < n then IsTail(d, n, p + 1, toks[1..]) else |toks| == 1
  }

  /** The main loop from `p` on, which runs once and then as long as more than three bytes are left, and the tail. */
  ghost predicate IsParse(d: seq<byte>, n: nat, p: nat, toks: seq<Token>)
    decreases |toks|
  {
    && toks != [] && p < |d| && IsGreedy(d, n, p, toks[0])
    && var next := p + Covered(toks[0]);
       if n > next + 3 then IsParse(d, n, next, toks[1..]) else IsTail(d, n, next, toks[1..])
  }

  /** The common run from the start bounds every shorter agreement. */
  lemma RunBounds(d: seq<byte>, p: nat, offset: nat, max: nat, len: nat)
    requires 1 <= offset <= p && p + max <= |d| && len <= max
    ensures Repeats(d, p, offset, len) <==> len <= MatchFrom(d, p, offset, 0, max)
  {
    MatchFromIsRun(d, p, offset, 0, max);
    var n := MatchFrom(d, p, offset, 0, max);
    if n < len {
      assert p <= p + n < p + len && d[p + n] != d[p + n - offset];
    }
  }

  lemma ChooseIsGreedy(d: seq<byte>, n: nat, p: nat)
    requires p < n <= |d|
    ensures IsGreedy(d, n, p, Choose(d, n, p))
  {
    var max, k := Min(LONGEST, n - p), Min(WINDOW, p);
    BestIsLongestNearest(d, p, max, k);
    var (len, offset) := Best(d, p, max, k);
    hide Best, MatchFrom, Repeats;
    forall o: nat, l: nat | IsMatch(d, n, p, o, l)
      ensures offset != 0 && (l < len || (l == len && offset <= o))
    {
      assert 1 <= o <= p && l <= max by { MatchOffset(d, p, o, l); }
      RunBounds(d, p, o, max, l);
    }
    if offset != 0 {
      RunBounds(d, p, offset, max, len);
    }
  }

  lemma MatchOffset(d: seq<byte>, p: nat, o: nat, l: nat)
    requires Repeats(d, p, o, l)
    ensures 1 <= o <= p && p + l <= |d|
  {
  }

  lemma {:induction false} LiteralsAreTail(d: seq<byte>, n: nat, p: nat, end: nat)
    requires p < end <= |d| && (end == n || (p == n && end == n + 1))
    ensures IsTail(d, n, p, Literals(d, p, end))
    decreases end - p
  {
    assert Literals(d, p, end)[1..] == Literals(d, p + 1, end);
    if p + 1 < n {
      LiteralsAreTail(d, n, p + 1, end);
    }
  }

  /** The compressor's tokens are the greedy parse of the text. */
  lemma {:induction false} TokensAreGreedy(d: seq<byte>, n: nat, p: nat)
    requires p < n < |d|
    ensures IsParse(d, n, p, Tokens(d, n, p))
    decreases n - p
  {
    hide Choose, IsGreedy;
    ChooseCovers(d, n, p);
    ChooseIsGreedy(d, n, p);
    var next := p + Covered(Choose(d, n, p));
    if n - next > 3 {
      assert Tokens(d, n, p)[1..] == Tokens(d, n, next);
      TokensAreGreedy(d, n, next);
    } else {
      assert Tokens(d, n, p)[1..] == Literals(d, next, TailEnd(n, next));
      LiteralsAreTail(d, n, next, TailEnd(n, next));
    }
  }

  lemma GreedyUnique(d: seq<byte>, n: nat, p: nat, t: Token, u: Token)
    requires p < |d| && IsGreedy(d, n, p, t) && IsGreedy(d, n, p, u)
    ensures t == u
  {
    hide IsMatch;
    if t.Match? && u.Match? {
      assert IsMatch(d, n, p, t.distance, t.length) && IsMatch(d, n, p, u.distance, u.length);
    }
  }

  lemma {:induction false} TailUnique(d: seq<byte>, n: nat, p: nat, s: seq<Token>, t: seq<Token>)
    requires IsTail(d, n, p, s) && IsTail(d, n, p, t)
    ensures s == t
    decreases |s|
  {
    if p + 1 < n {
      TailUnique(d, n, p + 1, s[1..], t[1..]);
      assert s == [s[0]] + s[1..] && t == [t[0]] + t[1..];
    }
  }

  /** There is one greedy parse only, so it says all there is to say about the tokens. */
  lemma {:induction false} ParseUnique(d: seq<byte>, n: nat, p: nat, s: seq<Token>, t: seq<Token>)
    requires IsParse(d, n, p, s) && IsParse(d, n, p, t)
    ensures s == t
    decreases |s|
  {
    hide IsGreedy;
    GreedyUnique(d, n, p, s[0], t[0]);
    var next := p + Covered(s[0]);
    if n > next + 3 {
      ParseUnique(d, n, next, s[1..], t[1..]);
    } else {
      TailUnique(d, n, next, s[1..], t[1..]);
    }
    assert s == [s[0]] + s[1..] && t == [t[0]] + t[1..];
  }
}
