/** The tokens `lzxpress_compress` chooses, as a function of its input. */
module LzGreedy {
  import opened Common
  import opened LzFormat

  const WINDOW := 0x1FFF
  const LONGEST := 255 + 15 + 7 + 3

  /** How far the bytes at `p` agree with those `offset` back, counting from `len`, up to `max`. */
  function MatchFrom(d: seq<byte>, p: nat, offset: nat, len: nat, max: nat): (n: nat)
    requires 1 <= offset <= p && len <= max && p + max <= |d|
    ensures len <= n <= max
    decreases max - len
  {
    if len < max && d[p + len] == d[p + len - offset] then MatchFrom(d, p, offset, len + 1, max) else len
  }

  /** It is the length of the common run, and the longest one within `max`. */
  lemma {:induction false} MatchFromIsRun(d: seq<byte>, p: nat, offset: nat, len: nat, max: nat)
    requires 1 <= offset <= p && len <= max && p + max <= |d|
    ensures var n := MatchFrom(d, p, offset, len, max);
            && (forall i :: p + len <= i < p + n ==> d[i] == d[i - offset])
            && (n < max ==> d[p + n] != d[p + n - offset])
    decreases max - len
  {
    if len < max && d[p + len] == d[p + len - offset] {
      MatchFromIsRun(d, p, offset, len + 1, max);
    }
  }

  /** The best (length, offset) among the offsets 1 to `k`; (2, 0) when none is longer than 2. */
  function Best(d: seq<byte>, p: nat, max: nat, k: nat): (r: (nat, nat))
    requires k <= p && p + max <= |d|
  {
    if k == 0 then (2, 0)
    else
      var best := Best(d, p, max, k - 1);
      var n := MatchFrom(d, p, k, 0, max);
      if n > best.0 then (n, k) else best
  }

  /** A reference definition of what the search must find. */
  ghost predicate IsLongestNearest(d: seq<byte>, p: nat, max: nat, k: nat, len: nat, offset: nat)
    requires k <= p && p + max <= |d|
  {
    && (forall o :: 1 <= o <= k ==> MatchFrom(d, p, o, 0, max) <= (if len < 2 then 2 else len))
    && (offset == 0 ==> len == 2)
    && (offset != 0 ==>
          && len > 2 && offset <= k && MatchFrom(d, p, offset, 0, max) == len
          && forall o :: 1 <= o < offset ==> MatchFrom(d, p, o, 0, max) < len)
  }

  lemma {:induction false} BestIsLongestNearest(d: seq<byte>, p: nat, max: nat, k: nat)
    requires k <= p && p + max <= |d|
    ensures var (len, offset) := Best(d, p, max, k); IsLongestNearest(d, p, max, k, len, offset)
  {
    if k > 0 {
      BestIsLongestNearest(d, p, max, k - 1);
    }
  }

  /** The token the main loop emits at `p` when the plain text ends at `n`. */
  function Choose(d: seq<byte>, n: nat, p: nat): Token
    requires p < n <= |d|
  {
    var (len, offset) := Best(d, p, Min(LONGEST, n - p), Min(WINDOW, p));
    if offset != 0 then Match(offset, len) else Literal(d[p])
  }

  function Literals(d: seq<byte>, lo: nat, hi: nat): seq<Token>
    requires lo <= hi <= |d|
    decreases hi - lo
  {
    if lo == hi then [] else [Literal(d[lo])] + Literals(d, lo + 1, hi)
  }

  lemma ChooseCovers(d: seq<byte>, n: nat, p: nat)
    requires p < n <= |d|
    ensures var t := Choose(d, n, p); Encodable(t) && 0 < Covered(t) <= n - p
  {
    BestIsLongestNearest(d, p, Min(LONGEST, n - p), Min(WINDOW, p));
  }

  /** Where the text ends for the tail loop, which always stores at least one byte. */
  function TailEnd(n: nat, p: nat): nat {
    if p == n then n + 1 else n
  }

  /**
   * The whole token list. The main loop runs at least once and stops with three bytes or fewer
   * left; the tail loop also runs at least once, so it repeats a byte past the end when nothing is left.
   */
  function Tokens(d: seq<byte>, n: nat, p: nat): (toks: seq<Token>)
    requires p < n < |d|
    decreases n - p
  {
    ChooseCovers(d, n, p);
    var t := Choose(d, n, p);
    var p' := p + Covered(t);
    if n - p' > 3 then [t] + Tokens(d, n, p')
    else [t] + Literals(d, p', TailEnd(n, p'))
  }

  /** Where the main loop stops. */
  function MainEnd(d: seq<byte>, n: nat, p: nat): (e: nat)
    requires p < n < |d|
    ensures p < e <= n && n - e <= 3
    decreases n - p
  {
    ChooseCovers(d, n, p);
    var p' := p + Covered(Choose(d, n, p));
    if n - p' > 3 then MainEnd(d, n, p') else p'
  }

  /** How far the tokens reach: the end of the text, or one byte more when the main loop used it all up. */
  function Reach(d: seq<byte>, n: nat, p: nat): (e: nat)
    requires p < n < |d|
    ensures n <= e <= n + 1
  {
    TailEnd(n, MainEnd(d, n, p))
  }

  lemma {:induction false} CopyRebuilds(d: seq<byte>, p: nat, offset: pos, len: nat)
    requires offset <= p && p + len <= |d|
    requires forall i :: p <= i < p + len ==> d[i] == d[i - offset]
    ensures Copy(d[..p], offset, len) == d[..p + len]
    decreases len
  {
    if len > 0 {
      assert d[..p] + [d[..p][p - offset]] == d[..p + 1];
      CopyRebuilds(d, p + 1, offset, len - 1);
    }
  }

  lemma ChooseRebuilds(d: seq<byte>, n: nat, p: nat)
    requires p < n <= |d|
    ensures p + Covered(Choose(d, n, p)) <= n
    ensures ExpandOne(d[..p], Choose(d, n, p)) == d[..p + Covered(Choose(d, n, p))]
  {
    ChooseCovers(d, n, p);
    BestIsLongestNearest(d, p, Min(LONGEST, n - p), Min(WINDOW, p));
    var t := Choose(d, n, p);
    if t.Match? {
      MatchFromIsRun(d, p, t.distance, 0, Min(LONGEST, n - p));
      CopyRebuilds(d, p, t.distance, t.length);
    }
  }

  lemma {:induction false} LiteralsRebuild(d: seq<byte>, lo: nat, hi: nat)
    requires lo <= hi <= |d|
    ensures forall t :: t in Literals(d, lo, hi) ==> t.Literal?
    ensures Expand(Literals(d, lo, hi), d[..lo]) == d[..hi]
    decreases hi - lo
  {
    if lo < hi {
      LiteralsRebuild(d, lo + 1, hi);
      assert d[..lo] + [d[lo]] == d[..lo + 1];
    }
  }

  lemma {:induction false} TokensEncodable(d: seq<byte>, n: nat, p: nat)
    requires p < n < |d|
    ensures forall t :: t in Tokens(d, n, p) ==> Encodable(t)
    decreases n - p
  {
    hide Choose;
    ChooseCovers(d, n, p);
    var p' := p + Covered(Choose(d, n, p));
    if n - p' > 3 {
      TokensEncodable(d, n, p');
    } else {
      LiteralsRebuild(d, p', TailEnd(n, p'));
    }
  }

  lemma ExpandCons(t: Token, rest: seq<Token>, out: seq<byte>)
    ensures Expand([t] + rest, out) == Expand(rest, ExpandOne(out, t))
  {
    assert ([t] + rest)[1..] == rest;
  }

  /** The tokens stand for the plain text, plus the byte after it exactly when the main loop used it all up. */
  lemma {:induction false} TokensRebuild(d: seq<byte>, n: nat, p: nat)
    requires p < n < |d|
    ensures Expand(Tokens(d, n, p), d[..p]) == d[..Reach(d, n, p)]
    decreases n - p
  {
    hide Choose, Covered, Expand, ExpandOne;
    ChooseCovers(d, n, p);
    ChooseRebuilds(d, n, p);
    var t := Choose(d, n, p);
    var p' := p + Covered(t);
    if n - p' > 3 {
      TokensRebuild(d, n, p');
      ExpandCons(t, Tokens(d, n, p'), d[..p]);
    } else {
      LiteralsRebuild(d, p', TailEnd(n, p'));
      ExpandCons(t, Literals(d, p', TailEnd(n, p')), d[..p]);
    }
  }
}
