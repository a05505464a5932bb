/** `next_token_alloc` of nsswitch/winbind_nss_linux.c: a C string is the characters before its NUL. */
module Tokenizer {
  import opened Common

  /** The first position from `i` on that is no separator. */
  function SkipSeps(s: string, i: nat, sep: string): (k: nat)
    requires i <= |s|
    ensures i <= k <= |s|
    ensures forall j :: i <= j < k ==> s[j] in sep
    ensures k < |s| ==> s[k] !in sep
    decreases |s| - i
  {
    if i < |s| && s[i] in sep then SkipSeps(s, i + 1, sep) else i
  }

  /** Whether position `j` is inside quotes, for a token that starts at `i`. */
  function Quoted(s: string, i: nat, j: nat): bool
    requires i <= j <= |s|
    decreases j
  {
    if i == j then false else Quoted(s, i, j - 1) != (s[j - 1] == '"')
  }

  /** A separator outside quotes, or the end of the string, ends a token. */
  predicate Ends(s: string, i: nat, j: nat, sep: string)
    requires i <= j <= |s|
  {
    j == |s| || (!Quoted(s, i, j) && s[j] in sep)
  }

  /** The end of the token that starts at `i`, looking from `j` on. */
  function TokenEnd(s: string, i: nat, j: nat, sep: string): (e: nat)
    requires i <= j <= |s|
    ensures j <= e <= |s| && Ends(s, i, e, sep)
    ensures forall k :: j <= k < e ==> !Ends(s, i, k, sep)
    decreases |s| - j
  {
    if Ends(s, i, j, sep) then j else TokenEnd(s, i, j + 1, sep)
  }

  /** The characters without the quotes. */
  function Unquote(s: string): string {
    if s == [] then [] else Unquote(s[..|s| - 1]) + (if s[|s| - 1] == '"' then [] else [s[|s| - 1]])
  }

  datatype Next = Nothing | Token(text: string, pos: nat)

  /** One call at position `pos`: no token, or its text and where to go on. */
  function NextToken(s: string, pos: nat, sep: string): (n: Next)
    requires pos <= |s|
    ensures n.Token? ==> pos < n.pos <= |s|
  {
    var i := SkipSeps(s, pos, sep);
    if i == |s| then Nothing
    else
      var e := TokenEnd(s, i, i, sep);
      Token(Unquote(s[i..e]), if e < |s| then e + 1 else e)
  }

  /** All tokens from `pos` on: what the caller's loop sees. */
  function Tokens(s: string, pos: nat, sep: string): seq<string>
    requires pos <= |s|
    decreases |s| - pos
  {
    match NextToken(s, pos, sep)
    case Nothing => []
    case Token(text, pos') => [text] + Tokens(s, pos', sep)
  }

  lemma UnquoteStep(s: string, i: nat, j: nat)
    requires i <= j < |s|
    ensures Unquote(s[i..j + 1]) == Unquote(s[i..j]) + (if s[j] == '"' then [] else [s[j]])
  {
    assert s[i..j + 1][..j - i] == s[i..j];
  }

  method SkipPass(s: string, pos: nat, sep: string) returns (i: nat)
    requires pos <= |s|
    ensures i == SkipSeps(s, pos, sep)
  {
    i := pos;
    while i < |s| && s[i] in sep
      invariant pos <= i <= |s|
      invariant SkipSeps(s, i, sep) == SkipSeps(s, pos, sep)
    {
      i := i + 1;
    }
  }

  /** The sizing pass: room for the text and its NUL. */
  method SizingPass(s: string, start: nat, sep: string) returns (len: nat)
    requires start <= |s|
    ensures len == |Unquote(s[start..TokenEnd(s, start, start, sep)])| + 1
  {
    var i, quoted := start, false;
    len := 1;
    while i < |s| && (quoted || s[i] !in sep)
      invariant start <= i <= |s|
      invariant quoted == Quoted(s, start, i)
      invariant TokenEnd(s, start, i, sep) == TokenEnd(s, start, start, sep)
      invariant len == 1 + |Unquote(s[start..i])|
    {
      UnquoteStep(s, start, i);
      if s[i] == '"' {
        quoted := !quoted;
      } else {
        len := len + 1;
      }
      i := i + 1;
    }
  }

  /** The copying pass never leaves the allocation, and the NUL goes into its last byte. */
  method CopyPass(s: string, start: nat, sep: string, buf: array<char>) returns (i: nat)
    requires start <= |s|
    requires buf.Length == |Unquote(s[start..TokenEnd(s, start, start, sep)])| + 1
    modifies buf
    ensures i == TokenEnd(s, start, start, sep)
    ensures buf[..] == Unquote(s[start..i]) + ['\0']
  {
    ghost var end := TokenEnd(s, start, start, sep);
    var p: nat := 0;
    i := start;
    var quoted := false;
    while i < |s| && (quoted || s[i] !in sep)
      invariant start <= i <= end
      invariant quoted == Quoted(s, start, i)
      invariant TokenEnd(s, start, i, sep) == end
      invariant p == |Unquote(s[start..i])| < buf.Length
      invariant buf[..p] == Unquote(s[start..i])
      decreases end - i
    {
      UnquoteStep(s, start, i);
      UnquoteGrows(s, start, i + 1, end);
      if s[i] == '"' {
        quoted := !quoted;
      } else {
        buf[p] := s[i];
        p := p + 1;
      }
      i := i + 1;
    }
    buf[p] := '\0';
    assert buf[..] == buf[..p] + ['\0'];
  }

  /** The code itself: a sizing pass, an allocation of exactly that size, and a copying pass. */
  method NextTokenAlloc(s: string, pos: nat, sep: string) returns (buf: array?<char>, pos': nat)
    requires pos <= |s|
    ensures buf != null ==> fresh(buf)
    ensures match NextToken(s, pos, sep)
            case Nothing => buf == null && pos' == pos
            case Token(text, next) => buf != null && buf[..] == text + ['\0'] && pos' == next
  {
    var saved := SkipPass(s, pos, sep);
    if saved == |s| {
      return null, pos;
    }
    var len := SizingPass(s, saved, sep);
    buf := new char[len];
    var i := CopyPass(s, saved, sep, buf);
    pos' := if i < |s| then i + 1 else i;
  }

  lemma {:induction false} UnquoteGrows(s: string, i: nat, j: nat, e: nat)
    requires i <= j <= e <= |s|
    ensures |Unquote(s[i..j])| <= |Unquote(s[i..e])|
    decreases e
  {
    if j < e {
      UnquoteGrows(s, i, j, e - 1);
      UnquoteStep(s, i, e - 1);
    }
  }

  // ----- printing a list and reading it back

  /** A name that survives: not empty, no separator, no quote. */
  predicate Plain(t: string, sep: string) {
    t != [] && forall i :: 0 <= i < |t| ==> t[i] !in sep && t[i] != '"'
  }

  /** Names with one separator after each. */
  function Join(ts: seq<string>, c: char): string {
    if ts == [] then [] else ts[0] + [c] + Join(ts[1..], c)
  }

  lemma {:induction false} UnquotePlain(t: string)
    requires forall i :: 0 <= i < |t| ==> t[i] != '"'
    ensures Unquote(t) == t
  {
    if t != [] {
      UnquotePlain(t[..|t| - 1]);
    }
  }

  lemma {:induction false} PlainTokenEnd(s: string, i: nat, j: nat, e: nat, sep: string)
    requires i <= j <= e <= |s|
    requires forall k :: i <= k < e ==> s[k] !in sep && s[k] != '"'
    requires e == |s| || s[e] in sep
    requires !Quoted(s, i, j)
    ensures TokenEnd(s, i, j, sep) == e
    decreases e - j
  {
    if j < e {
      PlainTokenEnd(s, i, j + 1, e, sep);
    }
  }

  /** A plain name at `pos`, up to a separator or the end, is the next token. */
  lemma PlainToken(s: string, pos: nat, t: string, sep: string)
    requires Plain(t, sep) && pos + |t| <= |s| && s[pos..pos + |t|] == t
    requires pos + |t| == |s| || s[pos + |t|] in sep
    ensures NextToken(s, pos, sep) == Token(t, if pos + |t| < |s| then pos + |t| + 1 else pos + |t|)
  {
    var e := pos + |t|;
    assert forall k :: pos <= k < e ==> s[k] == t[k - pos];
    PlainTokenEnd(s, pos, pos, e, sep);
    UnquotePlain(t);
  }

  /** Reading back a printed list of plain names gives the names, in order. */
  lemma {:induction false} TokensOfJoin(ts: seq<string>, c: char, s: string, pos: nat)
    requires forall i :: 0 <= i < |ts| ==> Plain(ts[i], [c])
    requires pos <= |s| && s[pos..] == Join(ts, c)
    ensures Tokens(s, pos, [c]) == ts
    decreases |ts|
  {
    hide SkipSeps, TokenEnd, Quoted, Unquote, Plain, NextToken;
    if ts != [] {
      var t, rest := ts[0], Join(ts[1..], c);
      assert s[pos..] == t + [c] + rest;
      HeadOf(s, pos, t, c, rest);
      PlainToken(s, pos, t, [c]);
      TokensOfJoin(ts[1..], c, s, pos + |t| + 1);
    }
  }

  lemma HeadOf(s: string, pos: nat, t: string, c: char, rest: string)
    requires pos <= |s| && s[pos..] == t + [c] + rest
    ensures pos + |t| < |s| && s[pos..pos + |t|] == t && s[pos + |t|] == c && s[pos + |t| + 1..] == rest
  {
    assert |s[pos..]| == |t| + 1 + |rest|;
    assert s[pos..pos + |t|] == s[pos..][..|t|];
    assert s[pos + |t|] == s[pos..][|t|];
    assert s[pos + |t| + 1..] == s[pos..][|t| + 1..];
  }

  // ----- names in quotes

  /** Names in quotes, with one separator after each. */
  function JoinQuoted(ts: seq<string>, c: char): string {
    if ts == [] then [] else ['"'] + ts[0] + ['"', c] + JoinQuoted(ts[1..], c)
  }

  lemma {:induction false} QuotedInside(s: string, i: nat, j: nat)
    requires i < j <= |s| && s[i] == '"' && forall k :: i < k < j ==> s[k] != '"'
    ensures Quoted(s, i, j)
    decreases j
  {
    if j > i + 1 {
      QuotedInside(s, i, j - 1);
    }
  }

  lemma {:induction false} QuotedTokenEnd(s: string, i: nat, j: nat, e: nat, sep: string)
    requires i <= j <= e < |s| && '"' !in sep && e >= i + 2
    requires s[i] == '"' && s[e - 1] == '"' && (forall k :: i < k < e - 1 ==> s[k] != '"') && s[e] in sep
    ensures TokenEnd(s, i, j, sep) == e
    decreases e - j
  {
    if j == e {
      QuotedInside(s, i, e - 1);
    } else {
      if j > i {
        QuotedInside(s, i, j);
      }
      QuotedTokenEnd(s, i, j + 1, e, sep);
    }
  }

  lemma UnquoteOne(t: string)
    requires '"' !in t
    ensures Unquote(['"'] + t + ['"']) == t
  {
    var q := ['"'] + t;
    assert (q + ['"'])[..|q|] == q;
    UnquoteHead(t);
  }

  lemma {:induction false} UnquoteHead(t: string)
    requires '"' !in t
    ensures Unquote(['"'] + t) == t
  {
    if t != [] {
      var front := t[..|t| - 1];
      assert (['"'] + t)[..|t|] == ['"'] + front;
      UnquoteHead(front);
    }
  }

  /** A quoted name at `pos`, up to a separator, is the next token. */
  lemma QuotedToken(s: string, pos: nat, t: string, c: char)
    requires c != '"' && '"' !in t && pos + |t| + 2 < |s|
    requires s[pos] == '"' == s[pos + |t| + 1] && s[pos + 1..pos + |t| + 1] == t && s[pos + |t| + 2] == c
    ensures NextToken(s, pos, [c]) == Token(t, pos + |t| + 3)
  {
    hide TokenEnd, Quoted, Unquote;
    var e := pos + |t| + 2;
    assert forall k :: pos < k < e - 1 ==> s[k] == s[pos + 1..e - 1][k - pos - 1];
    QuotedTokenEnd(s, pos, pos, e, [c]);
    assert s[pos..e] == ['"'] + t + ['"'];
    UnquoteOne(t);
  }

  lemma QuotedHead(s: string, pos: nat, t: string, c: char, rest: string)
    requires pos <= |s| && s[pos..] == ['"'] + t + ['"', c] + rest
    ensures pos + |t| + 2 < |s| && s[pos] == '"' == s[pos + |t| + 1] && s[pos + |t| + 2] == c
    ensures s[pos + 1..pos + |t| + 1] == t && s[pos + |t| + 3..] == rest
  {
    var u := s[pos..];
    assert |u| == |t| + 3 + |rest|;
    assert s[pos] == u[0] && s[pos + |t| + 1] == u[|t| + 1] && s[pos + |t| + 2] == u[|t| + 2];
    assert s[pos + 1..pos + |t| + 1] == u[1..|t| + 1] == t;
    assert s[pos + |t| + 3..] == u[|t| + 3..] == rest;
  }

  /** Quotes protect everything but quotes: whatever stands in them is read back as it is, separators included. */
  lemma {:induction false} TokensOfQuoted(ts: seq<string>, c: char, s: string, pos: nat)
    requires c != '"' && forall i :: 0 <= i < |ts| ==> '"' !in ts[i]
    requires pos <= |s| && s[pos..] == JoinQuoted(ts, c)
    ensures Tokens(s, pos, [c]) == ts
    decreases |ts|
  {
    hide NextToken;
    if ts == [] {
      NothingLeft(s, pos, [c]);
    } else {
      QuotedHead(s, pos, ts[0], c, JoinQuoted(ts[1..], c));
      QuotedToken(s, pos, ts[0], c);
      TokensOfQuoted(ts[1..], c, s, pos + |ts[0]| + 3);
    }
  }

  lemma NothingLeft(s: string, pos: nat, sep: string)
    requires pos <= |s| && s[pos..] == []
    ensures NextToken(s, pos, sep) == Nothing
  {
  }
}
