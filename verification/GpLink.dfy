/**
 * The gPLink attribute: `gpo_parse_gplink` and the string building of `ads_add_gpo_link` in
 * libgpo/gpo_ldap.c, with `str_list_make_v3` of source3/lib/util_str.c as the splitter (its
 * next_token_talloc is the same tokenizer as the one in nsswitch/winbind_nss_linux.c).
 */
module GpLink {
  import opened Common
  import opened Tokenizer

  const WORD32 := 0x1_0000_0000

  /** One link: the DN of the policy and the 32-bit options. */
  datatype Link = Link(dn: string, opts: nat)

  // ----- decimal numbers

  function DigitChar(d: nat): char
    requires d < 10
  {
    '0' + d as char
  }

  predicate IsDigit(c: char) {
    '0' <= c <= '9'
  }

  function DigitValue(c: char): nat
    requires IsDigit(c)
  {
    c as int - '0' as int
  }

  function PrintNat(n: nat): (s: string)
    ensures s != [] && forall i :: 0 <= i < |s| ==> IsDigit(s[i])
  {
    if n < 10 then [DigitChar(n)] else PrintNat(n / 10) + [DigitChar(n % 10)]
  }

  /** `%d` on an int. */
  function PrintInt(n: int): string {
    if n < 0 then ['-'] + PrintNat(-n) else PrintNat(n)
  }

  /** The leading digits of `s`, added to `acc`. */
  function Digits(s: string, acc: nat): nat {
    if s == [] || !IsDigit(s[0]) then acc else Digits(s[1..], 10 * acc + DigitValue(s[0]))
  }

  predicate IsSpace(c: char) {
    c == ' ' || '\t' <= c <= '\r'
  }

  function SkipSpace(s: string): string {
    if s != [] && IsSpace(s[0]) then SkipSpace(s[1..]) else s
  }

  /** `atoi`, on numbers that fit. */
  function Atoi(s: string): int {
    var t := SkipSpace(s);
    if t == [] then 0
    else if t[0] == '-' then 0 - Digits(t[1..], 0)
    else if t[0] == '+' then Digits(t[1..], 0)
    else Digits(t, 0)
  }

  /** A uint32_t passed to `%d`. */
  function AsSigned(n: nat): int
    requires n < WORD32
  {
    if n < WORD32 / 2 then n else n - WORD32
  }

  /** An int stored in a uint32_t. */
  function AsUnsigned(n: int): (u: nat)
    ensures u < WORD32
  {
    n % WORD32
  }

  lemma {:induction false} DigitsSnoc(s: string, c: char, acc: nat)
    requires (forall i :: 0 <= i < |s| ==> IsDigit(s[i])) && IsDigit(c)
    ensures Digits(s + [c], acc) == 10 * Digits(s, acc) + DigitValue(c)
    decreases |s|
  {
    if s == [] {
      assert ([] + [c])[1..] == [];
    } else {
      assert (s + [c])[1..] == s[1..] + [c];
      DigitsSnoc(s[1..], c, 10 * acc + DigitValue(s[0]));
    }
  }

  lemma {:induction false} DigitsOfPrintNat(n: nat)
    ensures Digits(PrintNat(n), 0) == n
  {
    if n >= 10 {
      DigitsOfPrintNat(n / 10);
      DigitsSnoc(PrintNat(n / 10), DigitChar(n % 10), 0);
    } else {
      assert PrintNat(n)[1..] == [];
    }
  }

  lemma AtoiOfPrintInt(n: int)
    ensures Atoi(PrintInt(n)) == n
  {
    DigitsOfPrintNat(if n < 0 then -n else n);
    var s := PrintInt(n);
    assert SkipSpace(s) == s;
    if n < 0 {
      assert s[1..] == PrintNat(-n);
    }
  }

  /** All 32-bit option words survive `%d` and `atoi`, those printed as negative numbers included. */
  lemma OptionsRoundTrip(opts: nat)
    requires opts < WORD32
    ensures AsUnsigned(Atoi(PrintInt(AsSigned(opts)))) == opts
  {
    AtoiOfPrintInt(AsSigned(opts));
  }

  // ----- building

  /** One link without its closing bracket. */
  function Body(l: Link): string
    requires l.opts < WORD32
  {
    ['['] + l.dn + [';'] + PrintInt(AsSigned(l.opts))
  }

  /** The new attribute value after adding a link to the old one, if there was any. */
  function AddLink(raw: Option<string>, l: Link): string
    requires l.opts < WORD32
  {
    (if raw.Some? then raw.value else "") + Body(l) + [']']
  }

  predicate Fits(ls: seq<Link>) {
    forall i :: 0 <= i < |ls| ==> ls[i].opts < WORD32
  }

  /** Adding links one after another to an object that had none. */
  function Build(ls: seq<Link>): Option<string>
    requires Fits(ls)
  {
    if ls == [] then None else Some(AddLink(Build(ls[..|ls| - 1]), ls[|ls| - 1]))
  }

  // ----- parsing

  /** The position of the first `c`, or the length. */
  function Find(s: string, c: char): (k: nat)
    ensures k <= |s| && c !in s[..k] && (k < |s| ==> s[k] == c)
  {
    if s == [] || s[0] == c then 0 else 1 + Find(s[1..], c)
  }

  function ParseOne(tok: string): Option<Link> {
    var q := if tok != [] && tok[0] == '[' then tok[1..] else tok;
    var k := Find(q, ';');
    if k == |q| then None else Some(Link(q[..k], AsUnsigned(Atoi(q[k + 1..]))))
  }

  function ParseAll(toks: seq<string>): Option<seq<Link>> {
    if toks == [] then Some([])
    else
      var first :- ParseOne(toks[0]);
      var rest :- ParseAll(toks[1..]);
      Some([first] + rest)
  }

  /** The whole list is readable iff every entry is, and entries do not influence each other. */
  lemma {:induction false} ParseAllPointwise(toks: seq<string>)
    ensures ParseAll(toks).Some? <==> forall i :: 0 <= i < |toks| ==> ParseOne(toks[i]).Some?
    ensures ParseAll(toks).Some? ==>
              && |ParseAll(toks).value| == |toks|
              && forall i :: 0 <= i < |toks| ==> ParseOne(toks[i]) == Some(ParseAll(toks).value[i])
  {
    if toks != [] {
      ParseAllPointwise(toks[1..]);
      assert forall i :: 0 <= i < |toks[1..]| ==> toks[1..][i] == toks[i + 1];
      assert forall i :: 1 <= i < |toks| ==> toks[i] == toks[1..][i - 1];
    }
  }

  /** An empty string, or one of separators only, is refused. */
  function Parse(raw: string): Option<seq<Link>> {
    var toks := Tokens(raw, 0, "]");
    if toks == [] then None else ParseAll(toks)
  }

  method StrListMake(raw: string, sep: string) returns (list: seq<string>)
    ensures list == Tokens(raw, 0, sep)
  {
    list := [];
    var at: nat := 0;
    while true
      invariant at <= |raw|
      invariant list + Tokens(raw, at, sep) == Tokens(raw, 0, sep)
      decreases |raw| - at
    {
      var tok, next := NextTokenAlloc(raw, at, sep);
      if tok == null {
        return;
      }
      var text := tok[..tok.Length - 1];
      assert NextToken(raw, at, sep) == Token(text, next);
      list := list + [text];
      at := next;
    }
  }

  /** The loop of gpo_parse_gplink: two arrays filled side by side, until an entry has no `;`. */
  method FillLinks(list: seq<string>, names: array<string>, opts: array<nat>) returns (ok: bool)
    requires names.Length == opts.Length == |list|
    modifies names, opts
    ensures ok <==> forall i :: 0 <= i < |list| ==> ParseOne(list[i]).Some?
    ensures ok ==> forall i :: 0 <= i < |list| ==> ParseOne(list[i]) == Some(Link(names[i], opts[i]))
  {
    hide Atoi;
    for i := 0 to |list|
      invariant forall k :: 0 <= k < i ==> ParseOne(list[k]) == Some(Link(names[k], opts[k]))
    {
      var q := if list[i] != [] && list[i][0] == '[' then list[i][1..] else list[i];
      var k := StrChr(q, ';');
      if k == |q| {
        assert ParseOne(list[i]).None?;
        return false;
      }
      names[i] := q[..k];
      opts[i] := AsUnsigned(Atoi(q[k + 1..]));
    }
    ok := true;
  }

  /** gpo_parse_gplink: every failure is the same error. */
  method ParseGplink(raw: string) returns (ok: bool, names: array<string>, opts: array<nat>)
    ensures ok <==> Parse(raw).Some?
    ensures ok ==>
              && names.Length == opts.Length == |Parse(raw).value|
              && forall i :: 0 <= i < names.Length ==> Link(names[i], opts[i]) == Parse(raw).value[i]
  {
    hide Tokens, ParseAll, ParseOne;
    names, opts := new string[0], new nat[0];
    var list := StrListMake(raw, "]");
    if list == [] {
      return false, names, opts;
    }
    names, opts := new string[|list|], new nat[|list|];
    ParseAllPointwise(list);
    ok := FillLinks(list, names, opts);
  }

  method StrChr(s: string, c: char) returns (k: nat)
    ensures k == Find(s, c)
  {
    k := 0;
    while k < |s| && s[k] != c
      invariant k <= |s|
      invariant Find(s, c) == k + Find(s[k..], c)
    {
      assert s[k..][1..] == s[k + 1..];
      k := k + 1;
    }
  }

  // ----- the round trip and its exact condition

  /** The DNs that survive: no list separator, no field separator, no quote. */
  predicate Clean(dn: string) {
    ']' !in dn && ';' !in dn && '"' !in dn
  }

  function Bodies(ls: seq<Link>): seq<string>
    requires Fits(ls)
  {
    if ls == [] then [] else [Body(ls[0])] + Bodies(ls[1..])
  }

  lemma {:induction false} BodiesSnoc(ls: seq<Link>, l: Link)
    requires Fits(ls + [l])
    ensures Fits(ls) && l.opts < WORD32
    ensures Bodies(ls + [l]) == Bodies(ls) + [Body(l)]
  {
    assert (ls + [l])[|ls|] == l;
    assert forall i :: 0 <= i < |ls| ==> (ls + [l])[i] == ls[i];
    if ls != [] {
      assert (ls + [l])[1..] == ls[1..] + [l];
      assert Fits(ls[1..] + [l]);
      BodiesSnoc(ls[1..], l);
    } else {
      assert (ls + [l])[1..] == [];
    }
  }

  lemma {:induction false} JoinSnoc(ts: seq<string>, t: string, c: char)
    ensures Join(ts + [t], c) == Join(ts, c) + t + [c]
  {
    if ts == [] {
      assert ([] + [t])[1..] == [];
      assert Join([t], c) == t + [c] + [];
    } else {
      assert (ts + [t])[1..] == ts[1..] + [t];
      JoinSnoc(ts[1..], t, c);
    }
  }

  /** The built string is the printed links, each closed by its bracket. */
  lemma {:induction false} BuildIsJoin(ls: seq<Link>)
    requires Fits(ls)
    ensures ls == [] ==> Build(ls) == None
    ensures ls != [] ==> Build(ls) == Some(Join(Bodies(ls), ']'))
  {
    if ls != [] {
      var front, l := ls[..|ls| - 1], ls[|ls| - 1];
      assert ls == front + [l];
      BuildIsJoin(front);
      BodiesSnoc(front, l);
      JoinSnoc(Bodies(front), Body(l), ']');
    }
  }

  lemma PrintIntPlain(n: int)
    ensures forall i :: 0 <= i < |PrintInt(n)| ==> PrintInt(n)[i] == '-' || IsDigit(PrintInt(n)[i])
  {
  }

  lemma BodyPlain(l: Link)
    requires l.opts < WORD32
    ensures '"' !in l.dn && ']' !in l.dn <==> Plain(Body(l), "]")
  {
    var d := PrintInt(AsSigned(l.opts));
    PrintIntPlain(AsSigned(l.opts));
    var b := Body(l);
    assert b == ['['] + l.dn + [';'] + d;
    assert forall i :: 0 <= i < |l.dn| ==> b[1 + i] == l.dn[i];
    if Plain(b, "]") {
      forall i | 0 <= i < |l.dn|
        ensures l.dn[i] != '"' && l.dn[i] != ']'
      {
        assert b[1 + i] !in "]" && b[1 + i] != '"';
      }
    }
  }

  lemma {:induction false} FindHere(s: string, t: string, c: char)
    requires c !in s
    ensures Find(s + [c] + t, c) == |s|
  {
    if s != [] {
      assert (s + [c] + t)[1..] == s[1..] + [c] + t;
      FindHere(s[1..], t, c);
    }
  }

  lemma BodyParses(l: Link)
    requires l.opts < WORD32 && ';' !in l.dn
    ensures ParseOne(Body(l)) == Some(l)
  {
    var d := PrintInt(AsSigned(l.opts));
    var q := l.dn + [';'] + d;
    assert Body(l)[1..] == q;
    FindHere(l.dn, d, ';');
    assert q[..|l.dn|] == l.dn && q[|l.dn| + 1..] == d;
    OptionsRoundTrip(l.opts);
  }

  lemma {:induction false} BodiesParse(ls: seq<Link>)
    requires Fits(ls) && forall i :: 0 <= i < |ls| ==> ';' !in ls[i].dn
    ensures ParseAll(Bodies(ls)) == Some(ls)
  {
    hide ParseOne, Body;
    if ls != [] {
      BodyParses(ls[0]);
      BodiesParse(ls[1..]);
      assert Bodies(ls)[1..] == Bodies(ls[1..]);
      assert [ls[0]] + ls[1..] == ls;
    }
  }

  lemma {:induction false} BodiesAt(ls: seq<Link>)
    requires Fits(ls)
    ensures |Bodies(ls)| == |ls| && forall i :: 0 <= i < |ls| ==> Bodies(ls)[i] == Body(ls[i])
  {
    if ls != [] {
      BodiesAt(ls[1..]);
    }
  }

  /** Clean DNs: parsing what was built gives the links, in order. */
  lemma CleanRoundTrip(ls: seq<Link>)
    requires Fits(ls) && ls != [] && forall i :: 0 <= i < |ls| ==> Clean(ls[i].dn)
    ensures Parse(Build(ls).value) == Some(ls)
  {
    BuildIsJoin(ls);
    BodiesAt(ls);
    forall i | 0 <= i < |Bodies(ls)|
      ensures Plain(Bodies(ls)[i], [']'])
    {
      BodyPlain(ls[i]);
    }
    var raw := Join(Bodies(ls), ']');
    assert raw[0..] == raw;
    TokensOfJoin(Bodies(ls), ']', raw, 0);
    BodiesParse(ls);
  }

  lemma {:induction false} UnquoteDropsQuotes(t: string)
    ensures '"' !in Unquote(t)
  {
    if t != [] {
      UnquoteDropsQuotes(t[..|t| - 1]);
    }
  }

  lemma {:induction false} NeverQuoted(s: string, i: nat, j: nat)
    requires i <= j <= |s| && '"' !in s
    ensures !Quoted(s, i, j)
    decreases j
  {
    if i < j {
      NeverQuoted(s, i, j - 1);
    }
  }

  /** The characters of one token. */
  lemma OneTokenChars(s: string, at: nat, sep: string)
    requires at <= |s| && NextToken(s, at, sep).Token?
    ensures '"' !in NextToken(s, at, sep).text
    ensures '"' !in s ==> forall c :: c in sep ==> c !in NextToken(s, at, sep).text
  {
    var i := SkipSeps(s, at, sep);
    var e := TokenEnd(s, i, i, sep);
    UnquoteDropsQuotes(s[i..e]);
    if '"' !in s {
      UnquotePlain(s[i..e]);
      forall k | i <= k < e
        ensures s[k] !in sep
      {
        NeverQuoted(s, i, k);
        assert !Ends(s, i, k, sep);
      }
    }
  }

  /** A token never contains a quote, and contains a separator only if the string has quotes. */
  lemma {:induction false} TokenChars(s: string, at: nat, sep: string)
    requires at <= |s|
    ensures forall k :: 0 <= k < |Tokens(s, at, sep)| ==> '"' !in Tokens(s, at, sep)[k]
    ensures '"' !in s ==>
              forall k :: 0 <= k < |Tokens(s, at, sep)| ==> forall c :: c in sep ==> c !in Tokens(s, at, sep)[k]
    decreases |s| - at
  {
    hide NextToken;
    var next := NextToken(s, at, sep);
    if next.Token? {
      OneTokenChars(s, at, sep);
      TokenChars(s, next.pos, sep);
      assert Tokens(s, at, sep) == [next.text] + Tokens(s, next.pos, sep);
    }
  }

  /** A parsed DN has no semicolon, and no character its entry did not have. */
  lemma ParseOneChars(tok: string)
    requires ParseOne(tok).Some?
    ensures ';' !in ParseOne(tok).value.dn
    ensures forall c :: c in ParseOne(tok).value.dn ==> c in tok
  {
  }

  lemma {:induction false} JoinHasNoQuote(ts: seq<string>, c: char)
    requires c != '"' && forall i :: 0 <= i < |ts| ==> '"' !in ts[i]
    ensures '"' !in Join(ts, c)
  {
    if ts != [] {
      JoinHasNoQuote(ts[1..], c);
    }
  }

  lemma ParsedDn(raw: string, ls: seq<Link>, i: nat)
    requires Parse(raw) == Some(ls) && i < |ls|
    ensures ';' !in ls[i].dn && '"' !in ls[i].dn
    ensures '"' !in raw ==> ']' !in ls[i].dn
  {
    hide ParseOne, ParseAll;
    var toks := Tokens(raw, 0, "]");
    ParseAllPointwise(toks);
    TokenChars(raw, 0, "]");
    ParseOneChars(toks[i]);
    assert ']' in "]";
  }

  /** The round trip holds exactly for clean DNs: a bracket, a semicolon or a quote in any DN breaks it. */
  lemma RoundTripIffClean(ls: seq<Link>)
    requires Fits(ls) && ls != []
    ensures Parse(Build(ls).value) == Some(ls) <==> forall i :: 0 <= i < |ls| ==> Clean(ls[i].dn)
  {
    hide Parse;
    if forall i :: 0 <= i < |ls| ==> Clean(ls[i].dn) {
      CleanRoundTrip(ls);
    }
    if Parse(Build(ls).value) == Some(ls) {
      var raw := Build(ls).value;
      forall i | 0 <= i < |ls|
        ensures '"' !in ls[i].dn
      {
        ParsedDn(raw, ls, i);
      }
      BuiltHasNoQuote(ls);
      forall i | 0 <= i < |ls|
        ensures Clean(ls[i].dn)
      {
        ParsedDn(raw, ls, i);
      }
    }
  }

  lemma BuiltHasNoQuote(ls: seq<Link>)
    requires Fits(ls) && ls != [] && forall i :: 0 <= i < |ls| ==> '"' !in ls[i].dn
    ensures '"' !in Build(ls).value
  {
    hide Body;
    BuildIsJoin(ls);
    BodiesAt(ls);
    forall i | 0 <= i < |ls|
      ensures '"' !in Bodies(ls)[i]
    {
      BodyHasNoQuote(ls[i]);
    }
    hide Bodies, Join, Build;
    JoinHasNoQuote(Bodies(ls), ']');
  }

  lemma BodyHasNoQuote(l: Link)
    requires l.opts < WORD32 && '"' !in l.dn
    ensures '"' !in Body(l)
  {
    var d := PrintInt(AsSigned(l.opts));
    PrintIntPlain(AsSigned(l.opts));
    assert '"' !in d;
    hide PrintInt;
  }

  // ----- entries and numbers that were not built here

  /** An entry is refused exactly when it has no semicolon. */
  lemma ParseOneRefuses(tok: string)
    ensures ParseOne(tok).None? <==> ';' !in tok
  {
    var q := if tok != [] && tok[0] == '[' then tok[1..] else tok;
    var k := Find(q, ';');
    if k == |q| {
      assert q[..k] == q;
      assert tok == q || tok == ['['] + q;
    } else {
      assert q[k] in tok;
    }
  }

  /** The DN is what stands before the first semicolon, without one opening bracket; the rest is the number. */
  lemma ParseOneOf(dn: string, num: string)
    requires ';' !in dn
    ensures ParseOne(['['] + dn + [';'] + num) == Some(Link(dn, AsUnsigned(Atoi(num))))
    ensures dn == [] || dn[0] != '[' ==> ParseOne(dn + [';'] + num) == Some(Link(dn, AsUnsigned(Atoi(num))))
  {
    hide Atoi;
    var q := dn + [';'] + num;
    assert (['['] + dn + [';'] + num)[1..] == q;
    FindHere(dn, num, ';');
    assert q[..|dn|] == dn && q[|dn| + 1..] == num;
  }

  /** The attribute is refused exactly when it has no entry, or one without a semicolon. */
  lemma ParseRefuses(raw: string)
    ensures Parse(raw).None? <==>
            var toks := Tokens(raw, 0, "]"); toks == [] || exists i :: 0 <= i < |toks| && ';' !in toks[i]
  {
    hide ParseOne, ParseAll;
    var toks := Tokens(raw, 0, "]");
    ParseAllPointwise(toks);
    forall i | 0 <= i < |toks|
      ensures ParseOne(toks[i]).None? <==> ';' !in toks[i]
    {
      ParseOneRefuses(toks[i]);
    }
  }

  lemma {:induction false} DigitsStop(s: string, junk: string, acc: nat)
    requires forall i :: 0 <= i < |s| ==> IsDigit(s[i])
    requires junk == [] || !IsDigit(junk[0])
    ensures Digits(s + junk, acc) == Digits(s, acc)
    decreases |s|
  {
    if s == [] {
      assert s + junk == junk;
    } else {
      assert (s + junk)[1..] == s[1..] + junk;
      DigitsStop(s[1..], junk, 10 * acc + DigitValue(s[0]));
    }
  }

  lemma AtoiHere(n: int, junk: string)
    requires junk == [] || !IsDigit(junk[0])
    ensures Atoi(PrintInt(n) + junk) == n
  {
    hide PrintNat, Digits;
    var digits := PrintNat(if n < 0 then -n else n);
    DigitsOfPrintNat(if n < 0 then -n else n);
    DigitsStop(digits, junk, 0);
    var s := PrintInt(n) + junk;
    if n < 0 {
      assert s == ['-'] + (digits + junk);
      assert s[1..] == digits + junk;
    } else {
      assert IsDigit(digits[0]) && s == digits + junk;
    }
  }

  /** `atoi` reads a printed number behind white space, up to the first other character. */
  lemma {:induction false} AtoiReads(space: string, n: int, junk: string)
    requires forall i :: 0 <= i < |space| ==> space[i] in " \t\n\r" || space[i] as int in {11, 12}
    requires junk == [] || !IsDigit(junk[0])
    ensures Atoi(space + PrintInt(n) + junk) == n
    decreases |space|
  {
    hide PrintInt, Digits, DigitValue;
    var s := space + PrintInt(n) + junk;
    if space == [] {
      assert s == PrintInt(n) + junk;
      AtoiHere(n, junk);
    } else {
      assert IsSpace(space[0]);
      assert s == [space[0]] + (space[1..] + PrintInt(n) + junk);
      assert s[1..] == space[1..] + PrintInt(n) + junk;
      AtoiReads(space[1..], n, junk);
      assert SkipSpace(s) == SkipSpace(s[1..]);
    }
  }

  /** A plus sign is skipped, and what is no number is 0. */
  lemma AtoiOther(n: nat, junk: string)
    requires junk == [] || !IsDigit(junk[0])
    ensures Atoi(['+'] + PrintNat(n) + junk) == n
    ensures junk == [] || (!IsSpace(junk[0]) && junk[0] != '-' && junk[0] != '+') ==> Atoi(junk) == 0
  {
    hide PrintNat;
    DigitsOfPrintNat(n);
    DigitsStop(PrintNat(n), junk, 0);
    var s := ['+'] + PrintNat(n) + junk;
    assert s == ['+'] + (PrintNat(n) + junk);
    assert s[1..] == PrintNat(n) + junk;
  }

  /** Option words from 2^31 on are printed as negative numbers. */
  lemma PrintedOptions(opts: nat)
    requires opts < WORD32
    ensures PrintInt(AsSigned(opts)) ==
            if opts < 0x8000_0000 then PrintNat(opts) else ['-'] + PrintNat(0x1_0000_0000 - opts)
    ensures opts > 0 ==> PrintNat(opts)[0] != '0'
  {
    NoLeadingZero(opts);
  }

  lemma {:induction false} NoLeadingZero(n: nat)
    ensures n > 0 ==> PrintNat(n)[0] != '0'
  {
    if n >= 10 {
      NoLeadingZero(n / 10);
    }
  }
}
