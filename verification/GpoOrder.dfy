/** What ends up in the list of group policies, and in which order, said entry by entry. */
module GpoOrder {
  import opened Common
  import opened GpoSec
  import opened GpLink
  import opened GpoSpec

  /** `p` is what follows some comma of `dn`. */
  ghost predicate Ancestor(dn: string, p: string) {
    exists i :: 0 <= i < |dn| && dn[i] == ',' && p == dn[i + 1..]
  }

  /** An ancestor below the top of the domain: the longer one is the nearer one. */
  ghost predicate Reached(d: Directory, dn: string, p: string) {
    Ancestor(dn, p) && forall q :: Ancestor(dn, q) && |q| >= |p| ==> !d.isTop(q)
  }

  /** It is of the wanted kind, and its links can be read. */
  ghost predicate Linking(d: Directory, dn: string, prefix: string, p: string) {
    Reached(d, dn, p) && prefix <= p && d.linksOf(p).Some?
  }

  ghost predicate BlocksAt(d: Directory, p: string) {
    d.linksOf(p).Some? && d.linksOf(p).value.options % 2 == 1
  }

  /**
   * For a unit: some container of the domain blocks, or a unit at least as near as `p`. For a container
   * of the domain: one of those at least as near as `p`.
   */
  ghost predicate BlockedAt(d: Directory, dn: string, kind: LinkType, p: string) {
    || (exists q :: Linking(d, dn, "DC=", q) && (kind == Domain ==> |q| >= |p|) && BlocksAt(d, q))
    || (kind == Ou && exists q :: Linking(d, dn, "OU=", q) && |q| >= |p| && BlocksAt(d, q))
  }

  /** A link that counts: enabled, enforced where that is asked for, and its policy applies to the account. */
  ghost predicate GoodLink(d: Directory, l: Link, forced: bool, token: Option<set<Sid>>) {
    && l.opts % 2 == 0 && (forced ==> l.opts / 2 % 2 == 1)
    && d.daclOf(l.dn).Some? && d.daclOf(l.dn).value.Some?
    && token.Some? && MayApply(d.daclOf(l.dn).value.value, token.value)
  }

  /** The entries of one container: the last link comes first. */
  ghost function Accepted(
    d: Directory, links: seq<Link>, p: string, kind: LinkType, forced: bool, token: Option<set<Sid>>): seq<Entry>
  {
    if links == [] then []
    else
      var l := links[|links| - 1];
      (if GoodLink(d, l, forced, token) then [Entry(l.dn, p, kind)] else [])
      + Accepted(d, links[..|links| - 1], p, kind, forced, token)
  }

  /** The part of the list that one container contributed. */
  function Only(list: seq<Entry>, kind: LinkType, p: string): seq<Entry> {
    if list == [] then []
    else (if list[0].kind == kind && list[0].link == p then [list[0]] else []) + Only(list[1..], kind, p)
  }

  /** What that part must be. */
  ghost function Due(
    d: Directory, dn: string, machine: bool, siteOnly: bool, token: Option<set<Sid>>, kind: LinkType, p: string)
    : seq<Entry>
  {
    match kind
    case Local => if p == "" then [Entry("Local Policy", "", Local)] else []
    case Site =>
      if machine && d.siteOf == Some(p) && d.linksOf(p).Some? then
        Accepted(d, d.linksOf(p).value.links, p, Site, false, token)
      else []
    case Domain =>
      if !siteOnly && Linking(d, dn, "DC=", p) then
        Accepted(d, d.linksOf(p).value.links, p, Domain, BlockedAt(d, dn, Domain, p), token)
      else []
    case Ou =>
      if !siteOnly && Linking(d, dn, "OU=", p) then
        Accepted(d, d.linksOf(p).value.links, p, Ou, BlockedAt(d, dn, Ou, p), token)
      else []
  }

  function Rank(kind: LinkType): nat {
    match kind
    case Local => 0
    case Site => 1
    case Domain => 2
    case Ou => 3
  }

  /** Units come before the domain, then the site, then the local policy; of one kind, nearer containers come later. */
  predicate Before(a: Entry, b: Entry) {
    Rank(a.kind) > Rank(b.kind) || (a.kind == b.kind && |a.link| <= |b.link|)
  }

  ghost predicate InOrder(list: seq<Entry>) {
    forall i, j :: 0 <= i < j < |list| ==> Before(list[i], list[j])
  }

  /** The list, head first: its order, and what each container contributed to it. */
  ghost predicate IsList(
    d: Directory, dn: string, machine: bool, siteOnly: bool, token: Option<set<Sid>>, list: seq<Entry>)
  {
    InOrder(list) && forall kind, p :: Only(list, kind, p) == Due(d, dn, machine, siteOnly, token, kind, p)
  }

  // ----- the containers of the two walks

  lemma AncestorStep(dn: string, p: string)
    ensures Ancestor(dn, p) <==> Parent(dn).Some? && (p == Parent(dn).value || Ancestor(Parent(dn).value, p))
  {
    var k := Find(dn, ',');
    if k < |dn| {
      var up := dn[k + 1..];
      if Ancestor(dn, p) {
        var i :| 0 <= i < |dn| && dn[i] == ',' && p == dn[i + 1..];
        assert forall j :: 0 <= j < k ==> dn[j] != dn[i] by {
          assert forall j :: 0 <= j < k ==> dn[j] == dn[..k][j];
        }
        if i > k {
          assert up[i - k - 1] == ',' && p == up[i - k..];
        }
      }
      if Ancestor(up, p) {
        var i :| 0 <= i < |up| && up[i] == ',' && p == up[i + 1..];
        assert dn[k + 1 + i] == ',' && p == dn[k + 1 + i + 1..];
      }
    }
  }

  lemma {:induction false} AncestorShorter(dn: string, p: string)
    requires Ancestor(dn, p)
    ensures |p| < |dn|
  {
  }

  ghost predicate Nearing(dns: seq<string>) {
    forall i, j :: 0 <= i < j < |dns| ==> |dns[i]| > |dns[j]|
  }

  lemma {:induction false} AboveIs(d: Directory, dn: string)
    ensures forall p :: p in Above(d, dn) <==> Reached(d, dn, p)
    ensures Nearing(Above(d, dn)) && forall p :: p in Above(d, dn) ==> |p| < |dn|
    decreases |dn|
  {
    if Parent(dn).Some? {
      var up := Parent(dn).value;
      AboveIs(d, up);
      AncestorStep(dn, up);
      forall p
        ensures p in Above(d, dn) <==> Reached(d, dn, p)
      {
        ReachedStep(d, dn, p);
      }
    } else {
      forall p
        ensures !Ancestor(dn, p)
      {
        AncestorStep(dn, p);
      }
    }
  }

  lemma ReachedStep(d: Directory, dn: string, p: string)
    requires Parent(dn).Some?
    ensures var up := Parent(dn).value;
            Reached(d, dn, p) <==> !d.isTop(up) && (p == up || Reached(d, up, p))
  {
    var up := Parent(dn).value;
    AncestorStep(dn, p);
    AncestorStep(dn, up);
    if Reached(d, dn, p) {
      if p != up {
        AncestorShorter(up, p);
        forall q | Ancestor(up, q) && |q| >= |p|
          ensures !d.isTop(q)
        {
          AncestorStep(dn, q);
        }
      }
    }
    if !d.isTop(up) && (p == up || Reached(d, up, p)) {
      forall q | Ancestor(dn, q) && |q| >= |p|
        ensures !d.isTop(q)
      {
        AncestorStep(dn, q);
        if q != up {
          AncestorShorter(up, q);
        }
      }
    }
  }

  lemma {:induction false} LinkedMember(d: Directory, dns: seq<string>, prefix: string, kind: LinkType, c: Container)
    ensures c in Linked(d, dns, prefix, kind) <==>
            c.dn in dns && prefix <= c.dn && d.linksOf(c.dn) == Some(c.attr) && c.kind == kind
  {
    if dns != [] {
      LinkedMember(d, dns[1..], prefix, kind, c);
      assert c.dn in dns <==> c.dn == dns[0] || c.dn in dns[1..];
    }
  }

  ghost predicate Nearer(cs: seq<Container>) {
    forall i, j :: 0 <= i < j < |cs| ==> |cs[i].dn| > |cs[j].dn|
  }

  lemma {:induction false} LinkedNearing(d: Directory, dns: seq<string>, prefix: string, kind: LinkType)
    requires Nearing(dns)
    ensures Nearer(Linked(d, dns, prefix, kind))
  {
    if dns != [] {
      hide Nearer, HasPrefix;
      var rest := Linked(d, dns[1..], prefix, kind);
      NearingTail(dns);
      LinkedNearing(d, dns[1..], prefix, kind);
      if HasPrefix(dns[0], prefix) && d.linksOf(dns[0]).Some? {
        var c := Container(dns[0], kind, d.linksOf(dns[0]).value);
        assert Linked(d, dns, prefix, kind) == [c] + rest;
        hide Linked, Nearing;
        forall b | b in rest
          ensures |b.dn| < |c.dn|
        {
          LinkedMember(d, dns[1..], prefix, kind, b);
        }
        NearerCons(c, rest);
      } else {
        assert Linked(d, dns, prefix, kind) == [] + rest == rest;
      }
    }
  }

  lemma NearingTail(dns: seq<string>)
    requires dns != [] && Nearing(dns)
    ensures Nearing(dns[1..]) && forall p :: p in dns[1..] ==> |p| < |dns[0]|
  {
  }

  lemma NearerCons(c: Container, rest: seq<Container>)
    requires Nearer(rest) && forall b :: b in rest ==> |b.dn| < |c.dn|
    ensures Nearer([c] + rest)
  {
    var cs := [c] + rest;
    assert forall j :: 1 <= j < |cs| ==> cs[j] == rest[j - 1] && cs[j] in rest;
  }

  /** The containers of one walk, without the walk. */
  lemma WalkIs(d: Directory, dn: string, prefix: string, kind: LinkType)
    ensures var cs := Linked(d, Above(d, dn), prefix, kind);
            && (forall c :: c in cs <==>
                              Linking(d, dn, prefix, c.dn) && d.linksOf(c.dn) == Some(c.attr) && c.kind == kind)
            && Nearer(cs)
  {
    AboveIs(d, dn);
    var cs := Linked(d, Above(d, dn), prefix, kind);
    forall c
      ensures c in cs <==> Linking(d, dn, prefix, c.dn) && d.linksOf(c.dn) == Some(c.attr) && c.kind == kind
    {
      LinkedMember(d, Above(d, dn), prefix, kind, c);
    }
    LinkedNearing(d, Above(d, dn), prefix, kind);
  }

  predicate Earlier(a: Container, b: Container) {
    Rank(a.kind) < Rank(b.kind) || (a.kind == b.kind && |a.dn| > |b.dn|)
  }

  /** In the order of the walks, and no container twice. */
  ghost predicate Ordered(cs: seq<Container>) {
    forall i, j :: 0 <= i < j < |cs| ==> Earlier(cs[i], cs[j])
  }

  lemma WalksOrdered(d: Directory, dn: string)
    ensures Ordered(Walks(d, dn))
    ensures forall c :: c in Walks(d, dn) ==> c.kind == Domain || c.kind == Ou
  {
    hide Linked, Above, Linking;
    WalkIs(d, dn, "DC=", Domain);
    WalkIs(d, dn, "OU=", Ou);
    var a, b := Linked(d, Above(d, dn), "DC=", Domain), Linked(d, Above(d, dn), "OU=", Ou);
    var cs := Walks(d, dn);
    forall i, j | 0 <= i < j < |cs|
      ensures Earlier(cs[i], cs[j])
    {
      assert cs[i] == if i < |a| then a[i] else b[i - |a|];
      assert cs[j] == if j < |a| then a[j] else b[j - |a|];
      assert cs[i] in if i < |a| then a else b;
      assert cs[j] in if j < |a| then a else b;
    }
  }

  /** A container is on one of the walks exactly when it is a reached one of that kind with links. */
  lemma WalksAre(d: Directory, dn: string, c: Container)
    ensures c in Walks(d, dn) <==>
            && d.linksOf(c.dn) == Some(c.attr)
            && ((c.kind == Domain && Linking(d, dn, "DC=", c.dn)) || (c.kind == Ou && Linking(d, dn, "OU=", c.dn)))
  {
    hide Linked, Above, Linking;
    WalkIs(d, dn, "DC=", Domain);
    WalkIs(d, dn, "OU=", Ou);
  }

  /** Blocking, counted along the walks, is what it is said to be above. */
  lemma BlockedIs(d: Directory, dn: string, k: nat)
    requires k < |Walks(d, dn)|
    ensures var cs := Walks(d, dn); Blocked(cs, k) <==> BlockedAt(d, dn, cs[k].kind, cs[k].dn)
  {
    hide Walks, Linking;
    var cs := Walks(d, dn);
    var c := cs[k];
    WalksOrdered(d, dn);
    WalksAre(d, dn, c);
    if Blocked(cs, k) {
      var j :| 0 <= j <= k && Blocks(cs[j].attr);
      WalksAre(d, dn, cs[j]);
      assert Linking(d, dn, if cs[j].kind == Domain then "DC=" else "OU=", cs[j].dn) && BlocksAt(d, cs[j].dn);
    }
    if exists q :: Linking(d, dn, "DC=", q) && (c.kind == Domain ==> |q| >= |c.dn|) && BlocksAt(d, q) {
      var q :| Linking(d, dn, "DC=", q) && (c.kind == Domain ==> |q| >= |c.dn|) && BlocksAt(d, q);
      BlockerFound(d, dn, k, q, Domain);
    }
    if c.kind == Ou && exists q :: Linking(d, dn, "OU=", q) && |q| >= |c.dn| && BlocksAt(d, q) {
      var q :| Linking(d, dn, "OU=", q) && |q| >= |c.dn| && BlocksAt(d, q);
      BlockerFound(d, dn, k, q, Ou);
    }
  }

  lemma BlockerFound(d: Directory, dn: string, k: nat, q: string, kind: LinkType)
    requires k < |Walks(d, dn)| && (kind == Domain || kind == Ou)
    requires Linking(d, dn, if kind == Domain then "DC=" else "OU=", q) && BlocksAt(d, q)
    requires Rank(kind) < Rank(Walks(d, dn)[k].kind) || (kind == Walks(d, dn)[k].kind && |q| >= |Walks(d, dn)[k].dn|)
    ensures Blocked(Walks(d, dn), k)
  {
    hide Walks;
    var cs, b := Walks(d, dn), Container(q, kind, d.linksOf(q).value);
    WalksAre(d, dn, b);
    WalksOrdered(d, dn);
    var j :| 0 <= j < |cs| && cs[j] == b;
    assert j <= k && Blocks(cs[j].attr);
  }

  // ----- what each container contributes

  lemma {:induction false} OnlyConcat(a: seq<Entry>, b: seq<Entry>, kind: LinkType, p: string)
    ensures Only(a + b, kind, p) == Only(a, kind, p) + Only(b, kind, p)
    decreases |a|
  {
    if a == [] {
      assert a + b == b;
    } else {
      assert (a + b)[1..] == a[1..] + b;
      OnlyConcat(a[1..], b, kind, p);
    }
  }

  lemma {:induction false} OnlyRev(s: seq<Entry>, kind: LinkType, p: string)
    ensures Only(Rev(s), kind, p) == Rev(Only(s, kind, p))
    decreases |s|
  {
    if s != [] {
      var front, x := s[..|s| - 1], s[|s| - 1];
      assert s == front + [x];
      OnlyRev(front, kind, p);
      OnlyConcat(front, [x], kind, p);
      OnlyConcat([x], Rev(front), kind, p);
      RevConcat(Only(front, kind, p), Only([x], kind, p));
      OnlyOne(x, kind, p);
    }
  }

  lemma OnlyOne(x: Entry, kind: LinkType, p: string)
    ensures Only([x], kind, p) == if x.kind == kind && x.link == p then [x] else []
    ensures Rev(Only([x], kind, p)) == Only([x], kind, p)
  {
    assert [x][1..] == [];
  }

  lemma ChosenIsGood(d: Directory, l: Link, forced: bool, token: Option<set<Sid>>)
    ensures Chosen(d, l, forced, token) <==> GoodLink(d, l, forced, token)
  {
    hide MayApply;
    if token.Some? && d.daclOf(l.dn).Some? && d.daclOf(l.dn).value.Some? {
      FirstVerdictIsMayApply(d.daclOf(l.dn).value.value, token.value);
    }
  }

  lemma {:induction false} SelectedIsAccepted(
    d: Directory, c: Container, n: nat, forced: bool, token: Option<set<Sid>>)
    requires n <= |c.attr.links|
    ensures Rev(Selected(d, c, n, forced, token)) == Accepted(d, c.attr.links[..n], c.dn, c.kind, forced, token)
    ensures forall e :: e in Selected(d, c, n, forced, token) ==> e.kind == c.kind && e.link == c.dn
  {
    hide Chosen, GoodLink;
    if n > 0 {
      var l := c.attr.links[n - 1];
      SelectedIsAccepted(d, c, n - 1, forced, token);
      ChosenIsGood(d, l, forced, token);
      assert c.attr.links[..n][..n - 1] == c.attr.links[..n - 1];
      var before, e := Selected(d, c, n - 1, forced, token), Entry(l.dn, c.dn, c.kind);
      RevSnoc(before, e);
      assert before + [] == before && [] + Rev(before) == Rev(before);
    }
  }

  lemma {:induction false} OnlyAll(s: seq<Entry>, kind: LinkType, p: string)
    ensures (forall e :: e in s ==> e.kind == kind && e.link == p) ==> Only(s, kind, p) == s
    ensures (forall e :: e in s ==> e.kind != kind || e.link != p) ==> Only(s, kind, p) == []
  {
    if s != [] {
      OnlyAll(s[1..], kind, p);
    }
  }

  function Mine(d: Directory, cs: seq<Container>, k: nat, token: Option<set<Sid>>): seq<Entry>
    requires k < |cs|
  {
    Selected(d, cs[k], |cs[k].attr.links|, Blocked(cs, k), token)
  }

  lemma OnlyMine(d: Directory, cs: seq<Container>, k: nat, token: Option<set<Sid>>, kind: LinkType, p: string)
    requires k < |cs|
    ensures Only(Mine(d, cs, k, token), kind, p) ==
            if cs[k].kind == kind && cs[k].dn == p then Mine(d, cs, k, token) else []
  {
    SelectedIsAccepted(d, cs[k], |cs[k].attr.links|, Blocked(cs, k), token);
    OnlyAll(Mine(d, cs, k, token), kind, p);
  }

  lemma OneMore(d: Directory, cs: seq<Container>, n: nat, token: Option<set<Sid>>, kind: LinkType, p: string)
    requires n < |cs|
    ensures Only(Contributions(d, cs, n + 1, token), kind, p) ==
            Only(Contributions(d, cs, n, token), kind, p)
            + (if cs[n].kind == kind && cs[n].dn == p then Mine(d, cs, n, token) else [])
  {
    OnlyConcat(Contributions(d, cs, n, token), Mine(d, cs, n, token), kind, p);
    OnlyMine(d, cs, n, token, kind, p);
    assert Contributions(d, cs, n + 1, token) == Contributions(d, cs, n, token) + Mine(d, cs, n, token);
  }

  lemma {:induction false} OnlyNone(
    d: Directory, cs: seq<Container>, n: nat, token: Option<set<Sid>>, kind: LinkType, p: string)
    requires n <= |cs| && forall k :: 0 <= k < n ==> cs[k].kind != kind || cs[k].dn != p
    ensures Only(Contributions(d, cs, n, token), kind, p) == []
  {
    if n > 0 {
      OnlyNone(d, cs, n - 1, token, kind, p);
      OneMore(d, cs, n - 1, token, kind, p);
    }
  }

  lemma {:induction false} OnlyThat(d: Directory, cs: seq<Container>, n: nat, token: Option<set<Sid>>, k: nat)
    requires k < n <= |cs| && Ordered(cs)
    ensures Only(Contributions(d, cs, n, token), cs[k].kind, cs[k].dn) == Mine(d, cs, k, token)
  {
    hide Contributions, Mine, Only;
    var kind, p := cs[k].kind, cs[k].dn;
    OneMore(d, cs, n - 1, token, kind, p);
    if k == n - 1 {
      assert forall j :: 0 <= j < k ==> Earlier(cs[j], cs[k]);
      OnlyNone(d, cs, k, token, kind, p);
      assert [] + Mine(d, cs, k, token) == Mine(d, cs, k, token);
    } else {
      assert Earlier(cs[k], cs[n - 1]);
      OnlyThat(d, cs, n - 1, token, k);
      assert Mine(d, cs, k, token) + [] == Mine(d, cs, k, token);
    }
  }

  /** Oldest first: the opposite order. */
  ghost predicate Ascending(s: seq<Entry>) {
    forall i, j :: 0 <= i < j < |s| ==> Before(s[j], s[i])
  }

  lemma AscendingConcat(a: seq<Entry>, b: seq<Entry>)
    requires Ascending(a) && Ascending(b) && forall x, y :: x in a && y in b ==> Before(y, x)
    ensures Ascending(a + b)
  {
    var s := a + b;
    forall i, j | 0 <= i < j < |s|
      ensures Before(s[j], s[i])
    {
      if i < |a| && j >= |a| {
        assert s[i] == a[i] && s[j] == b[j - |a|] && a[i] in a && b[j - |a|] in b;
      }
    }
  }

  lemma {:induction false} ContributedBy(d: Directory, cs: seq<Container>, n: nat, token: Option<set<Sid>>, e: Entry)
    returns (k: nat)
    requires n <= |cs| && e in Contributions(d, cs, n, token)
    ensures k < n && e.kind == cs[k].kind && e.link == cs[k].dn
  {
    hide Selected, Blocked;
    var mine := Mine(d, cs, n - 1, token);
    assert Contributions(d, cs, n, token) == Contributions(d, cs, n - 1, token) + mine;
    if e in mine {
      SelectedIsAccepted(d, cs[n - 1], |cs[n - 1].attr.links|, Blocked(cs, n - 1), token);
      k := n - 1;
    } else {
      k := ContributedBy(d, cs, n - 1, token, e);
    }
  }

  lemma MineAscends(d: Directory, cs: seq<Container>, k: nat, token: Option<set<Sid>>)
    requires k < |cs|
    ensures Ascending(Mine(d, cs, k, token))
    ensures forall e :: e in Mine(d, cs, k, token) ==> e.kind == cs[k].kind && e.link == cs[k].dn
  {
    hide Selected, Blocked;
    SelectedIsAccepted(d, cs[k], |cs[k].attr.links|, Blocked(cs, k), token);
    var mine := Mine(d, cs, k, token);
    assert forall i :: 0 <= i < |mine| ==> mine[i] in mine;
  }

  lemma {:induction false} ContributionsAscend(d: Directory, cs: seq<Container>, n: nat, token: Option<set<Sid>>)
    requires n <= |cs| && Ordered(cs)
    ensures Ascending(Contributions(d, cs, n, token))
  {
    if n > 0 {
      var before, mine := Contributions(d, cs, n - 1, token), Mine(d, cs, n - 1, token);
      ContributionsAscend(d, cs, n - 1, token);
      MineAscends(d, cs, n - 1, token);
      assert Contributions(d, cs, n, token) == before + mine;
      hide Contributions, Mine, Ascending;
      forall x, y | x in before && y in mine
        ensures Before(y, x)
      {
        var k := ContributedBy(d, cs, n - 1, token, x);
        assert Earlier(cs[k], cs[n - 1]);
      }
      AscendingConcat(before, mine);
    }
  }

  lemma {:induction false} RevAt<T>(s: seq<T>, i: nat)
    requires i < |s|
    ensures |Rev(s)| == |s| && Rev(s)[i] == s[|s| - 1 - i]
  {
    if i > 0 {
      RevAt(s[..|s| - 1], i - 1);
    }
  }

  lemma RevInOrder(s: seq<Entry>)
    requires Ascending(s)
    ensures InOrder(Rev(s))
  {
    var list := Rev(s);
    forall i, j | 0 <= i < j < |list|
      ensures Before(list[i], list[j])
    {
      RevAt(s, i);
      RevAt(s, j);
    }
  }

  // ----- the list

  /** What the walks contribute, container by container. */
  lemma WalksDue(d: Directory, dn: string, machine: bool, token: Option<set<Sid>>, kind: LinkType, p: string)
    requires kind == Domain || kind == Ou
    ensures Rev(Only(Contributions(d, Walks(d, dn), |Walks(d, dn)|, token), kind, p))
            == Due(d, dn, machine, false, token, kind, p)
  {
    hide Walks, Contributions, Only, Linking, Accepted, Selected;
    var cs := Walks(d, dn);
    WalksOrdered(d, dn);
    if Linking(d, dn, if kind == Domain then "DC=" else "OU=", p) {
      LinkingReads(d, dn, if kind == Domain then "DC=" else "OU=", p);
      var c := Container(p, kind, d.linksOf(p).value);
      WalksAre(d, dn, c);
      var k :| 0 <= k < |cs| && cs[k] == c;
      BlockedIs(d, dn, k);
      OnlyThat(d, cs, |cs|, token, k);
      SelectedIsAccepted(d, c, |c.attr.links|, Blocked(cs, k), token);
      assert c.attr.links[..|c.attr.links|] == c.attr.links;
    } else {
      forall k | 0 <= k < |cs|
        ensures cs[k].kind != kind || cs[k].dn != p
      {
        WalksAre(d, dn, cs[k]);
      }
      OnlyNone(d, cs, |cs|, token, kind, p);
    }
  }

  lemma LinkingReads(d: Directory, dn: string, prefix: string, p: string)
    requires Linking(d, dn, prefix, p)
    ensures d.linksOf(p).Some?
  {
  }

  lemma NoneOfKind(s: seq<Entry>, kind: LinkType, p: string)
    requires forall e :: e in s ==> e.kind != kind
    ensures Only(s, kind, p) == []
  {
    OnlyAll(s, kind, p);
  }

  lemma SiteDue(d: Directory, dn: string, machine: bool, siteOnly: bool, token: Option<set<Sid>>, p: string)
    ensures Rev(Only(SiteEntries(d, machine, token), Site, p)) == Due(d, dn, machine, siteOnly, token, Site, p)
    ensures Ascending(SiteEntries(d, machine, token))
    ensures forall e :: e in SiteEntries(d, machine, token) ==> e.kind == Site
  {
    var cs := SiteContainers(d, machine);
    if cs != [] {
      var c := cs[0];
      SelectedIsAccepted(d, c, |c.attr.links|, false, token);
      OnlyAll(SiteEntries(d, machine, token), Site, p);
      assert c.attr.links[..|c.attr.links|] == c.attr.links;
    }
  }

  /** The base of the list: local policy and site. */
  lemma BaseDue(
    d: Directory, dn: string, machine: bool, siteOnly: bool, token: Option<set<Sid>>, kind: LinkType, p: string)
    ensures var base := [LOCAL_POLICY] + SiteEntries(d, machine, token);
            && Ascending(base) && (forall e :: e in base ==> e.kind == Local || e.kind == Site)
            && (kind == Local || kind == Site ==>
                  Rev(Only(base, kind, p)) == Due(d, dn, machine, siteOnly, token, kind, p))
            && (kind == Domain || kind == Ou ==> Only(base, kind, p) == [])
  {
    var site := SiteEntries(d, machine, token);
    SiteDue(d, dn, machine, siteOnly, token, p);
    OnlyConcat([LOCAL_POLICY], site, kind, p);
    OnlyOne(LOCAL_POLICY, kind, p);
    hide SiteEntries, Accepted;
    if kind != Site {
      NoneOfKind(site, kind, p);
    }
    AscendingConcat([LOCAL_POLICY], site);
    assert [] + Only(site, kind, p) == Only(site, kind, p) && [LOCAL_POLICY] + [] == [LOCAL_POLICY];
  }

  /** The list of GetGpoList is in order and holds what is due. */
  lemma SpecifiedIsList(d: Directory, dn: string, machine: bool, token: Option<set<Sid>>)
    ensures IsList(d, dn, machine, false, token, Rev(Specified(d, dn, machine, token)))
  {
    hide Walks, Contributions, SiteEntries, Due, Only;
    var base := [LOCAL_POLICY] + SiteEntries(d, machine, token);
    var rest := Contributions(d, Walks(d, dn), |Walks(d, dn)|, token);
    var list := Rev(base + rest);
    WalksOrdered(d, dn);
    ContributionsAscend(d, Walks(d, dn), |Walks(d, dn)|, token);
    forall e | e in rest
      ensures e.kind == Domain || e.kind == Ou
    {
      var k := ContributedBy(d, Walks(d, dn), |Walks(d, dn)|, token, e);
      assert Walks(d, dn)[k] in Walks(d, dn);
    }
    BaseDue(d, dn, machine, false, token, Local, "");
    AscendingConcat(base, rest);
    RevInOrder(base + rest);
    forall kind, p
      ensures Only(list, kind, p) == Due(d, dn, machine, false, token, kind, p)
    {
      BaseDue(d, dn, machine, false, token, kind, p);
      OnlyRev(base + rest, kind, p);
      OnlyConcat(base, rest, kind, p);
      if kind == Domain || kind == Ou {
        WalksDue(d, dn, machine, token, kind, p);
        assert [] + Only(rest, kind, p) == Only(rest, kind, p);
      } else {
        NoneOfKind(rest, kind, p);
        assert Only(base, kind, p) + [] == Only(base, kind, p);
      }
    }
    assert Specified(d, dn, machine, token) == base + rest;
  }

  lemma SiteOnlyIsList(d: Directory, dn: string, machine: bool, token: Option<set<Sid>>)
    ensures IsList(d, dn, machine, true, token, Rev([LOCAL_POLICY] + SiteEntries(d, machine, token)))
  {
    hide SiteEntries, Only;
    var base := [LOCAL_POLICY] + SiteEntries(d, machine, token);
    BaseDue(d, dn, machine, true, token, Local, "");
    RevInOrder(base);
    forall kind, p
      ensures Only(Rev(base), kind, p) == Due(d, dn, machine, true, token, kind, p)
    {
      BaseDue(d, dn, machine, true, token, kind, p);
      OnlyRev(base, kind, p);
    }
  }

  // ----- what must be readable

  /** Every link that is looked at leads to a policy. */
  ghost predicate LinksReadable(d: Directory, p: string, forced: bool) {
    d.linksOf(p).Some? ==>
      forall l :: l in d.linksOf(p).value.links && l.opts % 2 == 0 && (forced ==> l.opts / 2 % 2 == 1) ==>
        d.daclOf(l.dn).Some?
  }

  /** No policy that is looked at on the way is missing. */
  ghost predicate NothingMissing(d: Directory, dn: string) {
    && (forall p :: Linking(d, dn, "DC=", p) ==> LinksReadable(d, p, BlockedAt(d, dn, Domain, p)))
    && (forall p :: Linking(d, dn, "OU=", p) ==> LinksReadable(d, p, BlockedAt(d, dn, Ou, p)))
  }

  lemma ReadableIs(d: Directory, c: Container, forced: bool)
    requires d.linksOf(c.dn) == Some(c.attr)
    ensures Readable(d, c, forced) <==> LinksReadable(d, c.dn, forced)
  {
    if Readable(d, c, forced) {
      forall l | l in c.attr.links && l.opts % 2 == 0 && (forced ==> l.opts / 2 % 2 == 1)
        ensures d.daclOf(l.dn).Some?
      {
        var i :| 0 <= i < |c.attr.links| && c.attr.links[i] == l;
        assert Considered(c.attr.links[i], forced);
      }
    }
    if LinksReadable(d, c.dn, forced) {
      assert forall i :: 0 <= i < |c.attr.links| ==> c.attr.links[i] in c.attr.links;
    }
  }

  lemma WalksReadable(d: Directory, dn: string)
    ensures AllReadable(d, Walks(d, dn)) <==> NothingMissing(d, dn)
  {
    hide Walks, Linking, Readable, LinksReadable, BlockedAt, Blocked;
    var cs := Walks(d, dn);
    forall k | 0 <= k < |cs|
      ensures Readable(d, cs[k], Blocked(cs, k)) <==> LinksReadable(d, cs[k].dn, BlockedAt(d, dn, cs[k].kind, cs[k].dn))
    {
      WalksAre(d, dn, cs[k]);
      BlockedIs(d, dn, k);
      ReadableIs(d, cs[k], Blocked(cs, k));
    }
    if NothingMissing(d, dn) {
      forall k | 0 <= k < |cs|
        ensures Readable(d, cs[k], Blocked(cs, k))
      {
        WalksAre(d, dn, cs[k]);
      }
    }
    if AllReadable(d, cs) {
      forall kind, p | (kind == Domain && Linking(d, dn, "DC=", p)) || (kind == Ou && Linking(d, dn, "OU=", p))
        ensures LinksReadable(d, p, BlockedAt(d, dn, kind, p))
      {
        LinkingReads(d, dn, if kind == Domain then "DC=" else "OU=", p);
        var c := Container(p, kind, d.linksOf(p).value);
        WalksAre(d, dn, c);
        var k :| 0 <= k < |cs| && cs[k] == c;
      }
    }
  }

  ghost predicate SiteHasLinks(d: Directory, machine: bool) {
    machine && d.siteOf.Some? && d.linksOf(d.siteOf.value).Some?
  }

  /** When the list can be built: the site of a machine is known, and nothing that is looked at is missing. */
  ghost predicate CanBuild(d: Directory, dn: string, machine: bool, siteOnly: bool) {
    && (machine ==> d.siteOf.Some?)
    && (SiteHasLinks(d, machine) ==> LinksReadable(d, d.siteOf.value, false))
    && ((siteOnly && SiteHasLinks(d, machine)) || NothingMissing(d, dn))
  }

  lemma CanBuildIs(d: Directory, dn: string, machine: bool, siteOnly: bool)
    ensures CanBuild(d, dn, machine, siteOnly) <==>
            SiteReadable(d, machine) && (SiteOnly(d, machine, siteOnly) || AllReadable(d, Walks(d, dn)))
    ensures SiteOnly(d, machine, siteOnly) <==> siteOnly && SiteHasLinks(d, machine)
  {
    hide Walks, AllReadable, NothingMissing, Readable, LinksReadable;
    WalksReadable(d, dn);
    if SiteHasLinks(d, machine) {
      var c := Container(d.siteOf.value, Site, d.linksOf(d.siteOf.value).value);
      assert SiteContainers(d, machine) == [c];
      ReadableIs(d, c, false);
    }
  }
}
