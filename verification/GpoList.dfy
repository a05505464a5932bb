/**
 * Building the list of group policies for an account: `add_gplink_to_gpo_list` and
 * `ads_get_gpo_list` of libgpo/gpo_ldap.c.
 */
module GpoList {
  import opened Common
  import opened GpoSec
  import opened GpLink
  import opened GpoOrder
  import opened GpoSpec

  // ----- the code: the list grows at its head

  lemma SelectedNone(d: Directory, c: Container, forcedOnly: bool, token: Option<set<Sid>>, list0: seq<Entry>)
    ensures list0 == Rev(Selected(d, c, 0, forcedOnly, token)) + list0
  {
  }

  lemma SelectedStep(d: Directory, c: Container, i: nat, forcedOnly: bool, token: Option<set<Sid>>, list0: seq<Entry>)
    requires i < |c.attr.links|
    ensures var l := c.attr.links[i];
            var before := Rev(Selected(d, c, i, forcedOnly, token)) + list0;
            Rev(Selected(d, c, i + 1, forcedOnly, token)) + list0 ==
            if Chosen(d, l, forcedOnly, token) then [Entry(l.dn, c.dn, c.kind)] + before else before
  {
    var l := c.attr.links[i];
    var s, e := Selected(d, c, i, forcedOnly, token), Entry(l.dn, c.dn, c.kind);
    if Chosen(d, l, forcedOnly, token) {
      assert Selected(d, c, i + 1, forcedOnly, token) == s + [e];
      RevSnoc(s, e);
      assert ([e] + Rev(s)) + list0 == [e] + (Rev(s) + list0);
    } else {
      assert Selected(d, c, i + 1, forcedOnly, token) == s + [] == s;
    }
  }

  /** add_gplink_to_gpo_list: each accepted policy goes to the front of the list. */
  method AddGplink(d: Directory, list0: seq<Entry>, c: Container, forcedOnly: bool, token: Option<set<Sid>>)
    returns (ok: bool, list: seq<Entry>)
    ensures ok <==> Readable(d, c, forcedOnly)
    ensures ok ==> list == Rev(Selected(d, c, |c.attr.links|, forcedOnly, token)) + list0
  {
    hide Filtering, Selected, Rev, Bit0, Bit1, MayApply;
    list := list0;
    SelectedNone(d, c, forcedOnly, token, list0);
    for i := 0 to |c.attr.links|
      invariant forall k :: 0 <= k < i && Considered(c.attr.links[k], forcedOnly) ==> d.daclOf(c.attr.links[k].dn).Some?
      invariant list == Rev(Selected(d, c, i, forcedOnly, token)) + list0
    {
      var l := c.attr.links[i];
      SelectedStep(d, c, i, forcedOnly, token, list0);
      if Bit0(l.opts) {
        continue;
      }
      if forcedOnly && !Bit1(l.opts) {
        continue;
      }
      assert Considered(l, forcedOnly);
      var gpo := d.daclOf(l.dn);
      if gpo.None? {
        return false, list;
      }
      var status := ApplySecurityFiltering(gpo.value, token);
      if status != StatusOk {
        continue;
      }
      list := [Entry(l.dn, c.dn, c.kind)] + list;
    }
    ok := true;
  }

  /** The list after some containers of the two walks, on top of what was there before. */
  ghost predicate WalkedSoFar(d: Directory, list: seq<Entry>, base: seq<Entry>, forced: bool, cs: seq<Container>,
                              token: Option<set<Sid>>)
  {
    && list == Rev(Contributions(d, cs, |cs|, token)) + base
    && AllReadable(d, cs)
    && (forced <==> cs != [] && Blocked(cs, |cs| - 1))
  }

  lemma {:induction false} ContributionsPrefix(
    d: Directory, cs: seq<Container>, c: Container, n: nat, token: Option<set<Sid>>)
    requires n <= |cs|
    ensures Contributions(d, cs + [c], n, token) == Contributions(d, cs, n, token)
  {
    if n > 0 {
      ContributionsPrefix(d, cs, c, n - 1, token);
      BlockedPrefix(cs, c, n - 1);
    }
  }

  lemma BlockedPrefix(cs: seq<Container>, c: Container, k: nat)
    requires k < |cs|
    ensures Blocked(cs + [c], k) == Blocked(cs, k)
  {
    assert forall j :: 0 <= j <= k ==> (cs + [c])[j] == cs[j];
    if Blocked(cs, k) {
      var j :| 0 <= j <= k && Blocks(cs[j].attr);
      assert Blocks((cs + [c])[j].attr);
    }
  }

  lemma BlockedLast(cs: seq<Container>, c: Container)
    ensures Blocked(cs + [c], |cs|) <==> Blocks(c.attr) || (cs != [] && Blocked(cs, |cs| - 1))
  {
    var all := cs + [c];
    assert all[|cs|] == c;
    assert forall j :: 0 <= j < |cs| ==> all[j] == cs[j];
    if cs != [] && Blocked(cs, |cs| - 1) {
      var j :| 0 <= j <= |cs| - 1 && Blocks(cs[j].attr);
      assert Blocks(all[j].attr);
    }
  }

  /** One more container: it may block from itself on, and its links are filtered accordingly. */
  lemma WalkOne(d: Directory, list: seq<Entry>, base: seq<Entry>, forced: bool, cs: seq<Container>, c: Container,
                token: Option<set<Sid>>)
    requires WalkedSoFar(d, list, base, forced, cs, token)
    ensures var forced' := forced || Blocks(c.attr);
            && (AllReadable(d, cs + [c]) <==> Readable(d, c, forced'))
            && (Readable(d, c, forced') ==>
                  var list' := Rev(Selected(d, c, |c.attr.links|, forced', token)) + list;
                  WalkedSoFar(d, list', base, forced', cs + [c], token))
  {
    hide Selected, Readable, Blocks, Rev, AllReadable, Blocked, Contributions;
    BlockedLast(cs, c);
    ReadableOne(d, cs, c, token);
    ContributionsOne(d, cs, c, token, base);
  }

  lemma ReadableOne(d: Directory, cs: seq<Container>, c: Container, token: Option<set<Sid>>)
    requires AllReadable(d, cs)
    ensures AllReadable(d, cs + [c]) <==> Readable(d, c, Blocked(cs + [c], |cs|))
  {
    hide Readable, Blocked;
    var all := cs + [c];
    assert all[|cs|] == c;
    forall k | 0 <= k < |cs|
      ensures Readable(d, all[k], Blocked(all, k))
    {
      BlockedPrefix(cs, c, k);
      assert all[k] == cs[k];
    }
  }

  lemma ContributionsOne(d: Directory, cs: seq<Container>, c: Container, token: Option<set<Sid>>, base: seq<Entry>)
    ensures var mine := Selected(d, c, |c.attr.links|, Blocked(cs + [c], |cs|), token);
            Rev(Contributions(d, cs + [c], |cs| + 1, token)) + base
            == Rev(mine) + (Rev(Contributions(d, cs, |cs|, token)) + base)
  {
    hide Selected, Rev, Blocked;
    var all := cs + [c];
    ContributionsPrefix(d, cs, c, |cs|, token);
    var before, mine := Contributions(d, cs, |cs|, token), Selected(d, c, |c.attr.links|, Blocked(all, |cs|), token);
    assert all[|cs|] == c;
    assert Contributions(d, all, |cs| + 1, token) == before + mine;
    RevConcat(before, mine);
    assert Rev(mine) + (Rev(before) + base) == (Rev(mine) + Rev(before)) + base;
  }

  lemma LinkedStep(d: Directory, dns: seq<string>, prefix: string, kind: LinkType, cs: seq<Container>)
    requires dns != []
    ensures cs + Linked(d, dns, prefix, kind) ==
            (if HasPrefix(dns[0], prefix) && d.linksOf(dns[0]).Some?
             then cs + [Container(dns[0], kind, d.linksOf(dns[0]).value)] else cs)
            + Linked(d, dns[1..], prefix, kind)
  {
    var rest := Linked(d, dns[1..], prefix, kind);
    hide Linked, HasPrefix;
    if HasPrefix(dns[0], prefix) && d.linksOf(dns[0]).Some? {
      var c := Container(dns[0], kind, d.linksOf(dns[0]).value);
      LinkedHead(d, dns, prefix, kind);
      assert (cs + [c]) + rest == cs + ([c] + rest);
    } else {
      LinkedHead(d, dns, prefix, kind);
      assert [] + rest == rest;
    }
  }

  lemma LinkedHead(d: Directory, dns: seq<string>, prefix: string, kind: LinkType)
    requires dns != []
    ensures Linked(d, dns, prefix, kind) ==
            (if HasPrefix(dns[0], prefix) && d.linksOf(dns[0]).Some?
             then [Container(dns[0], kind, d.linksOf(dns[0]).value)] else [])
            + Linked(d, dns[1..], prefix, kind)
  {
  }

  /** One of the two loops of ads_get_gpo_list; they differ in the prefix and the kind only. */
  method Walk(d: Directory, dn: string, prefix: string, kind: LinkType, token: Option<set<Sid>>,
    list0: seq<Entry>, forced0: bool, ghost cs0: seq<Container>, ghost base: seq<Entry>)
    returns (ok: bool, list: seq<Entry>, forced: bool)
    requires WalkedSoFar(d, list0, base, forced0, cs0, token)
    ensures ok ==> WalkedSoFar(d, list, base, forced, cs0 + Linked(d, Above(d, dn), prefix, kind), token)
    ensures !ok ==> !AllReadable(d, cs0 + Linked(d, Above(d, dn), prefix, kind))
  {
    hide WalkedSoFar, Readable, Linked, Selected, Rev, AllReadable;
    list, forced := list0, forced0;
    var tmp := dn;
    ghost var cs, goal := cs0, cs0 + Linked(d, Above(d, dn), prefix, kind);
    var parent := Parent(tmp);
    while parent.Some? && !d.isTop(parent.value)
      invariant parent == Parent(tmp)
      invariant WalkedSoFar(d, list, base, forced, cs, token)
      invariant cs + Linked(d, Above(d, tmp), prefix, kind) == goal
      decreases |tmp|
    {
      var p := parent.value;
      assert Above(d, tmp) == [p] + Above(d, p);
      LinkedStep(d, Above(d, tmp), prefix, kind, cs);
      if HasPrefix(p, prefix) {
        var attr := d.linksOf(p);
        if attr.Some? {
          var c := Container(p, kind, attr.value);
          WalkOne(d, list, base, forced, cs, c, token);
          if Blocks(attr.value) {
            forced := true;
          }
          ok, list := AddGplink(d, list, c, forced, token);
          cs := cs + [c];
          if !ok {
            NotReadablePrefix(d, cs, Linked(d, Above(d, p), prefix, kind));
            return;
          }
        }
      }
      tmp := p;
      parent := Parent(tmp);
    }
    NoMoreLinked(d, cs, prefix, kind);
    ok := true;
  }

  lemma NoMoreLinked(d: Directory, cs: seq<Container>, prefix: string, kind: LinkType)
    ensures cs + Linked(d, [], prefix, kind) == cs
  {
  }

  lemma NotReadablePrefix(d: Directory, cs: seq<Container>, more: seq<Container>)
    requires !AllReadable(d, cs)
    ensures !AllReadable(d, cs + more)
  {
    if AllReadable(d, cs + more) {
      ReadablePrefix(d, cs, more);
    }
  }

  lemma {:induction false} ReadablePrefix(d: Directory, cs: seq<Container>, more: seq<Container>)
    requires AllReadable(d, cs + more)
    ensures AllReadable(d, cs)
    decreases |more|
  {
    if more == [] {
      assert cs + more == cs;
    } else {
      var front, c := more[..|more| - 1], more[|more| - 1];
      assert cs + more == (cs + front) + [c];
      forall k | 0 <= k < |cs + front|
        ensures Readable(d, (cs + front)[k], Blocked(cs + front, k))
      {
        BlockedPrefix(cs + front, c, k);
        assert (cs + more)[k] == (cs + front)[k];
      }
      ReadablePrefix(d, cs, front);
    }
  }

  method BuildGpoList(d: Directory, dn: Option<string>, machine: bool, siteOnly: bool, token: Option<set<Sid>>)
    returns (ok: bool, list: seq<Entry>)
    ensures ok <==> dn.Some? && SiteReadable(d, machine) &&
                    (SiteOnly(d, machine, siteOnly) || AllReadable(d, Walks(d, dn.value)))
    ensures ok ==> list == Rev(if SiteOnly(d, machine, siteOnly) then [LOCAL_POLICY] + SiteEntries(d, machine, token)
                               else Specified(d, dn.value, machine, token))
  {
    list := [];
    if dn.None? {
      return false, list;
    }
    hide Readable, Selected, Rev, Linked, Above, AllReadable, Contributions;
    list := [LOCAL_POLICY] + list;
    ghost var site := SiteEntries(d, machine, token);
    LocalFirst(site);
    if machine {
      if d.siteOf.None? {
        return false, list;
      }
      var attr := d.linksOf(d.siteOf.value);
      if attr.Some? {
        var c := Container(d.siteOf.value, Site, attr.value);
        ok, list := AddGplink(d, list, c, false, token);
        if !ok {
          assert c in SiteContainers(d, machine);
          return;
        }
        if siteOnly {
          return true, list;
        }
      }
    }
    assert list == Rev([LOCAL_POLICY] + site);
    ghost var base := list;
    var forced := false;
    StartWalks(d, base, token);
    ghost var domains := Linked(d, Above(d, dn.value), "DC=", Domain);
    assert [] + domains == domains;
    ok, list, forced := Walk(d, dn.value, "DC=", Domain, token, list, forced, [], base);
    if !ok {
      NotReadablePrefix(d, domains, Linked(d, Above(d, dn.value), "OU=", Ou));
      return;
    }
    ok, list, forced := Walk(d, dn.value, "OU=", Ou, token, list, forced, domains, base);
    RevConcat([LOCAL_POLICY] + site, Contributions(d, Walks(d, dn.value), |Walks(d, dn.value)|, token));
  }

  lemma LocalFirst(site: seq<Entry>)
    ensures Rev(site) + ([LOCAL_POLICY] + []) == Rev([LOCAL_POLICY] + site)
    ensures [LOCAL_POLICY] + [] == Rev([LOCAL_POLICY] + [])
  {
    RevConcat([LOCAL_POLICY], site);
    assert Rev([LOCAL_POLICY]) == [LOCAL_POLICY] + Rev([]);
    assert [LOCAL_POLICY] + [] == [LOCAL_POLICY];
  }

  lemma StartWalks(d: Directory, base: seq<Entry>, token: Option<set<Sid>>)
    ensures WalkedSoFar(d, base, base, false, [], token)
  {
  }

  /**
   * ads_get_gpo_list: it succeeds exactly when everything that is looked at can be read, and then the
   * list is in order and every container has contributed what it should.
   */
  method GetGpoList(d: Directory, dn: Option<string>, machine: bool, siteOnly: bool, token: Option<set<Sid>>)
    returns (ok: bool, list: seq<Entry>)
    ensures ok <==> dn.Some? && CanBuild(d, dn.value, machine, siteOnly)
    ensures ok ==> IsList(d, dn.value, machine, siteOnly && SiteHasLinks(d, machine), token, list)
  {
    hide CanBuild, IsList, Specified, SiteReadable, AllReadable, SiteEntries, Walks;
    ok, list := BuildGpoList(d, dn, machine, siteOnly, token);
    if dn.Some? {
      CanBuildIs(d, dn.value, machine, siteOnly);
      SpecifiedIsList(d, dn.value, machine, token);
      SiteOnlyIsList(d, dn.value, machine, token);
    }
  }
}
