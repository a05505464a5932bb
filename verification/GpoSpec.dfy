/**
 * The list of group policies for an account as a function of what the directory holds. The LDAP
 * searches are the functions of a Directory.
 */
module GpoSpec {
  import opened Common
  import opened GpoSec
  import opened GpLink

  datatype LinkType = Site | Domain | Ou | Local

  /** A list element: the policy, the container that links it, and the kind of container. */
  datatype Entry = Entry(gpo: string, link: string, kind: LinkType)

  const LOCAL_POLICY := Entry("Local Policy", "", Local)

  /** The parsed gPLink and gPOptions of a container. */
  datatype GpLinks = GpLinks(links: seq<Link>, options: nat)

  datatype Directory = Directory(
    linksOf: string -> Option<GpLinks>,            // ads_get_gpo_link
    daclOf: string -> Option<Option<seq<Ace>>>,    // ads_get_gpo, and the DACL it may carry
    siteOf: Option<string>,                        // ads_site_dn_for_machine
    isTop: string -> bool)                         // strequal with the parent of the bind path

  predicate Bit0(x: nat) { x % 2 == 1 }
  predicate Bit1(x: nat) { x / 2 % 2 == 1 }

  /** GPO_LINK_OPT_DISABLED, and GPO_LINK_OPT_ENFORCED when inheritance is blocked. */
  predicate Considered(l: Link, forcedOnly: bool) {
    !Bit0(l.opts) && (forcedOnly ==> Bit1(l.opts))
  }

  predicate Blocks(g: GpLinks) {
    Bit0(g.options)
  }

  datatype Container = Container(dn: string, kind: LinkType, attr: GpLinks)

  // ----- specification, oldest entry first

  /** A considered link whose policy cannot be read fails the whole call. */
  predicate Readable(d: Directory, c: Container, forcedOnly: bool) {
    forall i :: 0 <= i < |c.attr.links| && Considered(c.attr.links[i], forcedOnly) ==>
      d.daclOf(c.attr.links[i].dn).Some?
  }

  predicate Chosen(d: Directory, l: Link, forcedOnly: bool, token: Option<set<Sid>>) {
    && Considered(l, forcedOnly)
    && d.daclOf(l.dn).Some?
    && Filtering(d.daclOf(l.dn).value, token) == StatusOk
  }

  /** The chosen links among the first `n` of a container, in their order. */
  function Selected(d: Directory, c: Container, n: nat, forcedOnly: bool, token: Option<set<Sid>>): seq<Entry>
    requires n <= |c.attr.links|
  {
    if n == 0 then []
    else
      var l := c.attr.links[n - 1];
      Selected(d, c, n - 1, forcedOnly, token) +
      (if Chosen(d, l, forcedOnly, token) then [Entry(l.dn, c.dn, c.kind)] else [])
  }

  /** Inheritance is blocked from the first blocking container on, itself included. */
  predicate Blocked(cs: seq<Container>, k: nat)
    requires k < |cs|
  {
    exists j :: 0 <= j <= k && Blocks(cs[j].attr)
  }

  /** The contributions of the first `n` containers. */
  function Contributions(d: Directory, cs: seq<Container>, n: nat, token: Option<set<Sid>>): seq<Entry>
    requires n <= |cs|
  {
    if n == 0 then []
    else
      Contributions(d, cs, n - 1, token) +
      Selected(d, cs[n - 1], |cs[n - 1].attr.links|, Blocked(cs, n - 1), token)
  }

  predicate AllReadable(d: Directory, cs: seq<Container>) {
    forall k :: 0 <= k < |cs| ==> Readable(d, cs[k], Blocked(cs, k))
  }

  /** ads_parent_dn: what follows the first comma. */
  function Parent(dn: string): (p: Option<string>)
    ensures p.Some? ==> |p.value| < |dn|
  {
    var k := Find(dn, ',');
    if k == |dn| then None else Some(dn[k + 1..])
  }

  /** The containers above `dn`, nearest first, up to the top of the domain. */
  function Above(d: Directory, dn: string): seq<string>
    decreases |dn|
  {
    match Parent(dn)
    case None => []
    case Some(p) => if d.isTop(p) then [] else [p] + Above(d, p)
  }

  predicate HasPrefix(s: string, prefix: string) {
    prefix <= s
  }

  /** Those of one kind that have a readable gPLink. */
  function Linked(d: Directory, dns: seq<string>, prefix: string, kind: LinkType): seq<Container> {
    if dns == [] then []
    else
      (if HasPrefix(dns[0], prefix) && d.linksOf(dns[0]).Some?
       then [Container(dns[0], kind, d.linksOf(dns[0]).value)] else [])
      + Linked(d, dns[1..], prefix, kind)
  }

  /** The site of a machine account, when it has links. */
  function SiteContainers(d: Directory, machine: bool): seq<Container> {
    if machine && d.siteOf.Some? && d.linksOf(d.siteOf.value).Some? then
      [Container(d.siteOf.value, Site, d.linksOf(d.siteOf.value).value)]
    else []
  }

  /** First the domain walk, then the walk over organizational units. */
  function Walks(d: Directory, dn: string): seq<Container> {
    Linked(d, Above(d, dn), "DC=", Domain) + Linked(d, Above(d, dn), "OU=", Ou)
  }

  /** Links of a site are never blocked. */
  function SiteEntries(d: Directory, machine: bool, token: Option<set<Sid>>): seq<Entry> {
    var cs := SiteContainers(d, machine);
    if cs == [] then [] else Selected(d, cs[0], |cs[0].attr.links|, false, token)
  }

  predicate SiteReadable(d: Directory, machine: bool) {
    (machine ==> d.siteOf.Some?) &&
    forall c :: c in SiteContainers(d, machine) ==> Readable(d, c, false)
  }

  /**
   * An entry comes from a container exactly when one of its links is chosen; blocked containers give
   * enforced links only.
   */
  lemma {:induction false} SelectedExactly(
    d: Directory, c: Container, n: nat, forcedOnly: bool, token: Option<set<Sid>>, e: Entry)
    requires n <= |c.attr.links|
    ensures e in Selected(d, c, n, forcedOnly, token) <==>
            exists i :: 0 <= i < n && Chosen(d, c.attr.links[i], forcedOnly, token)
                        && e == Entry(c.attr.links[i].dn, c.dn, c.kind)
    ensures forcedOnly && e in Selected(d, c, n, forcedOnly, token) ==>
              exists i :: 0 <= i < n && e.gpo == c.attr.links[i].dn
                          && Bit1(c.attr.links[i].opts) && !Bit0(c.attr.links[i].opts)
  {
    if n > 0 {
      SelectedExactly(d, c, n - 1, forcedOnly, token, e);
      var l := c.attr.links[n - 1];
      if Chosen(d, l, forcedOnly, token) && e == Entry(l.dn, c.dn, c.kind) {
        assert e in Selected(d, c, n, forcedOnly, token);
      }
    }
  }

  /** What ads_get_gpo_list is for, oldest first: local policy, site, domain walk, unit walk. */
  function Specified(d: Directory, dn: string, machine: bool, token: Option<set<Sid>>): seq<Entry> {
    [LOCAL_POLICY] + SiteEntries(d, machine, token) + Contributions(d, Walks(d, dn), |Walks(d, dn)|, token)
  }

  /** With the site-only flag, a machine account whose site has links gets no more than those. */
  predicate SiteOnly(d: Directory, machine: bool, siteOnly: bool) {
    siteOnly && SiteContainers(d, machine) != []
  }

  // ----- lists that grow at the head

  function Rev<T>(s: seq<T>): (r: seq<T>)
    ensures |r| == |s|
  {
    if s == [] then [] else [s[|s| - 1]] + Rev(s[..|s| - 1])
  }

  lemma RevSnoc<T>(s: seq<T>, x: T)
    ensures Rev(s + [x]) == [x] + Rev(s)
  {
    assert (s + [x])[..|s|] == s;
  }

  lemma {:induction false} RevConcat<T>(a: seq<T>, b: seq<T>)
    ensures Rev(a + b) == Rev(b) + Rev(a)
    decreases |b|
  {
    if b == [] {
      assert a + b == a;
      assert Rev(b) + Rev(a) == Rev(a);
    } else {
      var front, x := b[..|b| - 1], b[|b| - 1];
      assert a + b == (a + front) + [x];
      RevSnoc(a + front, x);
      RevConcat(a, front);
      assert Rev(b) == [x] + Rev(front);
    }
  }
}
