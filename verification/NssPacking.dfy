/** `get_static`, `fill_pwent` and `fill_grent` of nsswitch/winbind_nss_linux.c. */
module NssPacking {
  import opened Common
  import opened Tokenizer

  /** One byte of the caller's buffer: a character, or one of the bytes of a pointer, which may be NULL. */
  datatype Cell = Char(c: char) | PtrByte(target: Option<nat>, part: nat)

  const PTR_SIZE := 8

  /** A string and its NUL. */
  function Z(s: string): (cells: seq<Cell>)
    ensures |cells| == |s| + 1
  {
    seq(|s|, i requires 0 <= i < |s| => Char(s[i])) + [Char('\0')]
  }

  function ZAll(ss: seq<string>): seq<Cell> {
    if ss == [] then [] else ZAll(ss[..|ss| - 1]) + Z(ss[|ss| - 1])
  }

  function Pointer(target: Option<nat>): (cells: seq<Cell>)
    ensures |cells| == PTR_SIZE
  {
    seq(PTR_SIZE, i requires 0 <= i => PtrByte(target, i))
  }

  /** The pointer at offset `off` of the buffer. */
  ghost predicate PointerAt(u: seq<Cell>, off: nat, target: Option<nat>) {
    off + PTR_SIZE <= |u| && u[off..off + PTR_SIZE] == Pointer(target)
  }

  /** Bytes to skip so that a pointer array at `address` is aligned. */
  function Pad(address: nat): nat {
    if address % PTR_SIZE == 0 then 0 else PTR_SIZE - address % PTR_SIZE
  }

  /** The caller's buffer with the moving pointer and the bytes left. */
  class Arena {
    const mem: array<Cell>
    const address: nat
    var pos: nat
    var left: nat

    ghost predicate Valid()
      reads this
    {
      pos + left == mem.Length
    }

    /** Everything handed out so far. */
    ghost function Used(): (u: seq<Cell>)
      requires Valid()
      reads this, mem
      ensures |u| == pos
    {
      mem[..pos]
    }

    constructor (mem: array<Cell>, address: nat)
      ensures Valid() && this.mem == mem && this.address == address && Used() == []
      ensures left == mem.Length
    {
      this.mem := mem;
      this.address := address;
      pos := 0;
      left := mem.Length;
    }

    method GetStatic(len: nat) returns (off: Option<nat>)
      requires Valid()
      modifies this`pos, this`left
      ensures Valid()
      ensures if len <= old(left) then off == Some(old(pos)) && pos == old(pos) + len && left == old(left) - len
              else off == None && pos == old(pos) && left == old(left)
      ensures old(Used()) <= Used()
    {
      if left < len {
        return None;
      }
      off := Some(pos);
      pos := pos + len;
      left := left - len;
    }

    /** get_static for a string and strcpy into it. */
    method StoreString(s: string) returns (off: Option<nat>)
      requires Valid()
      modifies this`pos, this`left, mem
      ensures Valid()
      ensures if |s| + 1 <= old(left) then
                && off == Some(old(pos)) && pos == old(pos) + |s| + 1 && left == old(left) - (|s| + 1)
                && Used() == old(Used()) + Z(s)
              else
                off == None && pos == old(pos) && left == old(left) && Used() == old(Used())
    {
      off := GetStatic(|s| + 1);
      if off.Some? {
        forall i | 0 <= i < |s| {
          mem[off.value + i] := Char(s[i]);
        }
        mem[off.value + |s|] := Char('\0');
      }
    }

    /** A pointer stored into a piece handed out before. */
    method StorePointer(off: nat, target: Option<nat>)
      requires Valid() && off + PTR_SIZE <= pos
      modifies mem
      ensures Used() == old(Used())[..off] + Pointer(target) + old(Used())[off + PTR_SIZE..]
    {
      forall i | 0 <= i < PTR_SIZE {
        mem[off + i] := PtrByte(target, i);
      }
    }
  }

  datatype Pw = Pw(name: string, passwd: string, gecos: string, dir: string, shell: string, uid: nat, gid: nat)

  datatype PwResult = PwResult(name: nat, passwd: nat, gecos: nat, dir: nat, shell: nat, uid: nat, gid: nat)

  function PwStrings(pw: Pw): seq<Cell> {
    Z(pw.name) + Z(pw.passwd) + Z(pw.gecos) + Z(pw.dir) + Z(pw.shell)
  }

  function PwNeed(pw: Pw): nat {
    |pw.name| + |pw.passwd| + |pw.gecos| + |pw.dir| + |pw.shell| + 5
  }

  /** Where the five strings start when the first one starts at `p`. */
  function PwLayout(pw: Pw, p: nat): PwResult {
    var p1 := p + |pw.name| + 1;
    var p2 := p1 + |pw.passwd| + 1;
    var p3 := p2 + |pw.gecos| + 1;
    var p4 := p3 + |pw.dir| + 1;
    PwResult(p, p1, p2, p3, p4, pw.uid, pw.gid)
  }

  /** A string and its NUL at offset `off` of the buffer. */
  ghost predicate StringAt(u: seq<Cell>, off: nat, s: string) {
    off + |s| + 1 <= |u| && u[off..off + |s| + 1] == Z(s)
  }

  /** Every field of the result leads to the record's field of that name, one behind the other from `from` on. */
  ghost predicate PwReadsBack(u: seq<Cell>, from: nat, pw: Pw, r: PwResult) {
    && StringAt(u, r.name, pw.name) && StringAt(u, r.passwd, pw.passwd) && StringAt(u, r.gecos, pw.gecos)
    && StringAt(u, r.dir, pw.dir) && StringAt(u, r.shell, pw.shell)
    && r.uid == pw.uid && r.gid == pw.gid
    && from == r.name && r.name + |pw.name| + 1 == r.passwd && r.passwd + |pw.passwd| + 1 == r.gecos
    && r.gecos + |pw.gecos| + 1 == r.dir && r.dir + |pw.dir| + 1 == r.shell && r.shell + |pw.shell| + 1 == |u|
  }

  lemma Assemble(u: seq<Cell>, pw: Pw)
    ensures u + Z(pw.name) + Z(pw.passwd) + Z(pw.gecos) + Z(pw.dir) + Z(pw.shell) == u + PwStrings(pw)
  {
  }

  lemma Stored(u: seq<Cell>, s: string)
    ensures StringAt(u + Z(s), |u|, s) && |u + Z(s)| == |u| + |s| + 1
  {
  }

  lemma StaysStored(u: seq<Cell>, off: nat, s: string, more: seq<Cell>)
    requires StringAt(u, off, s)
    ensures StringAt(u + more, off, s)
  {
  }

  lemma LayoutReadsBack(u: seq<Cell>, pw: Pw)
    ensures PwReadsBack(u + PwStrings(pw), |u|, pw, PwLayout(pw, |u|))
  {
    hide Z, StringAt, PwStrings;
    Assemble(u, pw);
    var u1 := u + Z(pw.name);
    var u2 := u1 + Z(pw.passwd);
    var u3 := u2 + Z(pw.gecos);
    var u4 := u3 + Z(pw.dir);
    Stored(u, pw.name);
    Stored(u1, pw.passwd);
    Stored(u2, pw.gecos);
    Stored(u3, pw.dir);
    Stored(u4, pw.shell);
    StaysStored(u3, |u2|, pw.gecos, Z(pw.dir));
    StaysStored(u2, |u1|, pw.passwd, Z(pw.gecos));
    StaysStored(u3, |u1|, pw.passwd, Z(pw.dir));
    StaysStored(u1, |u|, pw.name, Z(pw.passwd));
    StaysStored(u2, |u|, pw.name, Z(pw.gecos));
    StaysStored(u3, |u|, pw.name, Z(pw.dir));
    StaysStored(u4, |u|, pw.name, Z(pw.shell));
    StaysStored(u4, |u1|, pw.passwd, Z(pw.shell));
    StaysStored(u4, |u2|, pw.gecos, Z(pw.shell));
    StaysStored(u4, |u3|, pw.dir, Z(pw.shell));
  }

  /** NSS_STATUS_TRYAGAIN is None. */
  method FillPwent(pw: Pw, a: Arena) returns (result: Option<PwResult>)
    requires a.Valid()
    modifies a`pos, a`left, a.mem
    ensures a.Valid()
    ensures result.Some? <==>
            |pw.name| + |pw.passwd| + |pw.gecos| + |pw.dir| + |pw.shell| + 5 <= old(a.left)
    ensures result.Some? ==>
              && PwReadsBack(a.Used(), old(a.pos), pw, result.value)
              && a.left == old(a.left) - PwNeed(pw)
              && a.Used() == old(a.Used()) + PwStrings(pw)
  {
    hide Z, PwStrings, Arena.Used;
    ghost var u := a.Used();
    var name := a.StoreString(pw.name);
    if name.None? {
      return None;
    }
    var passwd := a.StoreString(pw.passwd);
    if passwd.None? {
      return None;
    }
    var gecos := a.StoreString(pw.gecos);
    if gecos.None? {
      return None;
    }
    var dir := a.StoreString(pw.dir);
    if dir.None? {
      return None;
    }
    var shell := a.StoreString(pw.shell);
    if shell.None? {
      return None;
    }
    result := Some(PwResult(name.value, passwd.value, gecos.value, dir.value, shell.value, pw.uid, pw.gid));
    Assemble(u, pw);
    hide PwReadsBack;
    LayoutReadsBack(u, pw);
  }

  datatype Gr = Gr(name: string, passwd: string, gid: nat, numMem: int)

  /**
   * How filling a group ends. TryAgain is NSS_STATUS_TRYAGAIN; in an Overrun the code stores a
   * pointer behind the array, because the server listed more members than it counted.
   */
  datatype Outcome = Filled | TryAgain | Overrun

  /** Offsets of the two strings and of the pointer array. */
  datatype GrResult = GrResult(name: nat, passwd: nat, gid: nat, memArray: nat)

  /** A negative count, or no member string at all, means an empty group. */
  function MemberCount(gr: Gr, grMem: Option<string>): nat {
    if gr.numMem < 0 || grMem.None? then 0 else gr.numMem
  }

  function Members(gr: Gr, grMem: Option<string>): seq<string> {
    if MemberCount(gr, grMem) == 0 then [] else Tokens(grMem.value, 0, ",")
  }

  function HeadSize(gr: Gr): nat {
    |gr.name| + |gr.passwd| + 2
  }

  /** The size of the alignment gap and the pointer array when the group starts at `address`. */
  function ArraySize(gr: Gr, grMem: Option<string>, address: nat): nat {
    Pad(address + HeadSize(gr)) + PTR_SIZE * (MemberCount(gr, grMem) + 1)
  }

  function GrNeed(gr: Gr, grMem: Option<string>, address: nat): nat {
    HeadSize(gr) + ArraySize(gr, grMem, address) + |ZAll(Take(Members(gr, grMem), MemberCount(gr, grMem) + 1))|
  }

  /**
   * The room a group takes, for `n` members: the two strings, the gap that aligns the array, `n + 1`
   * pointers, and as many member strings as there are pointers.
   */
  lemma GroupRoom(gr: Gr, grMem: Option<string>, address: nat, n: nat)
    requires n == if gr.numMem >= 0 && grMem.Some? then gr.numMem else 0
    ensures var gap := GrNeed(gr, grMem, address) - |gr.name| - |gr.passwd| - 2 - 8 * (n + 1)
                       - |ZAll(Take(if n == 0 then [] else Tokens(grMem.value, 0, ","), n + 1))|;
            0 <= gap < 8 && (address + |gr.name| + |gr.passwd| + 2 + gap) % 8 == 0
    ensures MemberCount(gr, grMem) == n && Members(gr, grMem) == if n == 0 then [] else Tokens(grMem.value, 0, ",")
  {
    hide ZAll, Tokens;
    PadAligns(address + HeadSize(gr));
  }

  function MemberOffset(ts: seq<string>, k: nat, base: nat): nat
    requires k <= |ts|
  {
    base + |ZAll(ts[..k])|
  }

  lemma {:induction false} ZAllPrefix(ts: seq<string>, k: nat)
    requires k < |ts|
    ensures ZAll(ts[..k + 1]) == ZAll(ts[..k]) + Z(ts[k])
    ensures |ZAll(ts[..k])| + |ts[k]| + 1 <= |ZAll(ts)|
    decreases |ts| - k
  {
    assert ts[..k + 1][..k] == ts[..k];
    if k + 1 < |ts| {
      ZAllPrefix(ts, k + 1);
    } else {
      assert ts[..k + 1] == ts;
    }
  }

  /** Pad aligns, and skips fewer bytes than a pointer has. */
  lemma PadAligns(address: nat)
    ensures (address + Pad(address)) % PTR_SIZE == 0 && Pad(address) < PTR_SIZE
  {
  }

  /** The first `k` pointers of the array at `at` lead to the first `k` strings, stored from `base` on. */
  ghost predicate MemberPointers(u: seq<Cell>, at: nat, ts: seq<string>, k: nat, address: nat, base: nat)
    requires k <= |ts|
  {
    forall i :: 0 <= i < k ==> PointerAt(u, at + PTR_SIZE * i, Some(address + MemberOffset(ts, i, base)))
  }

  /** The array at `at` lists all of `ts`, NULL follows, and the strings themselves start at `base`. */
  ghost predicate MemberList(u: seq<Cell>, at: nat, ts: seq<string>, address: nat, base: nat) {
    && MemberPointers(u, at, ts, |ts|, address, base)
    && PointerAt(u, at + PTR_SIZE * |ts|, None)
    && base <= |u| && u[base..] == ZAll(ts)
  }

  /** A store into the pointer array leaves everything in front of it and everything behind it. */
  lemma PointerStored(u: seq<Cell>, v: seq<Cell>, off: nat, target: Option<nat>, lo: nat, hi: nat)
    requires lo <= off && off + PTR_SIZE <= hi <= |u| && v == u[..off] + Pointer(target) + u[off + PTR_SIZE..]
    ensures |v| == |u| && PointerAt(v, off, target)
    ensures v[..off] == u[..off] && v[..lo] == u[..lo] && v[hi..] == u[hi..]
  {
  }

  lemma PointersKept(u: seq<Cell>, v: seq<Cell>, at: nat, ts: seq<string>, k: nat, address: nat, base: nat)
    requires k <= |ts| && MemberPointers(u, at, ts, k, address, base)
    requires at + PTR_SIZE * k <= |u| && at + PTR_SIZE * k <= |v| && v[..at + PTR_SIZE * k] == u[..at + PTR_SIZE * k]
    ensures MemberPointers(v, at, ts, k, address, base)
  {
    var end := at + PTR_SIZE * k;
    forall i | 0 <= i < k
      ensures PointerAt(v, at + PTR_SIZE * i, Some(address + MemberOffset(ts, i, base)))
    {
      var off := at + PTR_SIZE * i;
      assert PointerAt(u, off, Some(address + MemberOffset(ts, i, base)));
      assert v[..end][off..off + PTR_SIZE] == v[off..off + PTR_SIZE];
      assert u[..end][off..off + PTR_SIZE] == u[off..off + PTR_SIZE];
    }
  }

  /** One more member: its string behind the others, its pointer behind theirs. */
  lemma MemberAdded(u: seq<Cell>, v: seq<Cell>, at: nat, ts: seq<string>, i: nat, address: nat, base: nat)
    requires i < |ts| && at + PTR_SIZE * (i + 1) <= base <= |u|
    requires MemberPointers(u, at, ts, i, address, base) && u[base..] == ZAll(ts[..i])
    requires var off, w := at + PTR_SIZE * i, u + Z(ts[i]);
             v == w[..off] + Pointer(Some(address + MemberOffset(ts, i, base))) + w[off + PTR_SIZE..]
    ensures MemberPointers(v, at, ts, i + 1, address, base) && v[base..] == ZAll(ts[..i + 1])
    ensures |v| == |u| + |ts[i]| + 1 && v[..at] == u[..at]
  {
    hide ZAll, Pointer, Z;
    var off, w := at + PTR_SIZE * i, u + Z(ts[i]);
    PointerStored(w, v, off, Some(address + MemberOffset(ts, i, base)), at, base);
    assert w[..off] == u[..off] && w[..at] == u[..at];
    PointersKept(u, v, at, ts, i, address, base);
    ZAllPrefix(ts, i);
    assert w[base..] == u[base..] + Z(ts[i]);
  }

  lemma ListEnded(u: seq<Cell>, v: seq<Cell>, at: nat, ts: seq<string>, address: nat, base: nat)
    requires at + PTR_SIZE * (|ts| + 1) <= base <= |u|
    requires MemberPointers(u, at, ts, |ts|, address, base) && u[base..] == ZAll(ts)
    requires var off := at + PTR_SIZE * |ts|; v == u[..off] + Pointer(None) + u[off + PTR_SIZE..]
    ensures MemberList(v, at, ts, address, base) && |v| == |u| && v[..at] == u[..at]
  {
    hide ZAll, Pointer, Z, MemberPointers, PointerAt;
    var off := at + PTR_SIZE * |ts|;
    PointerStored(u, v, off, None, at, base);
    PointersKept(u, v, at, ts, |ts|, address, base);
  }

  /** What becomes of the members `ts` in an array for `num` of them, with `left` bytes for their strings. */
  function MembersOutcome(ts: seq<string>, num: nat, left: nat): Outcome {
    if |ZAll(Take(ts, num + 1))| > left then TryAgain else if |ts| <= num then Filled else Overrun
  }

  /** The member loop: one string and one pointer per token, and the NULL pointer at the end. */
  method FillMembers(ts: string, a: Arena, memArray: nat, num: nat) returns (outcome: Outcome)
    requires a.Valid() && memArray + PTR_SIZE * (num + 1) <= a.pos
    modifies a`pos, a`left, a.mem
    ensures a.Valid()
    ensures outcome == MembersOutcome(Tokens(ts, 0, ","), num, old(a.left))
    ensures outcome == Filled ==>
              && a.left == old(a.left) - |ZAll(Tokens(ts, 0, ","))|
              && a.Used()[..memArray] == old(a.Used())[..memArray]
              && MemberList(a.Used(), memArray, Tokens(ts, 0, ","), a.address, old(a.pos))
  {
    hide Z, ZAll, Tokens, NextToken, Arena.Used, MemberPointers, MemberList, Pointer;
    ghost var all, u, left0, pos0 := Tokens(ts, 0, ","), a.Used(), a.left, a.pos;
    var i: nat, at: nat := 0, 0;
    NoMembersYet(all, u, memArray, a.address);
    while true
      invariant at <= |ts| && i <= |all| && i <= num + 1
      invariant Tokens(ts, at, ",") == all[i..]
      invariant a.Valid() && a.left + |ZAll(all[..i])| == left0 && a.pos == pos0 + |ZAll(all[..i])|
      invariant a.Used()[..memArray] == u[..memArray] && a.Used()[pos0..] == ZAll(all[..i])
      invariant MemberPointers(a.Used(), memArray, all, i, a.address, pos0)
      decreases |ts| - at
    {
      TokensStep(ts, at, ",", all, i);
      var name, next := NextTokenAlloc(ts, at, ",");
      if name == null {
        break;
      }
      if i == num + 1 {
        return Overrun;
      }
      var text := name[..name.Length - 1];
      ZAllPrefix(all, i);
      TakeAtLeast(all, i, num);
      ghost var before := a.Used();
      var off := a.StoreString(text);
      if off.None? {
        return TryAgain;
      }
      a.StorePointer(memArray + PTR_SIZE * i, Some(a.address + off.value));
      MemberAdded(before, a.Used(), memArray, all, i, a.address, pos0);
      i := i + 1;
      at := next;
    }
    assert all[..i] == all;
    if i == num + 1 {
      return Overrun;
    }
    ghost var before := a.Used();
    a.StorePointer(memArray + PTR_SIZE * i, None);
    ListEnded(before, a.Used(), memArray, all, a.address, pos0);
    outcome := Filled;
  }

  lemma TakeAtLeast(ts: seq<string>, i: nat, num: nat)
    requires i < |ts| && i <= num
    ensures |ZAll(ts[..i + 1])| <= |ZAll(Take(ts, num + 1))|
  {
    var front := Take(ts, num + 1);
    ZAllPrefix(front, i);
    assert front[..i + 1] == ts[..i + 1];
  }

  lemma NoMembersYet(all: seq<string>, u: seq<Cell>, at: nat, address: nat)
    ensures ZAll(all[..0]) == [] && u[|u|..] == [] && all[0..] == all && MemberPointers(u, at, all, 0, address, |u|)
  {
  }

  lemma TokensStep(s: string, at: nat, sep: string, all: seq<string>, i: nat)
    requires at <= |s| && i <= |all| && Tokens(s, at, sep) == all[i..]
    ensures match NextToken(s, at, sep)
            case Nothing => i == |all|
            case Token(text, next) =>
              at < next <= |s| && i < |all| && all[i] == text && Tokens(s, next, sep) == all[i + 1..]
  {
    if NextToken(s, at, sep).Token? {
      assert all[i] == all[i..][0] && all[i + 1..] == all[i..][1..];
    }
  }

  /**
   * What the buffer holds after a success: the two strings, a gap that ends with the aligned pointer
   * array, the members; the array lists the members and ends with NULL.
   */
  ghost predicate Packed(
    before: seq<Cell>, after: seq<Cell>, gr: Gr, grMem: Option<string>, address: nat, memArray: nat)
  {
    var head := |before| + HeadSize(gr);
    && (address + memArray) % PTR_SIZE == 0 && head <= memArray < head + PTR_SIZE
    && head <= |after| && after[..head] == before + Z(gr.name) + Z(gr.passwd)
    && MemberList(after, memArray, Members(gr, grMem), address, ArrayEnd(gr, grMem, memArray))
  }

  function ArrayEnd(gr: Gr, grMem: Option<string>, memArray: nat): nat {
    memArray + PTR_SIZE * (MemberCount(gr, grMem) + 1)
  }

  /** On success everything is in place; the C code goes on after an Overrun, into memory that is not the array's. */
  method FillGrent(gr: Gr, grMem: Option<string>, a: Arena) returns (outcome: Outcome, result: GrResult)
    requires a.Valid()
    modifies a`pos, a`left, a.mem
    ensures a.Valid()
    ensures outcome == TryAgain <==> GrNeed(gr, grMem, a.address + old(a.pos)) > old(a.left)
    ensures gr.numMem <= 0 || grMem.None? ==> outcome != Overrun
    ensures outcome == Overrun <==>
            GrNeed(gr, grMem, a.address + old(a.pos)) <= old(a.left) && |Members(gr, grMem)| > MemberCount(gr, grMem)
    ensures outcome == Filled ==>
              && result.name == old(a.pos) && result.passwd == old(a.pos) + |gr.name| + 1
              && result.gid == gr.gid
              && a.left == old(a.left) - GrNeed(gr, grMem, a.address + old(a.pos))
              && Packed(old(a.Used()), a.Used(), gr, grMem, a.address, result.memArray)
  {
    hide Z, ZAll, Tokens, Arena.Used, MemberList, Pointer, Packed;
    ghost var u := a.Used();
    var num := MemberCount(gr, grMem);
    outcome, result := TryAgain, GrResult(0, 0, gr.gid, 0);
    var name := a.StoreString(gr.name);
    if name.None? {
      return;
    }
    var passwd := a.StoreString(gr.passwd);
    if passwd.None? {
      return;
    }
    ghost var head := a.Used();
    var i := Pad(a.address + a.pos);
    PadAligns(a.address + a.pos);
    var tst := a.GetStatic((num + 1) * PTR_SIZE + i);
    if tst.None? {
      return;
    }
    ghost var mid := a.Used();
    var memArray := tst.value + i;
    result := GrResult(name.value, passwd.value, gr.gid, memArray);
    if num == 0 {
      a.StorePointer(memArray, None);
      NoMembers(mid, a.Used(), memArray, a.address);
      outcome := Filled;
    } else {
      outcome := FillMembers(grMem.value, a, memArray, num);
    }
    if outcome == Filled {
      NowPacked(u, head, mid, a.Used(), gr, grMem, a.address, memArray);
    }
  }

  lemma NoMembers(u: seq<Cell>, v: seq<Cell>, at: nat, address: nat)
    requires at + PTR_SIZE == |u| && v == u[..at] + Pointer(None) + u[at + PTR_SIZE..]
    ensures MemberList(v, at, [], address, |u|) && v[..at] == u[..at] && |ZAll([])| == 0
  {
    assert MemberPointers(u, at, [], 0, address, |u|) && u[|u|..] == [];
    ListEnded(u, v, at, [], address, |u|);
  }

  lemma HeadKept(head: seq<Cell>, mid: seq<Cell>, end: seq<Cell>, at: nat)
    requires head <= mid && |head| <= at <= |mid| && at <= |end| && end[..at] == mid[..at]
    ensures end[..|head|] == head
  {
    assert end[..at][..|head|] == end[..|head|] && mid[..at][..|head|] == mid[..|head|];
  }

  lemma NowPacked(u: seq<Cell>, head: seq<Cell>, mid: seq<Cell>, end: seq<Cell>, gr: Gr, grMem: Option<string>,
                  address: nat, memArray: nat)
    requires head == u + Z(gr.name) + Z(gr.passwd) && head <= mid && |head| <= memArray < |head| + PTR_SIZE
    requires memArray <= |mid| && memArray <= |end| && end[..memArray] == mid[..memArray]
    requires (address + memArray) % PTR_SIZE == 0
    requires MemberList(end, memArray, Members(gr, grMem), address, ArrayEnd(gr, grMem, memArray))
    ensures Packed(u, end, gr, grMem, address, memArray)
  {
    hide Z, MemberList;
    HeadKept(head, mid, end, memArray);
  }

  lemma {:induction false} ZAllSlice(ts: seq<string>, k: nat)
    requires k < |ts|
    ensures |ZAll(ts[..k])| + |ts[k]| + 1 <= |ZAll(ts)|
    ensures ZAll(ts)[|ZAll(ts[..k])|..|ZAll(ts[..k])| + |ts[k]| + 1] == Z(ts[k])
    decreases |ts|
  {
    ZAllPrefix(ts, k);
    var front := ts[..|ts| - 1];
    if k < |front| {
      ZAllSlice(front, k);
      assert front[..k] == ts[..k];
      assert ZAll(ts) == ZAll(front) + Z(ts[|ts| - 1]);
    } else {
      assert ts[..k] == front;
    }
  }

  /** Following the pointer of member `k` after a success reads that member, and members do not overlap. */
  lemma MemberReadsBack(
    before: seq<Cell>, after: seq<Cell>, gr: Gr, grMem: Option<string>, address: nat, memArray: nat, k: nat)
    requires Packed(before, after, gr, grMem, address, memArray) && k < |Members(gr, grMem)|
    ensures var ts, base := Members(gr, grMem), ArrayEnd(gr, grMem, memArray);
            var off := MemberOffset(ts, k, base);
            && PointerAt(after, memArray + PTR_SIZE * k, Some(address + off))
            && base <= off && off + |ts[k]| + 1 <= |after|
            && after[off..off + |ts[k]| + 1] == Z(ts[k])
            && off + |ts[k]| + 1 == MemberOffset(ts, k + 1, base)
  {
    hide Z, ZAll, Tokens, Pointer;
    var ts, base := Members(gr, grMem), ArrayEnd(gr, grMem, memArray);
    ZAllSlice(ts, k);
    ZAllPrefix(ts, k);
    var lo, n := |ZAll(ts[..k])|, |ts[k]| + 1;
    assert after[base..][lo..lo + n] == after[base + lo..base + lo + n];
  }

  /** A member list printed with commas is the list of members the caller gets. */
  lemma PrintedMembers(gr: Gr, names: seq<string>)
    requires gr.numMem > 0 && forall i :: 0 <= i < |names| ==> Plain(names[i], ",")
    ensures Members(gr, Some(Join(names, ','))) == names
  {
    var s := Join(names, ',');
    assert s[0..] == s;
    assert "," == [','];
    TokensOfJoin(names, ',', s, 0);
  }
}
