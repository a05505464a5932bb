/**
 * The winbind client connection of nsswitch/wb_common.c: `winbind_open_pipe_sock`,
 * `winbind_close_sock`, `winbind_write_sock`, `winbind_read_sock` and the request functions that
 * call them, recursively while a connection is being set up.
 */
module WbSocket {
  import opened Common

  /** Where a connection was made: the fixed socket directory, or the one PRIV_PIPE_DIR named. */
  datatype Dir = Public | Privileged

  datatype Outcome = Written | Failed | Closed

  datatype Status = Ok | NotFound | Unavailable

  datatype Call =
    | Request(fixed: seq<byte>, extra: seq<byte>, needPriv: bool)
    | ForkTo(child: nat)
    | Close
    | SwitchOff(off: bool)

  /**
   * A connection: where and by the process with which pid it was made, what the kernel took on it, and
   * whether select(2) found something to read when nothing was expected, which means that the daemon
   * had closed it. Descriptors are positions in the list of all connections ever made.
   */
  datatype Conn = Conn(dir: Dir, maker: nat, sent: seq<byte>, hungUp: bool)

  // the two requests that set a connection up
  const VERSION_REQUEST: seq<byte> := [0]
  const PRIV_DIR_REQUEST: seq<byte> := [1]

  /** What has been written on a connection that was just set up. */
  function Greeting(dir: Dir): seq<byte> {
    if dir == Public then VERSION_REQUEST + PRIV_DIR_REQUEST else []
  }

  /** `now` is `before` and then some beginning of `part`. */
  ghost predicate Extends(before: seq<byte>, now: seq<byte>, part: seq<byte>) {
    before <= now && now[|before|..] <= part
  }

  lemma ExtendsBoth(before: seq<byte>, now: seq<byte>, fixed: seq<byte>, extra: seq<byte>)
    ensures Extends(before, now, fixed) || Extends(before + fixed, now, extra) ==> Extends(before, now, fixed + extra)
  {
    if Extends(before + fixed, now, extra) {
      assert now == before + fixed + now[|before + fixed|..];
      assert now[|before|..] == fixed + now[|before + fixed|..];
    }
  }

  /** Process `pid` made new connections, and wrote on those and perhaps on the one that was open, `f`. */
  ghost predicate History(s: seq<Conn>, t: seq<Conn>, f: Option<nat>, pid: nat) {
    && |s| <= |t|
    && (forall c :: 0 <= c < |s| ==> t[c].dir == s[c].dir && t[c].maker == s[c].maker)
    && (forall c :: 0 <= c < |s| && f != Some(c) ==> t[c] == s[c])
    && (forall c :: |s| <= c < |t| ==> t[c].maker == pid)
  }

  /** Nothing went out on a connection of another process, and every new connection is this one's. */
  ghost predicate OwnOnly(s: seq<Conn>, t: seq<Conn>, pid: nat) {
    forall c :: 0 <= c < |t| && t[c].maker != pid ==> c < |s| && t[c] == s[c]
  }

  /** In the public directory nothing went out but the set-up requests, and those on new connections only. */
  ghost predicate Confined(s: seq<Conn>, t: seq<Conn>) {
    forall c :: 0 <= c < |t| && t[c].dir == Public ==>
      if c < |s| then t[c].sent == s[c].sent else t[c].sent <= Greeting(Public)
  }

  /** What the process `pid` may do to the connections in one call. */
  ghost predicate CallKept(s: seq<Conn>, t: seq<Conn>, call: Call, pid: nat) {
    && |s| <= |t| && (forall c :: 0 <= c < |s| ==> s[c].sent <= t[c].sent)
    && OwnOnly(s, t, pid)
    && (if call.Request? then call.needPriv ==> Confined(s, t) else s == t)
  }

  /** Which process makes call number `i`. */
  function Caller(calls: seq<Call>, i: nat, pid: nat): nat
    requires i <= |calls|
  {
    if i == 0 then pid else if calls[i - 1].ForkTo? then calls[i - 1].child else Caller(calls, i - 1, pid)
  }

  /** The next `k` questions are answered well. */
  ghost predicate Smooth(script: seq<nat>, k: nat) {
    k <= |script| && forall i :: 0 <= i < k ==> script[i] >= 2
  }

  class Client {
    // the statics of the C file
    var fd: Option<nat>
    var isPrivileged: bool
    var ourPid: nat

    // the process and the system around it
    var pid: nat
    /** The environment variable that winbind_on and winbind_off set, which turns the client off. */
    var envSet: bool
    /** Everything the system and the daemon will answer, one number per question; then only failures. */
    var script: seq<nat>
    /** Every connection ever made. */
    var conns: seq<Conn>
    ghost var open: set<nat>
    /** How often something went wrong: a failed call, a closed connection, a refusal, the client turned off. */
    ghost var setbacks: nat

    /**
     * No descriptor leaks; an open descriptor flagged privileged was opened in the privileged
     * directory, and by the process `ourPid` names; a connection that was found closed is not kept.
     */
    ghost predicate Valid()
      reads this
    {
      && open == (if fd.Some? then {fd.value} else {})
      && (fd.Some? ==> fd.value < |conns| && conns[fd.value].maker == ourPid && !conns[fd.value].hungUp)
      && (fd.Some? && isPrivileged ==> conns[fd.value].dir == Privileged)
    }

    /**
     * What every operation of this process keeps: history only grows, a new descriptor is a new
     * connection, and nothing is written on an old connection that was not the open one, or that
     * another process made.
     */
    twostate predicate Kept()
      reads this
    {
      && |script| <= old(|script|) && old(setbacks) <= setbacks
      && pid == old(pid) && envSet == old(envSet) && (ourPid == old(ourPid) || ourPid == pid)
      && (fd.Some? ==> fd == old(fd) || fd.value >= |old(conns)|)
      && History(old(conns), conns, if old(ourPid) == pid then old(fd) else None, pid)
    }

    /** What one call for a privileged request keeps, whether it succeeds or not. */
    twostate predicate NoLeak()
      reads this
    {
      Confined(old(conns), conns)
    }

    /** The connection that was open got some beginning of `part`, if one was open. */
    twostate predicate Got(part: seq<byte>)
      reads this
    {
      old(fd).Some? ==>
        && old(fd).value < |old(conns)| <= |conns|
        && Extends(old(conns)[old(fd).value].sent, conns[old(fd).value].sent, part)
    }

    /** The open connection was just set up. */
    ghost predicate Greeted()
      reads this
    {
      fd.Some? && fd.value < |conns| && conns[fd.value].sent == Greeting(conns[fd.value].dir)
    }

    /** Every new connection is in the privileged directory. */
    twostate predicate NewPrivileged()
      reads this
    {
      forall c :: |old(conns)| <= c < |conns| ==> conns[c].dir == Privileged
    }

    constructor (script: seq<nat>, pid: nat)
      ensures Valid() && fd == None
      ensures this.script == script && this.pid == pid && !envSet && conns == []
    {
      fd, isPrivileged, ourPid := None, false, 0;
      this.pid := pid;
      envSet := false;
      this.script := script;
      conns, open, setbacks := [], {}, 0;
    }

    /** The answer to the next question; 0 is failure. */
    method Ask() returns (a: nat)
      modifies this`script, this`setbacks
      ensures if old(script) == [] then a == 0 && script == [] else a == old(script)[0] && script == old(script)[1..]
      ensures setbacks == old(setbacks) + (if a == 0 then 1 else 0)
    {
      a := 0;
      if script != [] {
        a := script[0];
        script := script[1..];
      }
      if a == 0 {
        setbacks := setbacks + 1;
      }
    }

    ghost method Setback()
      modifies this`setbacks
      ensures setbacks == old(setbacks) + 1
    {
      setbacks := setbacks + 1;
    }

    /** fork(2), seen from the child: it has the descriptor, and another pid. */
    method Fork(child: nat)
      requires Valid()
      modifies this`pid
      ensures Valid() && pid == child
    {
      pid := child;
    }

    method CloseSock()
      requires Valid()
      modifies this`fd, this`open
      ensures Valid() && fd == None
    {
      if fd.Some? {
        open := open - {fd.value};
        fd := None;
      }
    }

    /** winbind_named_pipe_sock: a new connection in `dir`, or nothing. */
    method NamedPipeSock(dir: Dir) returns (conn: Option<nat>)
      requires Valid()
      modifies this`script, this`setbacks, this`open, this`conns
      ensures setbacks == old(setbacks) + (if conn.None? then 1 else 0)
      ensures |script| <= old(|script|)
      ensures conn.None? ==>
                Valid() && open == old(open) && conns == old(conns)
      ensures conn.Some? ==>
                && conn.value == |old(conns)| && conns == old(conns) + [Conn(dir, pid, [], false)]
                && open == old(open) + {conn.value}
      ensures Smooth(old(script), 1) ==> conn.Some? && script == old(script)[1..]
    {
      var a := Ask();
      if a == 0 {
        return None;
      }
      conn := Some(|conns|);
      open := open + {|conns|};
      conns := conns + [Conn(dir, pid, [], false)];
    }

    /** The open connection may be used by this process for such a request. */
    ghost predicate Usable(needPriv: bool)
      reads this
    {
      fd.Some? && ourPid == pid && (needPriv ==> isPrivileged)
    }

    /** A descriptor from before a fork, or one that is not privileged enough, is closed. */
    method DropStale(needPriv: bool)
      requires Valid()
      modifies this`fd, this`open, this`ourPid
      ensures Valid() && ourPid == pid
      ensures fd == if old(ourPid) != pid || (needPriv && !isPrivileged) then None else old(fd)
    {
      if ourPid != pid {
        CloseSock();
        ourPid := pid;
      }
      if needPriv && !isPrivileged {
        CloseSock();
      }
    }

    method OpenPublic()
      requires Valid() && fd == None && ourPid == pid
      modifies this`fd, this`isPrivileged, this`script, this`setbacks, this`open, this`conns
      ensures Valid() && Kept()
      ensures fd.Some? ==> conns[fd.value].dir == Public && conns[fd.value].sent == []
      ensures NoLeak()
      ensures fd.None? ==> setbacks > old(setbacks)
      ensures Smooth(old(script), 1) ==> fd.Some? && script == old(script)[1..]
    {
      fd := NamedPipeSock(Public);
      if fd.Some? {
        isPrivileged := false;
      }
    }

    /** A new connection, and the requests on it that may replace it by a privileged one. */
    method Connect(needPriv: bool) returns (r: Option<nat>)
      requires Valid() && fd == None && ourPid == pid
      modifies this
      ensures Valid() && Kept() && ourPid == pid
      ensures r.Some? ==> r == fd && (needPriv ==> isPrivileged) && Greeted()
      ensures NoLeak()
      ensures setbacks >= old(setbacks) && (r.None? || !isPrivileged ==> setbacks > old(setbacks))
      ensures Smooth(old(script), 9) && !envSet ==> r.Some? && isPrivileged && script == old(script)[9..]
      decreases 0, |script|, 9
    {
      OpenPublic();
      if fd.None? {
        return None;
      }
      var ok := Handshake();
      if !ok || (needPriv && !isPrivileged) {
        return None;
      }
      return fd;
    }

    /**
     * winbind_open_pipe_sock: the open connection when it may be used, else a new one, which is
     * never made while another connection is being set up.
     */
    method OpenPipeSock(recursing: bool, needPriv: bool) returns (r: Option<nat>)
      requires Valid()
      modifies this
      ensures Valid() && Kept() && ourPid == pid
      ensures NoLeak() && old(conns) <= conns
      ensures r.Some? ==> r == fd && (needPriv ==> isPrivileged)
      ensures r.Some? ==> if fd == old(fd) then conns == old(conns) else Greeted()
      ensures old(Usable(needPriv)) ==> r == old(fd) && unchanged(this)
      ensures recursing ==> |conns| == |old(conns)| && r == fd && (fd == old(fd) || fd == None)
      ensures r.Some? && old(ourPid) != pid ==> r.value >= |old(conns)|
      ensures r.None? ==> setbacks > old(setbacks) || (recursing && old(!Usable(needPriv)))
      ensures old(fd).None? && !recursing && Smooth(old(script), 9) && !envSet ==>
                r.Some? && isPrivileged && script == old(script)[9..]
      decreases if recursing then 0 else 1, |script|, 0
    {
      DropStale(needPriv);
      if fd.Some? {
        return fd;
      }
      if recursing {
        return None;
      }
      r := Connect(needPriv);
    }

    /** The version check, and then the privileged connection when the daemon names one. */
    method Handshake() returns (ok: bool)
      requires Valid() && fd.Some? && ourPid == pid && conns[fd.value].dir == Public && conns[fd.value].sent == []
      modifies this
      ensures Valid() && Kept() && ourPid == pid
      ensures ok <==> fd.Some?
      ensures ok ==> Greeted()
      ensures NewPrivileged() && conns[old(fd).value].sent <= Greeting(Public)
      ensures !ok || !isPrivileged ==> setbacks > old(setbacks)
      ensures Smooth(old(script), 8) && !envSet ==> ok && isPrivileged && script == old(script)[8..]
      decreases 0, |script|, 8
    {
      ok := CheckVersion();
      if ok {
        AskForPrivileged();
        ok := fd.Some?;
      }
    }

    /** Any other answer than the expected version closes the connection. */
    method CheckVersion() returns (ok: bool)
      requires Valid() && fd.Some? && ourPid == pid && conns[fd.value].dir == Public && conns[fd.value].sent == []
      modifies this
      ensures Valid() && Kept() && ourPid == pid
      ensures if ok then fd == old(fd) && conns[fd.value].sent == VERSION_REQUEST
              else fd == None && setbacks > old(setbacks)
      ensures |conns| == |old(conns)| && conns[old(fd).value].sent <= VERSION_REQUEST && (ok ==> !envSet)
      ensures Smooth(old(script), 4) && !envSet ==> ok && script == old(script)[4..]
      ensures Smooth(old(script), 3) && |old(script)| >= 4 && old(script)[3] == 0 && !envSet ==> !ok
      decreases 0, |script|, 7
    {
      var status, _ := RequestResponse(VERSION_REQUEST, [], true, false);
      var version := Ask();
      ok := status == Ok && version != 0;
      if !ok {
        CloseSock();
      }
    }

    method AskForPrivileged()
      requires Valid() && fd.Some? && ourPid == pid && conns[fd.value].dir == Public && !envSet
      modifies this
      ensures Valid() && Kept() && ourPid == pid
      ensures fd.Some? ==>
                if fd == old(fd) then conns[fd.value].sent == old(conns)[fd.value].sent + PRIV_DIR_REQUEST
                else conns[fd.value].dir == Privileged && conns[fd.value].sent == []
      ensures NewPrivileged() && Got(PRIV_DIR_REQUEST)
      ensures fd.None? || !isPrivileged ==> setbacks > old(setbacks)
      ensures Smooth(old(script), 4) && !envSet ==> fd.Some? && isPrivileged && script == old(script)[4..]
      ensures Smooth(old(script), 2) && |old(script)| >= 3 && old(script)[2] == 1 && !envSet ==> fd == old(fd)
      decreases 0, |script|, 7
    {
      var status, _ := RequestResponse(PRIV_DIR_REQUEST, [], true, false);
      if status == Ok {
        UsePrivileged();
      }
    }

    method UsePrivileged()
      requires Valid() && fd.Some? && ourPid == pid
      modifies this`fd, this`isPrivileged, this`script, this`setbacks, this`open, this`conns
      ensures Valid() && Kept() && fd.Some?
      ensures if fd == old(fd) then conns == old(conns)
              else conns[fd.value].dir == Privileged && conns[fd.value].sent == []
      ensures NewPrivileged() && conns[old(fd).value].sent == old(conns)[old(fd).value].sent
      ensures isPrivileged || setbacks > old(setbacks)
      ensures Smooth(old(script), 1) ==> isPrivileged && script == old(script)[1..]
    {
      var conn := NamedPipeSock(Privileged);
      if conn.Some? {
        open := open - {fd.value};
        fd := conn;
        isPrivileged := true;
      }
    }

    /** The loop of winbind_write_sock on the connection that is open; a readable socket means it was closed. */
    method WriteLoop(buffer: seq<byte>) returns (outcome: Outcome)
      requires Valid() && fd.Some? && ourPid == pid
      modifies this`fd, this`open, this`script, this`setbacks, this`conns
      ensures Valid() && Kept()
      ensures Got(buffer)
      ensures |conns| == |old(conns)|
      ensures outcome == Written ==> fd == old(fd) && conns[fd.value].sent == old(conns)[fd.value].sent + buffer
      ensures outcome != Written ==> fd == None && setbacks > old(setbacks)
      ensures outcome == Closed ==> |script| < old(|script|) && conns[old(fd).value].hungUp
      ensures buffer != [] && Smooth(old(script), 2) && old(script)[1] >= |buffer| ==>
                outcome == Written && script == old(script)[2..]
      ensures buffer != [] && old(script) != [] && old(script)[0] == 1 ==>
                outcome == Closed && script == old(script)[1..]
    {
      var nwritten: nat := 0;
      ghost var c := fd.value;
      while nwritten < |buffer|
        invariant Valid() && Kept() && nwritten <= |buffer| && fd == old(fd) && |conns| == |old(conns)|
        invariant conns[c].sent == old(conns)[c].sent + buffer[..nwritten]
        invariant nwritten == 0 ==> script == old(script)
        invariant nwritten > 0 && Smooth(old(script), 2) && old(script)[1] >= |buffer| ==>
                    nwritten == |buffer| && script == old(script)[2..]
        invariant nwritten > 0 ==> old(script) != [] && old(script)[0] > 1
      {
        var k;
        outcome, k := SelectAndWrite(buffer[nwritten..]);
        if outcome != Written {
          assert conns[c].sent == old(conns)[c].sent + buffer[..nwritten];
          return;
        }
        assert buffer[..nwritten + k] == buffer[..nwritten] + buffer[nwritten..][..k];
        nwritten := nwritten + k;
      }
      assert buffer[..nwritten] == buffer;
      return Written;
    }

    /** Nothing is expected from the daemon now, so a readable socket means that it closed the connection. */
    method HangUp()
      requires Valid() && fd.Some?
      modifies this`fd, this`open, this`setbacks, this`conns
      ensures Valid() && fd == None && setbacks > old(setbacks)
      ensures conns == old(conns)[old(fd).value := old(conns)[old(fd).value].(hungUp := true)]
    {
      setbacks := setbacks + 1;
      conns := conns[fd.value := conns[fd.value].(hungUp := true)];
      open := open - {fd.value};
      fd := None;
    }

    /** One pass of it: a readable socket, a failed select or a failed write ends the connection. */
    method SelectAndWrite(bytes: seq<byte>) returns (outcome: Outcome, k: nat)
      requires Valid() && fd.Some? && ourPid == pid && bytes != []
      modifies this`fd, this`open, this`script, this`setbacks, this`conns
      ensures Valid() && Kept()
      ensures outcome == Written ==>
                0 < k <= |bytes| && fd == old(fd) && conns[fd.value].sent == old(conns)[fd.value].sent + bytes[..k]
      ensures outcome != Written ==> fd == None && setbacks > old(setbacks) && Got([])
      ensures |conns| == |old(conns)|
      ensures outcome == Written ==> old(script) != [] && old(script)[0] > 1
      ensures outcome == Closed <==> old(script) != [] && old(script)[0] == 1
      ensures outcome == Closed ==> script == old(script)[1..] && conns[old(fd).value].hungUp
      ensures Smooth(old(script), 2) ==>
                outcome == Written && k == Min(old(script)[1], |bytes|) && script == old(script)[2..]
    {
      k := 0;
      var sel := Ask();
      if sel == 0 {
        CloseSock();
        return Failed, 0;
      }
      if sel == 1 {
        HangUp();
        return Closed, 0;
      }
      var result := Ask();
      if result == 0 {
        CloseSock();
        return Failed, 0;
      }
      k := Min(result, |bytes|);
      conns := conns[fd.value := conns[fd.value].(sent := conns[fd.value].sent + bytes[..k])];
      return Written, k;
    }

    /** While a connection is being set up no other is made, and a lost one stays lost. */
    twostate predicate SetupKept(lost: bool)
      reads this
    {
      |conns| == |old(conns)| && fd == if lost then None else old(fd)
    }

    /** One pass of winbind_write_sock from its `restart` label. */
    method WriteRound(buffer: seq<byte>, recursing: bool, needPriv: bool) returns (outcome: Outcome)
      requires Valid()
      modifies this
      ensures Valid() && Kept() && ourPid == pid
      ensures needPriv ==> NoLeak()
      ensures Got(buffer)
      ensures outcome == Written ==> Usable(needPriv) && Appended(buffer)
      ensures outcome == Written && old(Usable(needPriv)) ==> fd == old(fd)
      ensures outcome == Closed ==> fd == None && setbacks > old(setbacks) && |script| < old(|script|)
      ensures outcome == Closed && old(Usable(needPriv)) ==> conns[old(fd).value].hungUp
      ensures outcome == Failed ==> setbacks > old(setbacks) || (recursing && old(!Usable(needPriv)))
      ensures recursing ==> SetupKept(outcome != Written)
      ensures old(Usable(needPriv)) && Takes(old(script), buffer) ==> outcome == Written && script == old(script)[2..]
      ensures old(Usable(needPriv)) && buffer != [] && old(script) != [] && old(script)[0] == 1 ==>
                outcome == Closed && script == old(script)[1..]
      ensures old(fd).None? && !recursing && !envSet && Smooth(old(script), 9) && Takes(old(script)[9..], buffer) ==>
                outcome == Written && isPrivileged && script == old(script)[11..]
      decreases if recursing then 0 else 1, |script|, 1
    {
      var f := OpenPipeSock(recursing, needPriv);
      if f.None? {
        return Failed;
      }
      outcome := WriteLoop(buffer);
    }

    /** The next two answers let all of `buffer` out at once. */
    ghost static predicate Takes(script: seq<nat>, buffer: seq<byte>) {
      buffer != [] && Smooth(script, 2) && script[1] >= |buffer|
    }

    /** `buffer` is the last thing on the open connection, right behind what was there or the greeting. */
    twostate predicate Appended(buffer: seq<byte>)
      reads this
    {
      && fd.Some? && fd.value < |conns|
      && conns[fd.value].sent == (if fd == old(fd) && fd.value < |old(conns)| then old(conns)[fd.value].sent
                            else Greeting(conns[fd.value].dir)) + buffer
    }

    /**
     * winbind_write_sock: on success the whole buffer went to the connection that is now open, in
     * one piece, and that connection is privileged when it had to be. A usable connection is given
     * up only when it was found closed; then it got some beginning of the buffer.
     */
    method WriteSock(buffer: seq<byte>, recursing: bool, needPriv: bool) returns (ok: bool)
      requires Valid()
      modifies this
      ensures Valid() && Kept()
      ensures needPriv ==> NoLeak()
      ensures Got(buffer)
      ensures ok ==> Usable(needPriv) && Appended(buffer)
      ensures ok && old(Usable(needPriv)) ==> (fd == old(fd) <==> !conns[old(fd).value].hungUp)
      ensures !ok ==> setbacks > old(setbacks) || (recursing && old(!Usable(needPriv)))
      ensures recursing ==> SetupKept(!ok)
      ensures old(Usable(needPriv)) && Takes(old(script), buffer) ==>
                ok && fd == old(fd) && script == old(script)[2..]
      ensures old(Usable(needPriv)) && !recursing && !envSet && Interrupts(old(script), buffer) ==>
                ok && fd != old(fd) && isPrivileged
      ensures old(fd).None? && !recursing && !envSet && Connects(old(script), buffer) ==>
                ok && script == old(script)[11..]
      decreases if recursing then 0 else 1, |script|, 2
    {
      hide Extends;
      ghost var first := true;
      while true
        invariant Valid() && Kept() && (needPriv ==> NoLeak())
        invariant !first ==> Got(buffer)
        invariant first ==> unchanged(this)
        invariant !first && old(fd).None? && !recursing && !envSet ==> !Connects(old(script), buffer)
        invariant !first ==> fd == None && ourPid == pid && setbacks > old(setbacks)
        invariant recursing ==> |conns| == |old(conns)|
        invariant !first && old(Usable(needPriv)) ==> conns[old(fd).value].hungUp
        invariant !first && old(Usable(needPriv)) ==> !Takes(old(script), buffer)
        invariant !first && old(Usable(needPriv)) && !recursing && !envSet && Interrupts(old(script), buffer) ==>
                    script == old(script)[1..]
        decreases |script|
      {
        var outcome := WriteRound(buffer, recursing, needPriv);
        if outcome == Failed {
          return false;
        }
        if outcome == Written {
          return true;
        }
        first := false;
      }
    }

    /** A new connection can be set up, and takes `buffer` at once. */
    ghost static predicate Connects(script: seq<nat>, buffer: seq<byte>) {
      Smooth(script, 9) && Takes(script[9..], buffer)
    }

    /** The daemon is found to have closed the connection, and a new one works. */
    ghost static predicate Interrupts(script: seq<nat>, buffer: seq<byte>) {
      script != [] && script[0] == 1 && Smooth(script[1..], 9) && Takes(script[10..], buffer)
    }

    /** What a reply comes to: lost, a refusal, or what was asked for. */
    static function Reply(a: nat): Status {
      if a == 0 then Unavailable else if a == 1 then NotFound else Ok
    }

    /** winbindd_get_response: any failed read closes the connection. */
    method GetResponse() returns (status: Status)
      requires Valid()
      requires fd.Some?
      modifies this`fd, this`open, this`script, this`setbacks
      ensures Valid() && Kept()
      ensures status != Ok ==> setbacks > old(setbacks)
      ensures if status == Unavailable then fd == None else fd.Some? && fd == old(fd)
      ensures Smooth(old(script), 1) ==> status == Ok && script == old(script)[1..]
      ensures old(script) != [] ==> status == Reply(old(script)[0]) && script == old(script)[1..]
    {
      var a := Ask();
      if a == 0 {
        CloseSock();
        return Unavailable;
      }
      if a == 1 {
        Setback();
        return NotFound;
      }
      return Ok;
    }

    /** What was on `conn` when the request began: on a new connection, the greeting. */
    twostate function Standing(conn: nat): seq<byte>
      reads this
      requires conn < |conns|
    {
      if old(fd) == Some(conn) && conn < |old(conns)| then old(conns)[conn].sent else Greeting(conns[conn].dir)
    }

    /**
     * Both parts of a request went out, the fixed part as the last thing on `conn` when it was
     * written. They are adjacent exactly when `conn` is still open; otherwise `conn` was found
     * closed, it got at most a beginning of the extra data, and the extra data stands alone on a new
     * connection.
     */
    ghost predicate Delivered(conn: nat, before: seq<byte>, fixed: seq<byte>, extra: seq<byte>, needPriv: bool)
      reads this
    {
      && Usable(needPriv) && conn < |conns| && fd.value < |conns|
      && conns[conn].maker == pid && (needPriv ==> conns[conn].dir == Privileged)
      && (fd.value == conn <==> !conns[conn].hungUp)
      && if fd.value == conn then conns[conn].sent == before + fixed + extra
         else
           && extra != [] && conn < fd.value && Extends(before + fixed, conns[conn].sent, extra)
           && conns[fd.value].sent == Greeting(conns[fd.value].dir) + extra
    }

    /** That happened since the old state, on the connection that was open then or on a new one. */
    twostate predicate DeliveredNow(conn: nat, fixed: seq<byte>, extra: seq<byte>, needPriv: bool)
      reads this
    {
      && conn < |conns| && Delivered(conn, Standing(conn), fixed, extra, needPriv)
      && (old(fd) == Some(conn) || conn >= |old(conns)|)
    }

    /** winbindd_send_request: the fixed part and then the extra data, unless the client is turned off. */
    method SendRequest(fixed: seq<byte>, extra: seq<byte>, recursing: bool, needPriv: bool)
      returns (status: Status, ghost conn: nat)
      requires Valid()
      modifies this
      ensures Valid() && Kept()
      ensures needPriv ==> NoLeak()
      ensures Got(fixed + extra)
      ensures status == NotFound <==> envSet
      ensures envSet ==> Idle()
      ensures status == Ok ==> DeliveredNow(conn, fixed, extra, needPriv)
      ensures status != Ok ==> setbacks > old(setbacks) || (recursing && old(!Usable(needPriv)))
      ensures recursing ==> SetupKept(status == Unavailable)
      ensures old(Usable(needPriv)) && Takes(old(script), fixed) && extra == [] && !envSet ==>
                status == Ok && script == old(script)[2..]
      ensures old(Usable(needPriv)) && Takes(old(script), fixed) && !recursing && !envSet
              && Interrupts(old(script)[2..], extra) ==>
                status == Ok && Some(conn) == old(fd) != fd && isPrivileged
      ensures old(fd).None? && !recursing && !envSet && Connects(old(script), fixed) && extra == [] ==>
                status == Ok && script == old(script)[11..]
      decreases if recursing then 0 else 1, |script|, 4
    {
      conn := 0;
      if envSet {
        Setback();
        return NotFound, conn;
      }
      var ok;
      ok, conn := SendParts(fixed, extra, recursing, needPriv);
      status := if ok then Ok else Unavailable;
    }

    method SendParts(fixed: seq<byte>, extra: seq<byte>, recursing: bool, needPriv: bool)
      returns (ok: bool, ghost conn: nat)
      requires Valid()
      modifies this
      ensures Valid() && Kept()
      ensures needPriv ==> NoLeak()
      ensures Got(fixed + extra)
      ensures ok ==> DeliveredNow(conn, fixed, extra, needPriv)
      ensures !ok ==> setbacks > old(setbacks) || (recursing && old(!Usable(needPriv)))
      ensures recursing ==> SetupKept(!ok)
      ensures old(Usable(needPriv)) && Takes(old(script), fixed) && extra == [] ==> ok && script == old(script)[2..]
      ensures old(Usable(needPriv)) && Takes(old(script), fixed) && !recursing && !envSet
              && Interrupts(old(script)[2..], extra) ==>
                ok && Some(conn) == old(fd) != fd && isPrivileged
      ensures old(fd).None? && !recursing && !envSet && Connects(old(script), fixed) && extra == [] ==>
                ok && script == old(script)[11..]
      decreases if recursing then 0 else 1, |script|, 3
    {
      conn := 0;
      ghost var f, before := fd, conns;
      ok := WriteSock(fixed, recursing, needPriv);
      if ok {
        conn := fd.value;
        if extra != [] {
          ok := WriteSock(extra, recursing, needPriv);
        }
      }
      if f.Some? {
        ExtendsBoth(before[f.value].sent, conns[f.value].sent, fixed, extra);
      }
    }

    /** Nothing happened. */
    twostate predicate Idle()
      reads this
    {
      fd == old(fd) && conns == old(conns) && script == old(script)
    }

    /** The next answers let `buffer` out at once and bring a good reply. */
    ghost static predicate Answers(script: seq<nat>, buffer: seq<byte>) {
      Takes(script, buffer) && Smooth(script, 3)
    }

    /** How many answers a round uses up when the request goes out at once, with the reply; 0 when it does not. */
    ghost static function RoundLength(script: seq<nat>, connected: bool, fixed: seq<byte>): (n: nat)
      ensures n <= |script|
    {
      if connected && Takes(script, fixed) && |script| >= 3 then 3
      else if !connected && Connects(script, fixed) && |script| >= 12 then 12
      else 0
    }

    /**
     * What becomes of a request when only replies get lost: it is repeated until a reply comes, at most
     * `rounds` times. None when something else goes wrong, too.
     */
    ghost static function Repeated(script: seq<nat>, connected: bool, fixed: seq<byte>, rounds: nat): Option<Status>
      decreases rounds
    {
      if rounds == 0 then Some(Unavailable)
      else
        var n := RoundLength(script, connected, fixed);
        if n == 0 then None
        else if script[n - 1] == 0 then Repeated(script[n..], false, fixed, rounds - 1)
        else if script[n - 1] == 1 then Some(NotFound)
        else Some(Ok)
    }

    /** One pass of the request loops. */
    method SendAndReceive(fixed: seq<byte>, extra: seq<byte>, recursing: bool, needPriv: bool)
      returns (ok: bool, status: Status, ghost conn: nat)
      requires Valid()
      modifies this
      ensures Valid() && Kept()
      ensures needPriv ==> NoLeak()
      ensures Got(fixed + extra)
      ensures envSet ==> !ok && status == NotFound && Idle()
      ensures !ok ==> status != Ok && (setbacks > old(setbacks) || (recursing && old(!Usable(needPriv))))
      ensures ok && status == Unavailable ==> fd == None
      ensures ok && status != Ok ==> setbacks > old(setbacks)
      ensures status != Unavailable && !envSet ==> ok && DeliveredNow(conn, fixed, extra, needPriv)
      ensures recursing ==> SetupKept(status == Unavailable)
      ensures old(Usable(needPriv)) && Answers(old(script), fixed) && extra == [] && !envSet ==>
                ok && status == Ok && script == old(script)[3..]
      ensures (old(Usable(needPriv)) || (old(fd).None? && !recursing)) && extra == [] && !envSet ==>
                var n := RoundLength(old(script), old(fd).Some?, fixed);
                n > 0 ==> ok && script == old(script)[n..] && status == Reply(old(script)[n - 1])
      decreases if recursing then 0 else 1, |script|, 5
    {
      status, conn := SendRequest(fixed, extra, recursing, needPriv);
      ok := status == Ok;
      if ok {
        status := GetResponse();
      }
    }

    /**
     * winbindd_request_response and winbindd_priv_request_response: another round only after a lost
     * connection. Whatever comes of a privileged request, none of it goes to the public directory.
     */
    method RequestResponse(fixed: seq<byte>, extra: seq<byte>, recursing: bool, needPriv: bool)
      returns (status: Status, ghost conn: nat)
      requires Valid()
      modifies this
      ensures Valid() && Kept()
      ensures needPriv ==> NoLeak()
      ensures Got(fixed + extra)
      ensures envSet ==> status == NotFound && Idle()
      ensures status != Unavailable && !envSet ==> DeliveredNow(conn, fixed, extra, needPriv)
      ensures status != Ok ==> setbacks > old(setbacks) || (recursing && old(!Usable(needPriv)))
      ensures recursing ==> SetupKept(status == Unavailable)
      ensures old(Usable(needPriv)) && Answers(old(script), fixed) && extra == [] && !envSet ==>
                status == Ok && script == old(script)[3..]
      ensures old(Usable(needPriv)) && extra == [] && !recursing && !envSet
              && Repeated(old(script), true, fixed, 10).Some? ==>
                status == Repeated(old(script), true, fixed, 10).value
      ensures old(Usable(needPriv)) && extra == [] && !envSet && RoundLength(old(script), true, fixed) == 3
              && old(script)[2] != 0 ==>
                status == Reply(old(script)[2]) && script == old(script)[3..]
      decreases if recursing then 0 else 1, |script|, 6
    {
      hide Delivered, Takes, Extends;
      var count := 0;
      status, conn := Unavailable, 0;
      while status == Unavailable && count < 10
        invariant Valid() && Kept() && (needPriv ==> NoLeak())
        invariant count > 0 ==> Got(fixed + extra)
        invariant count == 0 ==> unchanged(this) && status == Unavailable
        invariant count > 0 ==> !envSet
        invariant count > 0 && status != Ok ==> setbacks > old(setbacks)
        invariant count > 0 && status == Unavailable ==> fd == None
        invariant status != Unavailable ==> DeliveredNow(conn, fixed, extra, needPriv)
        invariant recursing && count > 0 ==> SetupKept(status == Unavailable)
        invariant count > 0 && old(Usable(needPriv)) && Answers(old(script), fixed) && extra == [] ==>
                    status == Ok && script == old(script)[3..]
        invariant count <= 10
        invariant count > 0 && old(Usable(needPriv)) && extra == [] && RoundLength(old(script), true, fixed) == 3
                  && old(script)[2] != 0 ==>
                    status == Reply(old(script)[2]) && script == old(script)[3..]
        invariant old(Usable(needPriv)) && extra == [] && !recursing && !envSet
                  && Repeated(old(script), true, fixed, 10).Some? ==>
                    Repeated(old(script), true, fixed, 10) ==
                    if status == Unavailable then Repeated(script, count == 0, fixed, 10 - count) else Some(status)
      {
        var ok;
        ok, status, conn := SendAndReceive(fixed, extra, recursing, needPriv);
        if !ok {
          return;
        }
        count := count + 1;
      }
    }

    /**
     * Any sequence of requests, forks, closes and changes of the environment: in each call no process
     * writes on a connection it inherited, and a privileged request puts nothing but the set-up
     * requests on a connection in the public directory.
     */
    method Session(calls: seq<Call>) returns (ghost history: seq<seq<Conn>>)
      requires Valid()
      modifies this
      ensures Valid()
      ensures |history| == |calls| + 1 && history[0] == old(conns) && history[|calls|] == conns
      ensures forall i :: 0 <= i < |calls| ==>
                CallKept(history[i], history[i + 1], calls[i], Caller(calls, i, old(pid)))
    {
      history := [conns];
      for i := 0 to |calls|
        invariant Valid() && pid == Caller(calls, i, old(pid))
        invariant |history| == i + 1 && history[0] == old(conns) && history[i] == conns
        invariant forall j :: 0 <= j < i ==>
                    CallKept(history[j], history[j + 1], calls[j], Caller(calls, j, old(pid)))
      {
        MakeCall(calls[i]);
        history := history + [conns];
      }
    }

    method MakeCall(call: Call)
      requires Valid()
      modifies this
      ensures Valid() && CallKept(old(conns), conns, call, old(pid))
      ensures pid == if call.ForkTo? then call.child else old(pid)
    {
      match call
      case Request(fixed, extra, needPriv) =>
        var status, _ := RequestResponse(fixed, extra, false, needPriv);
      case ForkTo(child) => Fork(child);
      case Close => CloseSock();
      case SwitchOff(off) => envSet := off;
    }
  }

  /** The answers of a daemon that works, is found to have closed the connection, and works again. */
  method Restart() returns (script: seq<nat>)
    ensures Smooth(script, 9)
    ensures forall b: byte :: Client.Takes(script[9..], [b])
    ensures forall b: byte :: Client.Interrupts(script[9..][2..], [b])
  {
    var connect, write := seq(9, _ => 2), [2, 2];
    script := connect + write + [1] + connect + write;
    assert script[9..] == write + [1] + connect + write;
    assert script[9..][2..] == [1] + connect + write;
    assert script[9..][2..][1..] == connect + write;
    assert script[9..][2..][10..] == write;
  }

  /** A run in which the extra data arrives alone: the daemon is restarted between the two writes. */
  method ExtraAlone(fixed: byte, extra: byte) returns (client: Client, status: Status, ghost conn: nat)
    ensures fresh(client) && client.Valid() && status == Ok && client.fd.Some? && conn < |client.conns|
    ensures client.fd.value != conn && client.conns[conn].hungUp
    ensures [fixed] <= client.conns[conn].sent && client.conns[client.fd.value].sent == [extra]
  {
    hide Smooth, Client.Takes, Client.Interrupts;
    var script := Restart();
    client := new Client(script, 1);
    var r := client.OpenPipeSock(false, false);
    assert [] + [fixed] == [fixed];
    status, conn := client.SendRequest([fixed], [extra], false, false);
  }
}
