/** `writev_send`, `writev_handler` and `writev_recv` of lib/async_req/async_sock.c. */
module Writev {
  import opened Common

  type Iovec = seq<byte>

  function Flatten(iov: seq<Iovec>): seq<byte> {
    if iov == [] then [] else iov[0] + Flatten(iov[1..])
  }

  const EPIPE := 32

  datatype Status = Pending | Finished | Broken(errno: int)

  /** How writev(2) answers: it takes a prefix, possibly empty, or fails. */
  datatype Kernel = Wrote(n: nat) | Interrupted | Errno(e: int)

  /** A request seen from outside: the bytes on the wire, the bytes still to go, and the reported size. */
  datatype Request = Request(sent: seq<byte>, left: seq<byte>, total: nat, status: Status)

  /** What one readiness event does; `hangup` when the descriptor became readable and that is an error. */
  function Handle(r: Request, hangup: bool, k: Kernel): Request
    requires r.status == Pending
    requires !hangup && k.Wrote? ==> k.n <= |r.left|
  {
    if hangup then r.(status := Broken(EPIPE))
    else
      match k
      case Interrupted => r
      case Errno(e) => r.(status := Broken(e))
      case Wrote(n) =>
        if n == 0 then r.(status := Broken(EPIPE))
        else
          Request(r.sent + r.left[..n], r.left[n..], r.total + n, if n == |r.left| then Finished else Pending)
  }

  /**
   * What is on the wire followed by what is left is the original data, the size counts the bytes on
   * the wire, and the request has finished exactly when all of a non-empty request is out.
   */
  ghost predicate Conserved(r: Request, data: seq<byte>) {
    && r.sent + r.left == data && r.total == |r.sent|
    && (r.status == Finished <==> r.left == [] && r.sent != [])
  }

  lemma HandleConserves(r: Request, data: seq<byte>, hangup: bool, k: Kernel)
    requires r.status == Pending && Conserved(r, data)
    requires !hangup && k.Wrote? ==> k.n <= |r.left|
    ensures Conserved(Handle(r, hangup, k), data)
  {
    if !hangup && k.Wrote? {
      assert r.left == r.left[..k.n] + r.left[k.n..];
      assert r.sent + (r.left[..k.n] + r.left[k.n..]) == (r.sent + r.left[..k.n]) + r.left[k.n..];
    }
  }

  class WritevState {
    var iov: seq<Iovec>
    var totalSize: nat
    var status: Status
    const errOnReadability: bool
    /** Everything that was asked for, and everything the kernel has taken. */
    ghost const data: seq<byte>
    ghost var wire: seq<byte>

    /** The vector is not touched any more once everything went out. */
    ghost function View(): Request
      reads this
    {
      Request(wire, if status.Finished? then [] else Flatten(iov), totalSize, status)
    }

    ghost predicate Valid()
      reads this
    {
      Conserved(View(), data)
    }

    constructor Send(iov: seq<Iovec>, errOnReadability: bool)
      ensures Valid() && data == Flatten(iov)
      ensures View() == Request([], Flatten(iov), 0, Pending)
      ensures this.errOnReadability == errOnReadability
    {
      data := Flatten(iov);
      this.iov := iov;
      this.errOnReadability := errOnReadability;
      totalSize := 0;
      status := Pending;
      wire := [];
    }

    method ToWrite() returns (n: nat)
      ensures n == |Flatten(iov)|
    {
      n := 0;
      var i := 0;
      assert iov[0..] == iov;
      while i < |iov|
        invariant i <= |iov|
        invariant n + |Flatten(iov[i..])| == |Flatten(iov)|
      {
        assert iov[i..][1..] == iov[i + 1..];
        n := n + |iov[i]|;
        i := i + 1;
      }
    }

    method Handler(readable: bool, k: Kernel)
      requires Valid() && status == Pending
      requires !(errOnReadability && readable) && k.Wrote? ==> k.n <= |Flatten(iov)|
      modifies this
      ensures Valid()
      ensures View() == Handle(old(View()), errOnReadability && readable, k)
    {
      HandleConserves(View(), data, errOnReadability && readable, k);
      if errOnReadability && readable {
        status := Broken(EPIPE);
        return;
      }
      var toWrite := ToWrite();
      if k.Interrupted? {
        return;
      }
      if k.Errno? {
        status := Broken(k.e);
        return;
      }
      if k.n == 0 {
        status := Broken(EPIPE);
        return;
      }
      var written := k.n;
      wire := wire + Flatten(iov)[..written];
      totalSize := totalSize + written;
      if written == toWrite {
        status := Finished;
        return;
      }
      DropSent(written);
    }

    /** The drop loop: there is always a vector left to look at, empty ones included. */
    method DropSent(count: nat)
      requires count < |Flatten(iov)|
      modifies this`iov
      ensures Flatten(iov) == old(Flatten(iov))[count..]
    {
      var written: nat := count;
      ghost var goal := Flatten(iov)[count..];
      while written > 0
        invariant written < |Flatten(iov)|
        invariant Flatten(iov)[written..] == goal
        decreases |iov|
      {
        if written < |iov[0]| {
          assert Flatten(iov)[written..] == iov[0][written..] + Flatten(iov[1..]);
          iov := iov[0 := iov[0][written..]];
          return;
        }
        assert Flatten(iov)[written..] == Flatten(iov[1..])[written - |iov[0]|..];
        written := written - |iov[0]|;
        iov := iov[1..];
      }
      assert Flatten(iov)[0..] == Flatten(iov);
    }

    /**
     * A size means that this many bytes of the data are on the wire, and all of it once the request
     * has finished; -1 means an error, after which an unknown part of the data may be.
     */
    method Recv() returns (size: int)
      requires Valid()
      ensures size == -1 <==> status.Broken?
      ensures size >= 0 ==> size <= |data| && wire == data[..size]
      ensures status.Finished? ==> size == |data| && wire == data
    {
      size := if status.Broken? then -1 else totalSize;
      assert data[..|wire|] == wire;
    }
  }

  /** One event of a whole run: whether the descriptor hung up, and what writev answered. */
  type Event = (bool, Kernel)

  predicate Possible(r: Request, e: Event) {
    !e.0 && e.1.Wrote? ==> e.1.n <= |r.left|
  }

  /** A run under any kernel; events after the end change nothing, impossible answers do not happen. */
  function Run(r: Request, es: seq<Event>): Request
    decreases |es|
  {
    if es == [] then r
    else Run(if r.status == Pending && Possible(r, es[0]) then Handle(r, es[0].0, es[0].1) else r, es[1..])
  }

  /** Over a whole run, however the transfers split, nothing is lost, repeated or miscounted. */
  lemma {:induction false} RunConserves(data: seq<byte>, r: Request, es: seq<Event>)
    requires Conserved(r, data)
    ensures Conserved(Run(r, es), data)
    decreases |es|
  {
    hide Conserved;
    if es != [] {
      var e := es[0];
      if r.status == Pending && Possible(r, e) {
        HandleConserves(r, data, e.0, e.1);
        RunConserves(data, Handle(r, e.0, e.1), es[1..]);
      } else {
        RunConserves(data, r, es[1..]);
      }
    }
  }

  lemma SendConserves(iov: seq<Iovec>, es: seq<Event>)
    ensures var q := Run(Request([], Flatten(iov), 0, Pending), es);
            && q.sent + q.left == Flatten(iov) && q.total == |q.sent|
            && (q.status == Finished ==> q.sent == Flatten(iov) && q.sent != [])
            && (Flatten(iov) == [] ==> q.status != Finished)
  {
    assert [] + Flatten(iov) == Flatten(iov);
    RunConserves(Flatten(iov), Request([], Flatten(iov), 0, Pending), es);
    var q := Run(Request([], Flatten(iov), 0, Pending), es);
    assert q.sent + [] == q.sent;
  }

  /** Interruptions and writes that take something, of `left` bytes in all, without a hangup. */
  predicate Steady(left: nat, es: seq<Event>)
    decreases |es|
  {
    es != [] ==>
      && left > 0 && !es[0].0
      && match es[0].1
         case Interrupted => Steady(left, es[1..])
         case Wrote(n) => 0 < n <= left && Steady(left - n, es[1..])
         case Errno(_) => false
  }

  function Taken(es: seq<Event>): nat {
    if es == [] then 0 else (if es[0].1.Wrote? then es[0].1.n else 0) + Taken(es[1..])
  }

  /**
   * As long as the kernel takes something, the data goes out in order, and the request stays pending
   * until the last byte is out.
   */
  lemma {:induction false} SteadyRunSends(data: seq<byte>, r: Request, es: seq<Event>)
    requires r.sent + r.left == data && r.total == |r.sent|
    requires r.status == (if r.left == [] then Finished else Pending) && Steady(|r.left|, es)
    ensures var q, n := Run(r, es), |r.sent| + Taken(es);
            && n <= |data| && q == Request(data[..n], data[n..], n, if n == |data| then Finished else Pending)
    decreases |es|
  {
    if es == [] {
      assert data[..|r.sent|] == r.sent && data[|r.sent|..] == r.left;
    } else {
      var q := Handle(r, false, es[0].1);
      if es[0].1.Wrote? {
        var k := es[0].1.n;
        assert r.left == r.left[..k] + r.left[k..];
        assert r.sent + (r.left[..k] + r.left[k..]) == (r.sent + r.left[..k]) + r.left[k..];
        if q.left == [] {
          assert Steady(0, es[1..]) && es[1..] == [];
        }
      }
      SteadyRunSends(data, q, es[1..]);
    }
  }

  /** How an event ends a request, if it does not take anything: a hangup and an empty write are EPIPE. */
  function EndOf(e: Event): Status {
    if e.0 then Broken(EPIPE)
    else
      match e.1
      case Interrupted => Pending
      case Errno(errno) => Broken(errno)
      case Wrote(_) => Broken(EPIPE)
  }

  /** The first event that is a hangup, an error or an empty write ends the request, whatever comes after it. */
  lemma FirstFailureEnds(data: seq<byte>, es: seq<Event>, e: Event, rest: seq<Event>)
    requires data != [] && Steady(|data|, es) && Taken(es) < |data|
    requires e.0 || e.1.Errno? || e.1 == Wrote(0)
    ensures var n := Taken(es);
            Run(Request([], data, 0, Pending), es + [e] + rest) == Request(data[..n], data[n..], n, EndOf(e))
  {
    var r, n := Request([], data, 0, Pending), Taken(es);
    assert [] + data == data;
    SteadyRunSends(data, r, es);
    var q := Run(r, es);
    RunsAdd(r, es, [e] + rest);
    assert es + [e] + rest == es + ([e] + rest);
    assert ([e] + rest)[1..] == rest;
    RunAfterEnd(q.(status := EndOf(e)), rest);
  }

  /** The first `k` events are interruptions. */
  ghost predicate Quiet(es: seq<Event>, k: nat)
    requires k <= |es|
  {
    forall i :: 0 <= i < k ==> EndOf(es[i]) == Pending
  }

  /**
   * An empty request ends with its first event that is not an interruption: in the kernel's own
   * error, or in EPIPE because nothing was written.
   */
  lemma {:induction false} EmptyRequestBreaks(es: seq<Event>)
    requires forall i :: 0 <= i < |es| ==> Possible(Request([], [], 0, Pending), es[i])
    ensures var q := Run(Request([], [], 0, Pending), es);
            && (q.status == Pending <==> Quiet(es, |es|))
            && forall k :: 0 <= k < |es| && Quiet(es, k) && EndOf(es[k]) != Pending ==>
                 q.status == EndOf(es[k])
    decreases |es|
  {
    var r := Request([], [], 0, Pending);
    if es != [] {
      if EndOf(es[0]) == Pending {
        assert Run(r, es) == Run(r, es[1..]);
        EmptyRequestBreaks(es[1..]);
      } else {
        RunAfterEnd(r.(status := EndOf(es[0])), es[1..]);
        assert Run(r, es) == r.(status := EndOf(es[0]));
      }
    }
  }

  lemma {:induction false} RunsAdd(r: Request, a: seq<Event>, b: seq<Event>)
    ensures Run(r, a + b) == Run(Run(r, a), b)
    decreases |a|
  {
    if a == [] {
      assert a + b == b;
    } else {
      assert (a + b)[1..] == a[1..] + b;
      RunsAdd(if r.status == Pending && Possible(r, a[0]) then Handle(r, a[0].0, a[0].1) else r, a[1..], b);
    }
  }

  lemma {:induction false} RunAfterEnd(r: Request, es: seq<Event>)
    requires r.status != Pending
    ensures Run(r, es) == r
    decreases |es|
  {
    if es != [] {
      RunAfterEnd(r, es[1..]);
    }
  }
}
