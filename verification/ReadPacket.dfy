/** `read_packet_send`, `read_packet_handler` and `read_packet_recv` of lib/async_req/async_sock.c. */
module ReadPacket {
  import opened Common

  /** The callback: how many bytes are missing, 0 when the packet is complete, -1 when it is invalid. */
  type More = f: seq<byte> -> int | forall s :: f(s) >= -1 witness s => 0

  const EPIPE := 32
  const EIO := 5

  datatype Status = Pending | Finished | Broken(errno: int)

  /** How recv(2) answers. */
  datatype Kernel = Got(n: nat) | Interrupted | Errno(e: int)

  /** A request as positions in the incoming stream: bytes asked for so far, and bytes received. */
  datatype Request = Request(total: nat, nread: nat, status: Status)

  function Start(initial: nat): Request {
    Request(initial, 0, Pending)
  }

  /** One readable event when `stream` is everything that will ever arrive. */
  function Handle(r: Request, stream: seq<byte>, more: Option<More>, k: Kernel): Request
    requires r.status == Pending && Possible(r, stream, k)
  {
    match k
    case Interrupted => r
    case Errno(e) => r.(status := Broken(e))
    case Got(n) =>
      if n == 0 then r.(status := Broken(EPIPE))
      else
        var nread := r.nread + n;
        if nread < r.total then r.(nread := nread)
        else if more.None? then Request(r.total, nread, Finished)
        else
          var m := more.value(stream[..r.total]);
          if m == -1 then Request(r.total, nread, Broken(EIO))
          else if m == 0 then Request(r.total, nread, Finished)
          else Request(r.total + m, nread, Pending)
  }

  /** recv never gives more than was asked for, nor more than there is. */
  predicate Possible(r: Request, stream: seq<byte>, k: Kernel) {
    && r.nread <= r.total
    && (k.Got? ==> r.nread + k.n <= r.total && r.nread + k.n <= |stream|)
  }

  class ReadPacketState {
    var buf: array<byte>
    var nread: nat
    var status: Status
    const more: Option<More>

    ghost predicate Valid(stream: seq<byte>)
      reads this, buf
    {
      nread <= buf.Length && nread <= |stream| && buf[..nread] == stream[..nread]
    }

    ghost function View(): Request
      reads this
    {
      Request(buf.Length, nread, status)
    }

    constructor Send(initial: nat, more: Option<More>)
      ensures View() == Start(initial) && this.more == more && fresh(buf)
      ensures forall stream :: Valid(stream)
    {
      buf := new byte[initial];
      nread := 0;
      status := Pending;
      this.more := more;
    }

    method Handler(ghost stream: seq<byte>, k: Kernel, data: seq<byte>)
      requires status == Pending && Valid(stream) && Possible(View(), stream, k)
      requires k.Got? ==> data == stream[nread..nread + k.n]
      modifies this, buf
      ensures Valid(stream)
      ensures View() == Handle(old(View()), stream, more, k)
      ensures buf == old(buf) || fresh(buf)
    {
      if k.Interrupted? {
        return;
      }
      if k.Errno? {
        status := Broken(k.e);
        return;
      }
      if k.n == 0 {
        status := Broken(EPIPE);
        return;
      }
      forall i | 0 <= i < k.n {
        buf[nread + i] := data[i];
      }
      nread := nread + k.n;
      if nread < buf.Length {
        return;
      }
      if more.None? {
        status := Finished;
        return;
      }
      assert buf[..] == buf[..nread] == stream[..nread];
      var m := more.value(buf[..]);
      if m == -1 {
        status := Broken(EIO);
        return;
      }
      if m == 0 {
        status := Finished;
        return;
      }
      var total := buf.Length;
      var tmp := new byte[total + m];
      forall i | 0 <= i < total {
        tmp[i] := buf[i];
      }
      assert tmp[..nread] == buf[..nread];
      buf := tmp;
    }

    /** After a run that finished, the frame at the head of the stream. */
    method Recv(ghost stream: seq<byte>, ghost initial: nat) returns (packet: Option<seq<byte>>)
      requires Valid(stream) && status != Pending
      requires more.Some? && OnTrack(View(), stream, initial, more.value)
      ensures packet.None? <==> status.Broken?
      ensures packet.Some? ==>
                |packet.value| <= |stream| && packet.value == stream[..|packet.value|]
                && FrameEnd(stream, initial, more.value) == Complete(|packet.value|)
    {
      packet := if status.Broken? then None else Some(buf[..]);
      assert status == Finished ==> buf[..] == buf[..nread];
    }
  }

  // ----- whole runs

  datatype Frame = Complete(length: nat) | Invalid(length: nat) | Incomplete

  /** The fixpoint of n := n + more(first n bytes) along the stream. */
  function FrameEnd(stream: seq<byte>, n: nat, more: More): Frame
    decreases |stream| - n
  {
    if n > |stream| then Incomplete
    else
      var m := more(stream[..n]);
      if m == 0 then Complete(n) else if m == -1 then Invalid(n) else FrameEnd(stream, n + m, more)
  }

  function Run(r: Request, stream: seq<byte>, more: Option<More>, ks: seq<Kernel>): Request
    decreases |ks|
  {
    if ks == [] then r
    else
      Run(if r.status == Pending && Possible(r, stream, ks[0]) then Handle(r, stream, more, ks[0]) else r,
          stream, more, ks[1..])
  }

  ghost predicate OnTrack(r: Request, stream: seq<byte>, initial: nat, more: More) {
    && r.nread <= r.total && r.nread <= |stream|
    && (r.status == Pending ==> r.nread < r.total && FrameEnd(stream, r.total, more) == FrameEnd(stream, initial, more))
    && (r.status == Finished ==> r.nread == r.total && FrameEnd(stream, initial, more) == Complete(r.total))
    && (r.status.Broken? && FrameEnd(stream, initial, more).Complete? ==>
          r.nread < FrameEnd(stream, initial, more).length)
  }

  /** However the kernel splits the data, a finished request took exactly the frame. */
  lemma {:induction false} RunIsChunkIndependent(
    r: Request, stream: seq<byte>, initial: nat, more: More, ks: seq<Kernel>)
    requires OnTrack(r, stream, initial, more)
    ensures OnTrack(Run(r, stream, Some(more), ks), stream, initial, more)
    decreases |ks|
  {
    if ks != [] {
      var r' := if r.status == Pending && Possible(r, stream, ks[0]) then Handle(r, stream, Some(more), ks[0]) else r;
      FrameEndAtLeast(stream, r.total, more);
      assert OnTrack(r', stream, initial, more);
      RunIsChunkIndependent(r', stream, initial, more, ks[1..]);
    }
  }

  lemma {:induction false} FrameEndAtLeast(stream: seq<byte>, n: nat, more: More)
    ensures var f := FrameEnd(stream, n, more); !f.Incomplete? ==> n <= f.length <= |stream|
    decreases |stream| - n
  {
    if n <= |stream| && more(stream[..n]) > 0 {
      FrameEndAtLeast(stream, n + more(stream[..n]), more);
    }
  }

  /** A request takes exactly the frame at the head of the stream when it finishes, and less in every other case. */
  lemma NeverPastTheFrame(stream: seq<byte>, initial: nat, more: More, ks: seq<Kernel>)
    requires initial >= 1
    ensures var r := Run(Start(initial), stream, Some(more), ks);
            && (r.status == Finished ==> FrameEnd(stream, initial, more) == Complete(r.nread))
            && (FrameEnd(stream, initial, more).Complete? && r.status != Finished ==>
                  r.nread < FrameEnd(stream, initial, more).length)
  {
    RunIsChunkIndependent(Start(initial), stream, initial, more, ks);
    var r := Run(Start(initial), stream, Some(more), ks);
    FrameEndAtLeast(stream, r.total, more);
  }

  /** Answers that bring data or are interruptions, each of them possible when it is given. */
  predicate Delivers(r: Request, stream: seq<byte>, more: More, ks: seq<Kernel>)
    decreases |ks|
  {
    ks != [] ==>
      && r.status == Pending && Possible(r, stream, ks[0])
      && (ks[0].Interrupted? || (ks[0].Got? && ks[0].n > 0))
      && Delivers(Handle(r, stream, Some(more), ks[0]), stream, more, ks[1..])
  }

  function Received(ks: seq<Kernel>): nat {
    if ks == [] then 0 else (if ks[0].Got? then ks[0].n else 0) + Received(ks[1..])
  }

  /** What a request that has taken `nread` bytes of a frame has come to. */
  function Progress(f: Frame, nread: nat): Status {
    match f
    case Complete(length) => if nread == length then Finished else Pending
    case Invalid(length) => if nread == length then Broken(EIO) else Pending
    case Incomplete => Pending
  }

  /**
   * A frame is read however it arrives: the request finishes exactly when the answers have brought all
   * of it, is refused exactly when they have brought what the callback calls invalid, and until then
   * there is something left to ask for.
   */
  lemma {:induction false} FrameIsRead(r: Request, stream: seq<byte>, initial: nat, more: More, ks: seq<Kernel>)
    requires OnTrack(r, stream, initial, more) && r.status == Progress(FrameEnd(stream, initial, more), r.nread)
    requires Delivers(r, stream, more, ks)
    ensures var q, f := Run(r, stream, Some(more), ks), FrameEnd(stream, initial, more);
            && q.nread == r.nread + Received(ks) && q.status == Progress(f, q.nread)
            && (!f.Incomplete? ==> q.nread <= f.length && (q.status == Pending ==> Possible(q, stream, Got(1))))
    decreases |ks|
  {
    FrameEndAtLeast(stream, r.total, more);
    if ks != [] {
      var q := Handle(r, stream, Some(more), ks[0]);
      RunIsChunkIndependent(r, stream, initial, more, [ks[0]]);
      assert [ks[0]][1..] == [];
      assert OnTrack(q, stream, initial, more);
      FrameEndAtLeast(stream, q.total, more);
      FrameIsRead(q, stream, initial, more, ks[1..]);
    }
  }

  lemma {:induction false} RunsAdd(r: Request, stream: seq<byte>, more: Option<More>, a: seq<Kernel>, b: seq<Kernel>)
    ensures Run(r, stream, more, a + b) == Run(Run(r, stream, more, a), stream, more, b)
    decreases |a|
  {
    if a == [] {
      assert a + b == b;
    } else {
      assert (a + b)[1..] == a[1..] + b;
      RunsAdd(if r.status == Pending && Possible(r, stream, a[0]) then Handle(r, stream, more, a[0]) else r,
              stream, more, a[1..], b);
    }
  }

  lemma {:induction false} RunAfterEnd(r: Request, stream: seq<byte>, more: Option<More>, ks: seq<Kernel>)
    requires r.status != Pending
    ensures Run(r, stream, more, ks) == r
    decreases |ks|
  {
    if ks != [] {
      RunAfterEnd(r, stream, more, ks[1..]);
    }
  }

  /** The end of the stream and an error end a pending request, whatever comes after; nothing is taken. */
  lemma FailureEnds(stream: seq<byte>, initial: nat, more: Option<More>, ks: seq<Kernel>, k: Kernel, rest: seq<Kernel>)
    requires var q := Run(Start(initial), stream, more, ks); q.status == Pending && Possible(q, stream, k)
    requires k == Got(0) || k.Errno?
    ensures Run(Start(initial), stream, more, ks + [k] + rest) ==
            Run(Start(initial), stream, more, ks).(status := Broken(if k.Errno? then k.e else EPIPE))
  {
    var q := Run(Start(initial), stream, more, ks);
    assert ks + [k] + rest == ks + ([k] + rest);
    RunsAdd(Start(initial), stream, more, ks, [k] + rest);
    assert ([k] + rest)[1..] == rest;
    RunAfterEnd(q.(status := Broken(if k.Errno? then k.e else EPIPE)), stream, more, rest);
  }

  /** Without a callback a request is for `initial` bytes, as if the callback had nothing to add. */
  lemma {:induction false} NoCallback(r: Request, stream: seq<byte>, ks: seq<Kernel>)
    ensures Run(r, stream, None, ks) == Run(r, stream, Some(Nothing), ks)
    decreases |ks|
  {
    if ks != [] {
      NoCallback(if r.status == Pending && Possible(r, stream, ks[0]) then Handle(r, stream, None, ks[0]) else r,
                 stream, ks[1..]);
    }
  }

  function Nothing(buf: seq<byte>): int {
    0
  }

  // ----- successive requests

  ghost predicate IsFrame(f: seq<byte>, initial: nat, more: More) {
    FrameEnd(f, initial, more) == Complete(|f|)
  }

  lemma {:induction false} FrameStable(f: seq<byte>, rest: seq<byte>, n: nat, more: More)
    requires FrameEnd(f, n, more).Complete?
    ensures FrameEnd(f + rest, n, more) == FrameEnd(f, n, more)
    decreases |f| - n
  {
    assert (f + rest)[..n] == f[..n];
    if more(f[..n]) > 0 {
      FrameStable(f, rest, n + more(f[..n]), more);
    }
  }

  function Concat(frames: seq<seq<byte>>): seq<byte> {
    if frames == [] then [] else frames[0] + Concat(frames[1..])
  }

  /** One request after another on the same stream, until one does not finish. */
  function Session(stream: seq<byte>, initial: nat, more: More, runs: seq<seq<Kernel>>): seq<seq<byte>>
    decreases |runs|
  {
    if runs == [] then []
    else
      var r := Run(Start(initial), stream, Some(more), runs[0]);
      if r.status == Finished && r.nread <= |stream| then
        [stream[..r.nread]] + Session(stream[r.nread..], initial, more, runs[1..])
      else []
  }

  /** Each run brings the whole of its frame, in whatever pieces. */
  predicate Arrive(frames: seq<seq<byte>>, rest: seq<byte>, initial: nat, more: More, runs: seq<seq<Kernel>>)
    requires |runs| <= |frames|
    decreases |runs|
  {
    runs != [] ==>
      && Delivers(Start(initial), Concat(frames) + rest, more, runs[0]) && Received(runs[0]) == |frames[0]|
      && Arrive(frames[1..], rest, initial, more, runs[1..])
  }

  /**
   * The packets delivered are the frames that were sent, in order, whatever the split and whatever
   * follows; and they are all delivered when all of them arrives.
   */
  lemma {:induction false} SessionDeliversFrames(
    frames: seq<seq<byte>>, rest: seq<byte>, initial: nat, more: More, runs: seq<seq<Kernel>>)
    requires initial >= 1 && |runs| <= |frames|
    requires forall f :: f in frames ==> IsFrame(f, initial, more)
    ensures Session(Concat(frames) + rest, initial, more, runs) <= frames
    ensures Arrive(frames, rest, initial, more, runs) ==>
              Session(Concat(frames) + rest, initial, more, runs) == frames[..|runs|]
    decreases |runs|
  {
    if runs != [] {
      var f, tail := frames[0], Concat(frames[1..]) + rest;
      var stream := Concat(frames) + rest;
      assert stream == f + tail;
      assert IsFrame(f, initial, more);
      FrameStable(f, tail, initial, more);
      NeverPastTheFrame(stream, initial, more, runs[0]);
      if Delivers(Start(initial), stream, more, runs[0]) {
        FrameIsRead(Start(initial), stream, initial, more, runs[0]);
      }
      assert (f + tail)[..|f|] == f && (f + tail)[|f|..] == tail;
      SessionDeliversFrames(frames[1..], rest, initial, more, runs[1..]);
    }
  }

  // ----- the SMB client

  const SMB_HEADER := 4

  /** The 24-bit length in an SMB header. */
  function SmbLength(header: seq<byte>): nat
    requires |header| >= SMB_HEADER
  {
    header[3] as int + 0x100 * (header[2] as int) + 0x1_0000 * (header[1] as int)
  }

  /** `read_smb_more` of source3/libsmb/async_smb.c, which is never asked before the header is there. */
  function ReadSmbMore(buf: seq<byte>): int {
    if |buf| != SMB_HEADER then 0 else SmbLength(buf)
  }

  function SmbPacket(kind: byte, payload: seq<byte>): seq<byte>
    requires |payload| < 0x100_0000
  {
    [kind, |payload| / 0x1_0000, |payload| / 0x100 % 0x100, |payload| % 0x100] + payload
  }

  lemma SmbPacketIsFrame(kind: byte, payload: seq<byte>)
    requires |payload| < 0x100_0000
    ensures IsFrame(SmbPacket(kind, payload), SMB_HEADER, ReadSmbMore)
  {
    var f, n := SmbPacket(kind, payload), |payload|;
    assert f[..SMB_HEADER] == [kind, n / 0x1_0000, n / 0x100 % 0x100, n % 0x100];
    assert SmbLength(f[..SMB_HEADER]) == n;
    if n > 0 {
      assert FrameEnd(f, SMB_HEADER, ReadSmbMore) == FrameEnd(f, SMB_HEADER + n, ReadSmbMore);
    }
  }

  datatype Smb = Smb(kind: byte, payload: seq<byte>)

  function SmbPackets(smbs: seq<Smb>): (frames: seq<seq<byte>>)
    requires forall smb :: smb in smbs ==> |smb.payload| < 0x100_0000
    ensures |frames| == |smbs|
    ensures forall i :: 0 <= i < |smbs| ==> frames[i] == SmbPacket(smbs[i].kind, smbs[i].payload)
  {
    seq(|smbs|, i requires 0 <= i < |smbs| => SmbPacket(smbs[i].kind, smbs[i].payload))
  }

  /** The SMB client gets the packets of its server one by one, keepalives without a payload included. */
  lemma SmbSession(smbs: seq<Smb>, rest: seq<byte>, runs: seq<seq<Kernel>>)
    requires forall smb :: smb in smbs ==> |smb.payload| < 0x100_0000
    requires |runs| <= |smbs|
    ensures Session(Concat(SmbPackets(smbs)) + rest, SMB_HEADER, ReadSmbMore, runs) <= SmbPackets(smbs)
    ensures Arrive(SmbPackets(smbs), rest, SMB_HEADER, ReadSmbMore, runs) ==>
              Session(Concat(SmbPackets(smbs)) + rest, SMB_HEADER, ReadSmbMore, runs) == SmbPackets(smbs)[..|runs|]
  {
    var frames := SmbPackets(smbs);
    forall f | f in frames
      ensures IsFrame(f, SMB_HEADER, ReadSmbMore)
    {
      var i :| 0 <= i < |frames| && f == frames[i];
      SmbPacketIsFrame(smbs[i].kind, smbs[i].payload);
    }
    SessionDeliversFrames(frames, rest, SMB_HEADER, ReadSmbMore, runs);
  }
}
