/**
 * The enumeration caches of nsswitch/winbind_nss_linux.c: `_nss_winbind_getpwent_r`,
 * `_nss_winbind_setpwent` and `_nss_winbind_endpwent`, and their group twins, which do the same
 * to another record type. The daemon hands out its entries in batches, none of them empty.
 */
module NssEnum {
  import opened Common

  datatype Result<E> = Success(entry: E) | TryAgain | NotFound | Unavail

  datatype Buffer = Buffer(address: nat, len: nat)

  /** The enumeration from outside: entries cached, batches the daemon still has, and `called_again`. */
  datatype State<E> = State(left: seq<E>, pending: seq<seq<E>>, calledAgain: bool)

  function Concat<E>(bs: seq<seq<E>>): seq<E> {
    if bs == [] then [] else bs[0] + Concat(bs[1..])
  }

  function Remaining<E>(s: State<E>): seq<E> {
    s.left + Concat(s.pending)
  }

  ghost predicate NonEmpty<E>(bs: seq<seq<E>>) {
    forall i :: 0 <= i < |bs| ==> bs[i] != []
  }

  /**
   * One call, `up` when the daemon answers. What an entry needs may depend on where the caller's
   * buffer is, because fill_grent aligns its pointer array.
   */
  function GetSpec<E>(s: State<E>, need: (E, nat) -> nat, buf: Buffer, up: bool): (Result<E>, State<E>)
  {
    if s.left == [] && s.calledAgain then (NotFound, s)
    else if s.left == [] && !up then (Unavail, s)
    else if s.left == [] && s.pending == [] then (NotFound, s)
    else
      var t := if s.left == [] then State(s.pending[0], s.pending[1..], false) else s;
      if t.left == [] then (NotFound, t)
      else if buf.len < need(t.left[0], buf.address) then (TryAgain, t.(calledAgain := true))
      else (Success(t.left[0]), State(t.left[1..], t.pending, false))
  }

  /**
   * setpwent or endpwent: the cache goes, the daemon starts over if the request reaches it, and
   * `called_again` stays.
   */
  function ResetSpec<E>(s: State<E>, all: seq<seq<E>>, up: bool): State<E> {
    State([], if up then all else s.pending, s.calledAgain)
  }

  class Enumeration<E> {
    var ndx: nat
    var num: nat
    var data: Option<seq<E>>
    var calledAgain: bool
    /** The daemon's side: every batch, and how many were handed out. */
    const batches: seq<seq<E>>
    var next: nat
    const need: (E, nat) -> nat

    ghost predicate Valid()
      reads this
    {
      && NonEmpty(batches) && next <= |batches|
      && (if data.Some? then ndx < num == |data.value| else ndx == num == 0)
    }

    ghost function View(): State<E>
      requires Valid()
      reads this
    {
      State(if data.Some? then data.value[ndx..] else [], batches[next..], calledAgain)
    }

    constructor (batches: seq<seq<E>>, need: (E, nat) -> nat)
      requires NonEmpty(batches)
      ensures Valid() && View() == State([], batches, false)
      ensures this.batches == batches && this.need == need
    {
      this.batches := batches;
      this.need := need;
      ndx, num, data, calledAgain, next := 0, 0, None, false, 0;
    }

    method Get(buf: Buffer, up: bool) returns (result: Result<E>)
      requires Valid()
      modifies this
      ensures Valid()
      ensures (result, View()) == GetSpec(old(View()), need, buf, up)
    {
      if !(ndx < num || calledAgain) {
        // the cache is empty here, so the code's extra free never happens
        assert num == 0;
        data := None;
        if !up {
          return Unavail;
        }
        if next == |batches| {
          return NotFound;
        }
        ndx := 0;
        data := Some(batches[next]);
        num := |batches[next]|;
        assert batches[next..][1..] == batches[next + 1..] && batches[next][0..] == batches[next];
        next := next + 1;
      }
      if data.None? {
        return NotFound;
      }
      var entry := data.value[ndx];
      if buf.len < need(entry, buf.address) {
        calledAgain := true;
        return TryAgain;
      }
      calledAgain := false;
      assert data.value[ndx..][1..] == data.value[ndx + 1..];
      assert ndx + 1 == num ==> data.value[ndx + 1..] == [];
      ndx := ndx + 1;
      if ndx == num {
        ndx, num := 0, 0;
        data := None;
      }
      return Success(entry);
    }

    method Reset(up: bool) returns (ok: bool)
      requires Valid()
      modifies this
      ensures Valid()
      ensures ok == up && View() == ResetSpec(old(View()), batches, up)
    {
      if num > 0 {
        ndx, num := 0, 0;
        data := None;
      }
      if up {
        next := 0;
      }
      ok := up;
    }
  }

  // ----- whole runs

  datatype Op = Get(buf: Buffer, up: bool) | Reset(up: bool)

  function StepState<E>(s: State<E>, all: seq<seq<E>>, need: (E, nat) -> nat, op: Op): State<E> {
    match op
    case Get(buf, up) => GetSpec(s, need, buf, up).1
    case Reset(up) => ResetSpec(s, all, up)
  }

  /** The entries delivered since the last reset that reached the daemon. */
  function StepDelivered<E>(s: State<E>, got: seq<E>, need: (E, nat) -> nat, op: Op): seq<E> {
    match op
    case Reset(up) => if up then [] else got
    case Get(buf, up) =>
      match GetSpec(s, need, buf, up).0
      case Success(e) => got + [e]
      case _ => got
  }

  function Run<E>(s: State<E>, got: seq<E>, all: seq<seq<E>>, need: (E, nat) -> nat, ops: seq<Op>): (State<E>, seq<E>)
    decreases |ops|
  {
    if ops == [] then (s, got)
    else
      Run(StepState(s, all, need, ops[0]), StepDelivered(s, got, need, ops[0]), all, need, ops[1..])
  }

  /** A reset comes while no retry is pending, and one that fails comes while the cache is empty. */
  predicate ResetSafe<E>(s: State<E>, up: bool) {
    !s.calledAgain && (up || s.left == [])
  }

  /** Every reset is a safe one. */
  predicate Careful<E>(s: State<E>, all: seq<seq<E>>, need: (E, nat) -> nat, ops: seq<Op>)
    decreases |ops|
  {
    ops == [] ||
    ((ops[0].Reset? ==> ResetSafe(s, ops[0].up)) && Careful(StepState(s, all, need, ops[0]), all, need, ops[1..]))
  }

  ghost predicate Alive<E>(s: State<E>) {
    NonEmpty(s.pending) && (s.calledAgain ==> s.left != [])
  }

  lemma GetKeepsOrder<E>(s: State<E>, got: seq<E>, need: (E, nat) -> nat, buf: Buffer, up: bool)
    requires Alive(s)
    ensures var (r, t) := GetSpec(s, need, buf, up);
            && Alive(t)
            && StepDelivered(s, got, need, Get(buf, up)) + Remaining(t) == got + Remaining(s)
            && (r == NotFound <==> Remaining(s) == [] && (s.calledAgain || up))
  {
    var (r, t) := GetSpec(s, need, buf, up);
    if s.left == [] && s.pending != [] {
      assert Concat(s.pending) == s.pending[0] + Concat(s.pending[1..]);
      assert Concat(s.pending)[0] == s.pending[0][0];
    }
    if r.Success? {
      assert Remaining(s) == [r.entry] + Remaining(t);
      assert got + ([r.entry] + Remaining(t)) == (got + [r.entry]) + Remaining(t);
    } else {
      assert Remaining(t) == Remaining(s);
    }
  }

  /**
   * Whatever the buffer sizes and the batch boundaries, what was delivered since the last successful
   * reset followed by what is still to come is the whole enumeration: nothing is skipped or repeated.
   */
  lemma {:induction false} EachEntryOnce<E>(
    s: State<E>, got: seq<E>, all: seq<seq<E>>, need: (E, nat) -> nat, ops: seq<Op>)
    requires NonEmpty(all) && Alive(s) && got + Remaining(s) == Concat(all)
    requires Careful(s, all, need, ops)
    ensures var (t, delivered) := Run(s, got, all, need, ops);
            Alive(t) && delivered + Remaining(t) == Concat(all)
    decreases |ops|
  {
    if ops != [] {
      var s', got' := StepState(s, all, need, ops[0]), StepDelivered(s, got, need, ops[0]);
      if ops[0].Get? {
        GetKeepsOrder(s, got, need, ops[0].buf, ops[0].up);
      } else {
        assert Remaining(s') == Concat(s'.pending) && [] + Concat(all) == Concat(all);
        assert s.left == [] ==> Remaining(s) == Concat(s.pending);
      }
      EachEntryOnce(s', got', all, need, ops[1..]);
    }
  }

  /** And no other reset keeps that: one that is not safe loses entries or stops the enumeration. */
  lemma ResetSafeIff<E>(s: State<E>, got: seq<E>, all: seq<seq<E>>, need: (E, nat) -> nat, up: bool)
    requires NonEmpty(all) && Alive(s) && got + Remaining(s) == Concat(all)
    ensures var t := ResetSpec(s, all, up);
            ResetSafe(s, up) <==>
              Alive(t) && StepDelivered(s, got, need, Reset(up)) + Remaining(t) == Concat(all)
  {
    var t := ResetSpec(s, all, up);
    assert Remaining(t) == Concat(t.pending) && [] + Concat(all) == Concat(all);
    if !up {
      assert |got + Remaining(t)| + |s.left| == |got + Remaining(s)|;
      assert s.left == [] ==> Remaining(t) == Remaining(s);
    }
  }

  /** What one call answers, and how it leaves the cache: nothing here depends on where the batches end. */
  lemma GetAnswers<E>(s: State<E>, need: (E, nat) -> nat, buf: Buffer, up: bool)
    requires Alive(s)
    ensures var (r, t) := GetSpec(s, need, buf, up);
            && (r == Unavail <==> s.left == [] && !up)
            && (r == NotFound <==> Remaining(s) == [] && up)
            && (r == TryAgain || r.Success? ==> Remaining(s) != [])
            && (r == TryAgain ==> buf.len < need(Remaining(s)[0], buf.address))
            && (r.Success? ==> buf.len >= need(Remaining(s)[0], buf.address) && r.entry == Remaining(s)[0])
            && (t.calledAgain <==> r == TryAgain)
            && t.pending == if s.left == [] && s.pending != [] && up then s.pending[1..] else s.pending
  {
    if s.left == [] && s.pending != [] {
      assert Remaining(s) == s.pending[0] + Concat(s.pending[1..]);
    }
    if s.left != [] {
      assert Remaining(s)[0] == s.left[0];
    }
  }

  /** A big enough buffer always makes progress: a retry after TryAgain delivers the very entry that did not fit. */
  lemma RetryDelivers<E>(s: State<E>, need: (E, nat) -> nat, small: Buffer, big: Buffer, up: bool)
    requires Alive(s)
    requires var (r, t) := GetSpec(s, need, small, true); r == TryAgain
    requires Remaining(s) != [] ==> need(Remaining(s)[0], big.address) <= big.len
    ensures Remaining(s) != []
    ensures var t := GetSpec(s, need, small, true).1; GetSpec(t, need, big, up).0 == Success(Remaining(s)[0])
  {
    GetKeepsOrder(s, [], need, small, true);
    var t := GetSpec(s, need, small, true).1;
    assert Remaining(t) == t.left + Concat(t.pending) && t.left != [];
    assert [] + Remaining(t) == Remaining(t) && [] + Remaining(s) == Remaining(s);
    assert Remaining(s)[0] == t.left[0];
  }

  /** After a reset there is something to read exactly when no retry was pending and the daemon has entries left. */
  lemma ResetUsable<E>(s: State<E>, all: seq<seq<E>>, need: (E, nat) -> nat, up: bool)
    requires NonEmpty(all) && Alive(s)
    ensures !s.calledAgain && (if up then all else s.pending) != [] <==>
            exists buf: Buffer :: GetSpec(ResetSpec(s, all, up), need, buf, true).0.Success?
  {
    var t := ResetSpec(s, all, up);
    if !s.calledAgain && t.pending != [] {
      assert GetSpec(t, need, Buffer(0, need(t.pending[0][0], 0)), true).0.Success?;
    }
  }

  /** A reset while a retry is pending ends the enumeration for good: every later call finds nothing. */
  lemma {:induction false} StuckForever<E>(
    s: State<E>, got: seq<E>, all: seq<seq<E>>, need: (E, nat) -> nat, ops: seq<Op>, k: nat)
    requires s.calledAgain && s.left == [] && k < |ops| && ops[k].Get?
    ensures var t := Run(s, got, all, need, ops[..k]).0;
            GetSpec(t, need, ops[k].buf, ops[k].up).0 == NotFound
    decreases |ops|
  {
    if k > 0 {
      assert ops[..k][0] == ops[0] && ops[..k][1..] == ops[1..][..k - 1];
      StuckForever(StepState(s, all, need, ops[0]), StepDelivered(s, got, need, ops[0]), all, need, ops[1..], k - 1);
    }
  }
}
