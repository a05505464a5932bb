/**
 * Any number of `mount.cifs` and `umount.cifs` processes around one mtab: lock_mtab and unlock_mtab
 * of client/mtab.c, the locked append at the end of main in client/mount.cifs.c, and
 * remove_from_mtab of client/umount.cifs.c, one system call per step.
 */
module MtabProtocol {
  import opened MtabTable

  type Pid = nat

  datatype Role = Mounter(entry: Entry) | Unmounter(dir: string)

  /**
   * How the update of the table ends: with what lock_mtab, the append or remove_from_mtab report,
   * `Killed` by a signal that is caught, so that the exit handlers run, or `Lost` by any other.
   */
  datatype Outcome = Success | Failure | Killed | Lost

  datatype Pc =
    | Start                                    // open(mtab~pid, O_CREAT)
    | Link                                     // link(mtab~pid, mtab~)
    | OpenLock(linked: bool)                   // open(mtab~)
    | Claim                                    // fcntl(F_SETLK), its result ignored; unlink(mtab~pid)
    | Wait                                     // fcntl(F_SETLKW), nanosleep, close
    | OpenAppend                               // setmntent(mtab, "a+")
    | Append                                   // addmntent, endmntent
    | OpenOrg                                  // setmntent(mtab, "r")
    | OpenTemp                                 // setmntent(mtab.tmp, "w")
    | Count(i: nat, num: int)                  // getmntent, counting
    | Reopen(num: int)                         // setmntent(mtab, "r") again
    | CopyEntry(i: nat, num: int)              // getmntent, addmntent
    | Rename                                   // rename(mtab.tmp, mtab)
    | Release(rc: Outcome)                     // unlock_mtab()
    | Exit(rc: Outcome)                        // exit(): the atexit handler calls unlock_mtab()
    | Done(rc: Outcome)

  datatype Proc = Proc(pc: Pc, weCreated: bool)

  /**
   * How the system answers a call: it works, it fails, the 30 seconds are over, or a signal arrives
   * first. lock_mtab installs its handler for the signals below SIGCHLD; `Kill` stands for SIGKILL
   * and for every other signal that ends a process on the spot.
   */
  datatype Answer = Works | Fails | TimeUp | Signal | Kill

  /**
   * The shared files and the processes, with two history variables: the processes in the order
   * their link() succeeded, and those whose change reached the table.
   */
  datatype Sys = Sys(
    roles: map<Pid, Role>,
    procs: map<Pid, Proc>,
    lock: bool,
    targets: set<Pid>,
    mtab: seq<Entry>,
    temp: seq<Entry>,
    initial: seq<Entry>,
    acquired: seq<Pid>,
    committed: set<Pid>)

  /** `g` differs from `s` at most in what process `p` has of its own. */
  ghost predicate OnlyProc(s: Sys, g: Sys, p: Pid) {
    && g == s.(procs := g.procs)
    && g.procs.Keys == s.procs.Keys
    && forall q :: q in s.procs && q != p ==> g.procs[q] == s.procs[q]
  }

  function SetProc(s: Sys, p: Pid, proc: Proc): (g: Sys)
    requires p in s.procs
    ensures OnlyProc(s, g, p) && g.procs[p] == proc
  {
    s.(procs := s.procs[p := proc])
  }

  function Goto(s: Sys, p: Pid, pc: Pc): (g: Sys)
    requires p in s.procs
    ensures OnlyProc(s, g, p) && g.procs[p] == Proc(pc, s.procs[p].weCreated)
  {
    SetProc(s, p, s.procs[p].(pc := pc))
  }

  function DropTarget(s: Sys, p: Pid): Sys {
    s.(targets := s.targets - {p})
  }

  /** `unlock_mtab`: it removes the lock name only when this process made it. */
  function Unlock(s: Sys, p: Pid, pc: Pc): Sys
    requires p in s.procs
  {
    if s.procs[p].weCreated then SetProc(s, p, Proc(pc, false)).(lock := false)
    else Goto(s, p, pc)
  }

  function LockStep(s: Sys, p: Pid, a: Answer): Sys
    requires p in s.procs && p in s.roles
  {
    var pc := s.procs[p].pc;
    match pc
    case Start =>
      if a == Works then Goto(s, p, Link).(targets := s.targets + {p}) else Goto(s, p, Exit(Failure))
    case Link =>
      if a != Works || p !in s.targets then DropTarget(Goto(s, p, Exit(Failure)), p)
      else if s.lock then Goto(s, p, OpenLock(false))
      else
        SetProc(s, p, Proc(OpenLock(true), true)).(lock := true, acquired := s.acquired + [p])
    case OpenLock(linked) =>
      if s.lock && a != Fails then Goto(s, p, if linked then Claim else Wait)
      else if !s.lock && a == Works then SetProc(s, p, Proc(Link, false))
      else DropTarget(Goto(s, p, Exit(Failure)), p)
    case Claim =>
      DropTarget(Goto(s, p, if s.roles[p].Mounter? then OpenAppend else OpenOrg), p)
    case Wait =>
      if a == Works then Goto(s, p, Link) else DropTarget(Goto(s, p, Exit(Failure)), p)
    case _ => s
  }

  function MountStep(s: Sys, p: Pid, a: Answer): Sys
    requires p in s.procs && p in s.roles && s.roles[p].Mounter?
  {
    match s.procs[p].pc
    case OpenAppend => Goto(s, p, if a == Works then Append else Release(Failure))
    case Append =>
      if a == Works then
        Goto(s, p, Release(Success)).(mtab := s.mtab + [s.roles[p].entry], committed := s.committed + {p})
      else
        Goto(s, p, Release(Failure))
    case _ => s
  }

  function UnmountStep(s: Sys, p: Pid, a: Answer): Sys
    requires p in s.procs && p in s.roles && s.roles[p].Unmounter?
  {
    var dir := s.roles[p].dir;
    match s.procs[p].pc
    case OpenOrg => Goto(s, p, if a == Works then OpenTemp else Release(Failure))
    case OpenTemp =>
      if a == Works then Goto(s, p, Count(0, 0)).(temp := []) else Goto(s, p, Release(Failure))
    case Count(i, num) =>
      if i < |s.mtab| then Goto(s, p, Count(i + 1, if s.mtab[i].dir == dir then num + 1 else num))
      else Goto(s, p, Reopen(num))
    case Reopen(num) => Goto(s, p, if a == Works then CopyEntry(0, num) else Release(Failure))
    case CopyEntry(i, num) =>
      if i >= |s.mtab| then Goto(s, p, Rename)
      else if s.mtab[i].dir != dir then Goto(s, p, CopyEntry(i + 1, num)).(temp := s.temp + [s.mtab[i]])
      else if num != 1 then Goto(s, p, CopyEntry(i + 1, num - 1)).(temp := s.temp + [s.mtab[i]])
      else Goto(s, p, CopyEntry(i + 1, num))
    case Rename =>
      if a == Works then
        Goto(s, p, Release(Success)).(mtab := s.temp, temp := [], committed := s.committed + {p})
      else
        Goto(s, p, Release(Failure))
    case _ => s
  }

  /** One step of process `p`. */
  function Step(s: Sys, p: Pid, a: Answer): Sys {
    if p !in s.procs || p !in s.roles then s
    else
      var pc := s.procs[p].pc;
      if pc.Done? then s
      else if a == Kill then Goto(s, p, Done(Lost))
      else if pc.Exit? then Unlock(s, p, Done(pc.rc))
      else if a == Signal then Goto(s, p, Exit(Killed))
      else if pc.Release? then Unlock(s, p, Exit(pc.rc))
      else if pc.Start? || pc.Link? || pc.OpenLock? || pc.Claim? || pc.Wait? then LockStep(s, p, a)
      else if s.roles[p].Mounter? then MountStep(s, p, a)
      else UnmountStep(s, p, a)
  }

  /** A whole run: which process moves next, and how the system answers it. */
  function Run(s: Sys, schedule: seq<(Pid, Answer)>): Sys
    decreases |schedule|
  {
    if schedule == [] then s else Run(Step(s, schedule[0].0, schedule[0].1), schedule[1..])
  }

  /** Nobody has started and no lock is left over. */
  ghost predicate Initial(s: Sys) {
    && s.procs.Keys == s.roles.Keys
    && (forall p :: p in s.procs ==> s.procs[p] == Proc(Start, false))
    && !s.lock && s.mtab == s.initial && s.acquired == [] && s.committed == {} && s.targets == {}
  }

  // ----- specification

  function Apply(op: Role, table: seq<Entry>): seq<Entry> {
    match op
    case Mounter(e) => table + [e]
    case Unmounter(dir) => RemoveLast(table, dir)
  }

  /** The committed operations, one at a time, in the order the lock was taken. */
  function Replay(table: seq<Entry>, roles: map<Pid, Role>, order: seq<Pid>, committed: set<Pid>): seq<Entry> {
    if order == [] then table
    else
      var before := Replay(table, roles, order[..|order| - 1], committed);
      var p := order[|order| - 1];
      if p in committed && p in roles then Apply(roles[p], before) else before
  }

  /** Before the link() that makes the lock. */
  predicate Outside(pc: Pc) {
    pc.Start? || pc.Link? || pc == OpenLock(false) || pc.Wait?
  }

  /** From that link() on, until unlock_mtab or exit(). */
  predicate Inside(pc: Pc) {
    !Outside(pc) && !pc.Exit? && !pc.Done?
  }

  /** In one of the two critical sections. */
  predicate InSection(pc: Pc) {
    Inside(pc) && !pc.OpenLock? && !pc.Claim?
  }

  predicate Early(pc: Pc) {
    Inside(pc) && !pc.Release?
  }

  predicate NeedsTarget(pc: Pc) {
    pc.Link? || pc.OpenLock? || pc.Claim? || pc.Wait?
  }

  predicate Ended(pc: Pc) {
    pc.Release? || pc.Exit? || pc.Done?
  }

  /** What a process in the removal section knows of the table and of the temporary file. */
  ghost predicate SectionData(pc: Pc, role: Role, mtab: seq<Entry>, temp: seq<Entry>) {
    && (pc.OpenAppend? || pc.Append? ==> role.Mounter?)
    && (pc.OpenOrg? || pc.OpenTemp? || pc.Count? || pc.Reopen? || pc.CopyEntry? || pc.Rename? ==> role.Unmounter?)
    && (pc.Count? ==> pc.i <= |mtab| && pc.num + CountMatches(mtab[pc.i..], role.dir) == CountMatches(mtab, role.dir))
    && (pc.Reopen? ==> temp == [] && pc.num == CountMatches(mtab, role.dir))
    && (pc.Count? ==> temp == [])
    && (pc.CopyEntry? ==>
          pc.i <= |mtab| && temp + CopyPass(mtab[pc.i..], role.dir, pc.num) == RemoveLast(mtab, role.dir))
    && (pc.Rename? ==> temp == RemoveLast(mtab, role.dir))
  }

  /** Everything else a process knows: whose the lock is, and whether its change has reached the table. */
  predicate Flags(pc: Pc, mine: bool, lock: bool, last: bool, acquired: bool, target: bool, committed: bool) {
    && (Outside(pc) || (pc.Done? && pc.rc != Lost) ==> !mine)
    && (pc.Release? || pc.Exit? ==> pc.rc != Lost)
    && (Inside(pc) ==> mine)
    && (mine ==> lock && last)
    && (Outside(pc) ==> !acquired)
    && (NeedsTarget(pc) ==> target)
    && (Early(pc) ==> !committed)
    && (Ended(pc) && pc.rc == Success ==> committed)
    && (Ended(pc) && pc.rc == Failure ==> !committed)
    && (pc.Start? || InSection(pc) || (Ended(pc) && (pc.rc == Success || pc.rc == Failure)) ==> !target)
    && (committed ==> acquired)
  }

  predicate IsLast(order: seq<Pid>, p: Pid) {
    order != [] && order[|order| - 1] == p
  }

  predicate ProcFlags(s: Sys, p: Pid)
    requires p in s.procs
  {
    Flags(s.procs[p].pc, s.procs[p].weCreated, s.lock, IsLast(s.acquired, p), p in s.acquired, p in s.targets,
          p in s.committed)
  }

  ghost predicate ProcOk(s: Sys, p: Pid)
    requires p in s.procs && p in s.roles
  {
    ProcFlags(s, p) && SectionData(s.procs[p].pc, s.roles[p], s.mtab, s.temp)
  }

  ghost predicate NoDup(order: seq<Pid>) {
    forall i, j :: 0 <= i < j < |order| ==> order[i] != order[j]
  }

  ghost predicate Inv(s: Sys) {
    && s.procs.Keys == s.roles.Keys
    && (forall p :: p in s.procs ==> ProcOk(s, p))
    && (s.lock ==> s.acquired != [] &&
                   var p := s.acquired[|s.acquired| - 1]; p in s.procs && s.procs[p].weCreated)
    && NoDup(s.acquired)
    && (forall p :: p in s.committed ==> p in s.acquired)
    && s.mtab == Replay(s.initial, s.roles, s.acquired, s.committed)
  }

  // ----- proofs

  lemma {:induction false} ReplayIgnores(
    table: seq<Entry>, roles: map<Pid, Role>, order: seq<Pid>, committed: set<Pid>, p: Pid)
    requires p !in order
    ensures Replay(table, roles, order, committed + {p}) == Replay(table, roles, order, committed)
  {
    if order != [] {
      ReplayIgnores(table, roles, order[..|order| - 1], committed, p);
    }
  }

  /** Taking the lock changes nothing in the table's account. */
  lemma ReplayAcquire(s: Sys, p: Pid)
    requires p !in s.committed
    ensures Replay(s.initial, s.roles, s.acquired + [p], s.committed)
            == Replay(s.initial, s.roles, s.acquired, s.committed)
  {
    assert (s.acquired + [p])[..|s.acquired|] == s.acquired;
  }

  /** Committing applies the last lock holder's operation to the table. */
  lemma ReplayCommit(s: Sys, p: Pid)
    requires s.acquired != [] && s.acquired[|s.acquired| - 1] == p && NoDup(s.acquired)
    requires p !in s.committed && p in s.roles
    ensures Replay(s.initial, s.roles, s.acquired, s.committed + {p})
            == Apply(s.roles[p], Replay(s.initial, s.roles, s.acquired, s.committed))
  {
    var before := s.acquired[..|s.acquired| - 1];
    ReplayIgnores(s.initial, s.roles, before, s.committed, p);
  }

  /**
   * What one step of `p` may do to everyone else: the table, the temporary file and the list of
   * committed operations change only while `p` holds the lock; the lock is made when it is free
   * and removed only by its holder; link targets are private.
   */
  ghost predicate Fair(s: Sys, s': Sys, p: Pid)
    requires p in s.procs
  {
    var mine := s.procs[p].weCreated;
    && s'.procs.Keys == s.procs.Keys
    && (forall q :: q in s.procs && q != p ==> s'.procs[q] == s.procs[q])
    && s'.roles == s.roles && s'.initial == s.initial
    && (!mine ==> s'.mtab == s.mtab && s'.temp == s.temp && s'.committed == s.committed)
    && (s'.committed == s.committed || s'.committed == s.committed + {p})
    && (s'.targets == s.targets || s'.targets == s.targets + {p} || s'.targets == s.targets - {p})
    && (if s'.acquired == s.acquired then s'.lock == s.lock || (mine && !s'.lock)
        else !s.lock && s'.lock && s'.acquired == s.acquired + [p] && s'.procs[p].weCreated && Outside(s.procs[p].pc))
    && (s'.lock && mine ==> s'.procs[p].weCreated)
    && (s'.committed == s.committed ==> s'.mtab == s.mtab)
  }

  lemma UnlockFair(s: Sys, p: Pid, pc: Pc)
    requires p in s.procs
    ensures Fair(s, Unlock(s, p, pc), p)
  {
  }

  lemma LockFair(s: Sys, p: Pid, a: Answer)
    requires p in s.procs && p in s.roles
    ensures Fair(s, LockStep(s, p, a), p)
  {
    hide Goto, SetProc;
    if s.procs[p].pc.Link? {
      LinkFair(s, p, a);
    } else if s.procs[p].pc.OpenLock? {
      OpenLockFair(s, p, a);
    }
  }

  lemma LinkFair(s: Sys, p: Pid, a: Answer)
    requires p in s.procs && p in s.roles && s.procs[p].pc.Link?
    ensures Fair(s, LockStep(s, p, a), p)
  {
    hide Goto, SetProc;
  }

  lemma OpenLockFair(s: Sys, p: Pid, a: Answer)
    requires p in s.procs && p in s.roles && s.procs[p].pc.OpenLock?
    ensures Fair(s, LockStep(s, p, a), p)
  {
    hide Goto, SetProc;
  }

  lemma MountFair(s: Sys, p: Pid, a: Answer)
    requires p in s.procs && p in s.roles && s.roles[p].Mounter?
    requires Inside(s.procs[p].pc) ==> s.procs[p].weCreated
    requires Early(s.procs[p].pc) ==> p !in s.committed
    ensures Fair(s, MountStep(s, p, a), p)
  {
    hide Goto, SetProc;
  }

  lemma UnmountFair(s: Sys, p: Pid, a: Answer)
    requires p in s.procs && p in s.roles && s.roles[p].Unmounter?
    requires Inside(s.procs[p].pc) ==> s.procs[p].weCreated
    requires Early(s.procs[p].pc) ==> p !in s.committed
    ensures Fair(s, UnmountStep(s, p, a), p)
  {
    hide Goto, SetProc;
  }

  lemma StepFair(s: Sys, p: Pid, a: Answer)
    requires p in s.procs && p in s.roles
    requires Inside(s.procs[p].pc) ==> s.procs[p].weCreated
    requires Early(s.procs[p].pc) ==> p !in s.committed
    ensures Fair(s, Step(s, p, a), p)
  {
    hide LockStep, MountStep, UnmountStep, Unlock, Goto, Fair;
    var pc := s.procs[p].pc;
    if pc.Done? || a == Kill || (a == Signal && !pc.Exit?) {
      GotoFair(s, p, if pc.Done? then pc else if a == Kill then Done(Lost) else Exit(Killed));
    } else if pc.Exit? {
      UnlockFair(s, p, Done(pc.rc));
    } else if pc.Release? {
      UnlockFair(s, p, Exit(pc.rc));
    } else if pc.Start? || pc.Link? || pc.OpenLock? || pc.Claim? || pc.Wait? {
      LockFair(s, p, a);
    } else if s.roles[p].Mounter? {
      MountFair(s, p, a);
    } else {
      UnmountFair(s, p, a);
    }
  }

  lemma GotoFair(s: Sys, p: Pid, pc: Pc)
    requires p in s.procs
    ensures Fair(s, Goto(s, p, pc), p) && Fair(s, s, p)
  {
  }

  lemma OtherOk(s: Sys, s': Sys, p: Pid, q: Pid)
    requires Inv(s) && p in s.procs && q in s.procs && p != q
    requires Fair(s, s', p)
    ensures q in s'.procs && q in s'.roles && ProcOk(s', q)
  {
    assert ProcOk(s, p) && ProcOk(s, q);
    assert s'.procs[q] == s.procs[q];
  }

  lemma UnlockSelf(s: Sys, p: Pid, pc: Pc)
    requires p in s.procs && p in s.roles && ProcOk(s, p)
    requires s.procs[p].pc.Release? || s.procs[p].pc.Exit?
    requires pc == Exit(s.procs[p].pc.rc) || pc == Done(s.procs[p].pc.rc)
    ensures ProcOk(Unlock(s, p, pc), p)
  {
    hide SetProc, Goto, RemoveLast, CountMatches, CopyPass;
  }

  lemma LockSelf(s: Sys, p: Pid, a: Answer)
    requires p in s.procs && p in s.roles && ProcOk(s, p)
    ensures ProcOk(LockStep(s, p, a), p)
  {
    hide SetProc, Goto, RemoveLast, CountMatches, CopyPass;
    var pc := s.procs[p].pc;
    if pc.Link? {
      LinkSelf(s, p, a);
    } else if pc.OpenLock? {
      OpenLockSelf(s, p, a);
    }
  }

  lemma LinkSelf(s: Sys, p: Pid, a: Answer)
    requires p in s.procs && p in s.roles && ProcOk(s, p) && s.procs[p].pc.Link?
    ensures ProcOk(LockStep(s, p, a), p)
  {
    hide SetProc, Goto, RemoveLast, CountMatches, CopyPass;
  }

  /** The retry after ENOENT never forgets a lock this process made: while it holds the lock, the name exists. */
  lemma OpenLockSelf(s: Sys, p: Pid, a: Answer)
    requires p in s.procs && p in s.roles && ProcOk(s, p) && s.procs[p].pc.OpenLock?
    ensures ProcOk(LockStep(s, p, a), p)
    ensures s.procs[p].weCreated ==> LockStep(s, p, a).procs[p].weCreated && LockStep(s, p, a).lock
  {
    hide SetProc, Goto, RemoveLast, CountMatches, CopyPass;
  }

  lemma MountSelf(s: Sys, p: Pid, a: Answer)
    requires p in s.procs && p in s.roles && ProcOk(s, p) && s.roles[p].Mounter?
    ensures ProcOk(MountStep(s, p, a), p)
    ensures p !in s.committed && p in MountStep(s, p, a).committed ==>
              MountStep(s, p, a).mtab == Apply(s.roles[p], s.mtab)
  {
    hide SetProc, Goto, RemoveLast, CountMatches, CopyPass;
  }

  lemma UnmountSelf(s: Sys, p: Pid, a: Answer)
    requires p in s.procs && p in s.roles && ProcOk(s, p) && s.roles[p].Unmounter?
    ensures ProcOk(UnmountStep(s, p, a), p)
    ensures p !in s.committed && p in UnmountStep(s, p, a).committed ==>
              UnmountStep(s, p, a).mtab == Apply(s.roles[p], s.mtab)
  {
    hide SetProc, Goto, RemoveLast, CountMatches, CopyPass, SectionData, UnmountStep, Apply, Flags;
    assert s.procs[p].pc.Rename? ==> p !in s.committed by { EarlyNotCommitted(s, p); }
    UnmountData(s, p, a);
    UnmountFlags(s, p, a);
  }

  lemma EarlyNotCommitted(s: Sys, p: Pid)
    requires p in s.procs && p in s.roles && ProcOk(s, p)
    ensures Early(s.procs[p].pc) ==> p !in s.committed
  {
    hide SectionData;
  }

  lemma UnmountFlags(s: Sys, p: Pid, a: Answer)
    requires p in s.procs && p in s.roles && s.roles[p].Unmounter? && ProcFlags(s, p)
    ensures var s' := UnmountStep(s, p, a); p in s'.procs && s'.roles == s.roles && ProcFlags(s', p)
  {
    hide UnmountStep, Flags;
    var pc := s.procs[p].pc;
    if pc.CopyEntry? || pc.Rename? {
      LateFlags(s, p, a);
    } else {
      EarlyFlags(s, p, a);
    }
  }

  lemma EarlyFlags(s: Sys, p: Pid, a: Answer)
    requires p in s.procs && p in s.roles && s.roles[p].Unmounter? && ProcFlags(s, p)
    requires !s.procs[p].pc.CopyEntry? && !s.procs[p].pc.Rename?
    ensures var s' := UnmountStep(s, p, a); p in s'.procs && s'.roles == s.roles && ProcFlags(s', p)
  {
    hide SetProc, Goto;
  }

  lemma LateFlags(s: Sys, p: Pid, a: Answer)
    requires p in s.procs && p in s.roles && s.roles[p].Unmounter? && ProcFlags(s, p)
    requires s.procs[p].pc.CopyEntry? || s.procs[p].pc.Rename?
    ensures var s' := UnmountStep(s, p, a); p in s'.procs && s'.roles == s.roles && ProcFlags(s', p)
  {
    hide SetProc, Goto;
  }

  lemma UnmountData(s: Sys, p: Pid, a: Answer)
    requires p in s.procs && p in s.roles && s.roles[p].Unmounter?
    requires SectionData(s.procs[p].pc, s.roles[p], s.mtab, s.temp)
    requires s.procs[p].pc.Rename? ==> p !in s.committed
    ensures var s' := UnmountStep(s, p, a);
            && SectionData(s'.procs[p].pc, s.roles[p], s'.mtab, s'.temp)
            && (p !in s.committed && p in s'.committed ==> s'.mtab == Apply(s.roles[p], s.mtab))
  {
    hide UnmountStep, SectionData, Apply;
    if s.procs[p].pc.CopyEntry? {
      CopyEntryData(s, p, a);
    } else if s.procs[p].pc.Count? || s.procs[p].pc.Reopen? {
      CountData(s, p, a);
    } else {
      OtherData(s, p, a);
    }
  }

  lemma CountData(s: Sys, p: Pid, a: Answer)
    requires p in s.procs && p in s.roles && s.roles[p].Unmounter?
    requires s.procs[p].pc.Count? || s.procs[p].pc.Reopen?
    requires SectionData(s.procs[p].pc, s.roles[p], s.mtab, s.temp)
    ensures var s' := UnmountStep(s, p, a);
            SectionData(s'.procs[p].pc, s.roles[p], s'.mtab, s'.temp) && s'.committed == s.committed
  {
    hide SetProc, Goto, RemoveLast, CountMatches, CopyPass;
    var pc, dir := s.procs[p].pc, s.roles[p].dir;
    PassEnds(s.mtab, dir, pc.num);
    if pc.Count? && pc.i < |s.mtab| {
      CountStep(s.mtab, pc.i, dir);
    } else if pc.Reopen? {
      CopyPassRemovesLast(s.mtab, dir);
    }
  }

  lemma OtherData(s: Sys, p: Pid, a: Answer)
    requires p in s.procs && p in s.roles && s.roles[p].Unmounter?
    requires !s.procs[p].pc.Count? && !s.procs[p].pc.Reopen? && !s.procs[p].pc.CopyEntry?
    requires SectionData(s.procs[p].pc, s.roles[p], s.mtab, s.temp)
    requires s.procs[p].pc.Rename? ==> p !in s.committed
    ensures var s' := UnmountStep(s, p, a);
            && SectionData(s'.procs[p].pc, s.roles[p], s'.mtab, s'.temp)
            && (p !in s.committed && p in s'.committed ==> s'.mtab == Apply(s.roles[p], s.mtab))
  {
    hide SetProc, Goto, RemoveLast, CountMatches, CopyPass;
    PassEnds(s.mtab, s.roles[p].dir, 0);
  }

  lemma CopyEntryData(s: Sys, p: Pid, a: Answer)
    requires p in s.procs && p in s.roles && s.roles[p].Unmounter? && s.procs[p].pc.CopyEntry?
    requires SectionData(s.procs[p].pc, s.roles[p], s.mtab, s.temp)
    ensures var s' := UnmountStep(s, p, a);
            SectionData(s'.procs[p].pc, s.roles[p], s'.mtab, s'.temp) && s'.committed == s.committed
  {
    hide SetProc, Goto, RemoveLast, CountMatches, CopyPass;
    var pc, dir := s.procs[p].pc, s.roles[p].dir;
    if pc.i < |s.mtab| {
      CopyStep(s.mtab, dir, pc.i, pc.num, s.temp);
    } else {
      PassEnds(s.mtab, dir, pc.num);
      assert s.temp + [] == s.temp;
    }
  }

  lemma PassEnds(es: seq<Entry>, dir: string, num: int)
    ensures es[0..] == es && es[|es|..] == [] && CountMatches([], dir) == 0 && CopyPass([], dir, num) == []
    ensures [] + CopyPass(es, dir, num) == CopyPass(es, dir, num)
  {
  }

  lemma StepSelf(s: Sys, p: Pid, a: Answer)
    requires p in s.procs && p in s.roles && ProcOk(s, p)
    ensures var s' := Step(s, p, a);
            && p in s'.procs && p in s'.roles && ProcOk(s', p)
            && (p !in s.committed && p in s'.committed ==> s'.mtab == Apply(s.roles[p], s.mtab))
  {
    hide LockStep, MountStep, UnmountStep, Unlock, SetProc, Goto;
    StepFair(s, p, a);
    UnlockFair(s, p, if s.procs[p].pc.Exit? then Done(s.procs[p].pc.rc) else Exit(Killed));
    var pc := s.procs[p].pc;
    if pc.Done? {
    } else if a == Kill {
      EndedOk(s, p, Done(Lost));
    } else if pc.Exit? {
      UnlockSelf(s, p, Done(pc.rc));
      UnlockKeeps(s, p, Done(pc.rc));
    } else if a == Signal {
      EndedOk(s, p, Exit(Killed));
    } else if pc.Release? {
      UnlockSelf(s, p, Exit(pc.rc));
      UnlockKeeps(s, p, Exit(pc.rc));
    } else if pc.Start? || pc.Link? || pc.OpenLock? || pc.Claim? || pc.Wait? {
      LockSelf(s, p, a);
      LockFair(s, p, a);
      LockKeeps(s, p, a);
    } else if s.roles[p].Mounter? {
      MountSelf(s, p, a);
    } else {
      UnmountSelf(s, p, a);
    }
  }

  lemma UnlockKeeps(s: Sys, p: Pid, pc: Pc)
    requires p in s.procs
    ensures Unlock(s, p, pc).committed == s.committed
  {
  }

  lemma LockKeeps(s: Sys, p: Pid, a: Answer)
    requires p in s.procs && p in s.roles
    ensures LockStep(s, p, a).committed == s.committed
  {
    hide Goto, SetProc;
  }

  /** A process that ends in the middle, with or without its exit handler still to come. */
  lemma EndedOk(s: Sys, p: Pid, pc: Pc)
    requires p in s.procs && p in s.roles && ProcOk(s, p) && !s.procs[p].pc.Done?
    requires pc == Done(Lost) || (pc == Exit(Killed) && !s.procs[p].pc.Exit?)
    ensures ProcOk(Goto(s, p, pc), p) && Goto(s, p, pc).committed == s.committed
  {
    hide RemoveLast, CountMatches, CopyPass;
  }

  /** Every step of every process keeps the invariant, whatever the system answers. */
  lemma StepKeepsInv(s: Sys, p: Pid, a: Answer)
    requires Inv(s)
    ensures Inv(Step(s, p, a))
  {
    hide ProcOk, Apply;
    if p in s.procs {
      var s' := Step(s, p, a);
      hide Step;
      InsideFacts(s, p);
      StepFair(s, p, a);
      StepSelf(s, p, a);
      forall q | q in s'.procs
        ensures q in s'.roles && ProcOk(s', q)
      {
        if q != p {
          OtherOk(s, s', p, q);
        }
      }
      TableKept(s, s', p);
    }
  }

  lemma InsideFacts(s: Sys, p: Pid)
    requires p in s.procs && p in s.roles && ProcOk(s, p)
    ensures Inside(s.procs[p].pc) ==> s.procs[p].weCreated
    ensures Early(s.procs[p].pc) ==> p !in s.committed
    ensures s.procs[p].weCreated ==> IsLast(s.acquired, p)
    ensures Outside(s.procs[p].pc) ==> p !in s.acquired
  {
  }

  lemma TableKept(s: Sys, s': Sys, p: Pid)
    requires Inv(s) && p in s.procs && Fair(s, s', p)
    requires p !in s.committed && p in s'.committed ==> s'.mtab == Apply(s.roles[p], s.mtab)
    ensures s'.mtab == Replay(s'.initial, s'.roles, s'.acquired, s'.committed)
    ensures NoDup(s'.acquired) && forall q :: q in s'.committed ==> q in s'.acquired
    ensures s'.lock ==> s'.acquired != [] &&
                        var q := s'.acquired[|s'.acquired| - 1]; q in s'.procs && s'.procs[q].weCreated
  {
    InsideFacts(s, p);
    hide ProcOk, Apply, Replay;
    if s'.acquired != s.acquired {
      ReplayAcquire(s, p);
    } else if s'.committed != s.committed {
      ReplayCommit(s, p);
    }
  }

  lemma {:induction false} RunKeepsInv(s: Sys, schedule: seq<(Pid, Answer)>)
    requires Inv(s)
    ensures Inv(Run(s, schedule))
    decreases |schedule|
  {
    hide Inv, Step;
    if schedule != [] {
      StepKeepsInv(s, schedule[0].0, schedule[0].1);
      RunKeepsInv(Step(s, schedule[0].0, schedule[0].1), schedule[1..]);
    }
  }

  lemma InitialInv(s: Sys)
    requires Initial(s)
    ensures Inv(s)
  {
  }

  // ----- the guarantees

  /**
   * In every reachable state: the lock name exists iff one process made it and has not removed it, be
   * it dead or alive, and only that one is inside.
   */
  lemma MutualExclusion(s0: Sys, schedule: seq<(Pid, Answer)>)
    requires Initial(s0)
    ensures var s := Run(s0, schedule);
            && (s.lock <==> exists p :: p in s.procs && s.procs[p].weCreated)
            && (forall p, q :: p in s.procs && q in s.procs && s.procs[p].weCreated && s.procs[q].weCreated ==> p == q)
            && (forall p :: p in s.procs && Inside(s.procs[p].pc) ==> s.procs[p].weCreated)
  {
    InitialInv(s0);
    RunKeepsInv(s0, schedule);
    var s := Run(s0, schedule);
    hide Run, Replay;
    assert forall p :: p in s.procs ==> ProcOk(s, p);
    hide SectionData;
  }

  /** Only the last process that took the lock removes it, and then nobody is left inside a critical section. */
  lemma OnlyHolderUnlocks(s0: Sys, schedule: seq<(Pid, Answer)>, p: Pid, a: Answer)
    requires Initial(s0)
    ensures var s := Run(s0, schedule);
            var s' := Step(s, p, a);
            s.lock && !s'.lock ==>
              && p in s.procs && s.procs[p].weCreated && IsLast(s.acquired, p)
              && s'.mtab == s.mtab
              && forall q :: q in s'.procs ==> !Inside(s'.procs[q].pc)
  {
    InitialInv(s0);
    RunKeepsInv(s0, schedule);
    var s := Run(s0, schedule);
    StepKeepsInv(s, p, a);
    hide Run, Replay, SectionData;
    if p in s.procs && p in s.roles {
      InsideFacts(s, p);
      StepFair(s, p, a);
      if s.lock && !Step(s, p, a).lock {
        StepUnlocks(s, p, a);
      }
      var s' := Step(s, p, a);
      hide Step;
      assert forall q :: q in s'.procs ==> ProcOk(s', q);
    }
  }

  lemma StepUnlocks(s: Sys, p: Pid, a: Answer)
    requires p in s.procs && p in s.roles && s.lock && !Step(s, p, a).lock
    ensures s.procs[p].pc.Release? || s.procs[p].pc.Exit?
    ensures Step(s, p, a).mtab == s.mtab
  {
    hide Goto, SetProc;
  }

  /**
   * In every interleaving the table is what the committed operations give one at a time, in the
   * order the lock was taken; an update that ends in success is committed, one that ends in an
   * ordinary failure is not, and nobody is counted twice. Processes may die at any point.
   */
  lemma Serialisable(s0: Sys, schedule: seq<(Pid, Answer)>)
    requires Initial(s0)
    ensures var s := Run(s0, schedule);
            && s.mtab == Replay(s0.mtab, s0.roles, s.acquired, s.committed)
            && NoDup(s.acquired) && (forall p :: p in s.committed ==> p in s.acquired)
            && (forall p :: p in s.procs && s.procs[p].pc == Done(Success) ==> p in s.committed && p !in s.targets)
            && (forall p :: p in s.procs && s.procs[p].pc == Done(Failure) ==> p !in s.committed && p !in s.targets)
  {
    InitialInv(s0);
    RunKeepsInv(s0, schedule);
    RunKeepsConstants(s0, schedule);
    var s := Run(s0, schedule);
    hide Run, Replay;
    assert forall p :: p in s.procs ==> ProcOk(s, p);
    hide SectionData;
  }

  lemma {:induction false} RunKeepsConstants(s: Sys, schedule: seq<(Pid, Answer)>)
    requires Inv(s)
    ensures Run(s, schedule).initial == s.initial && Run(s, schedule).roles == s.roles
    decreases |schedule|
  {
    if schedule != [] {
      var (p, a) := schedule[0];
      StepKeepsInv(s, p, a);
      if p in s.procs {
        InsideFacts(s, p);
        StepFair(s, p, a);
      }
      RunKeepsConstants(Step(s, p, a), schedule[1..]);
    }
  }

  /**
   * Once every process is done the lock is left behind exactly when the last one that took it still
   * held it when it was killed outright.
   */
  lemma LockLeftIff(s0: Sys, schedule: seq<(Pid, Answer)>)
    requires Initial(s0)
    requires var s := Run(s0, schedule); forall p :: p in s.procs ==> s.procs[p].pc.Done?
    ensures var s := Run(s0, schedule);
            s.lock <==>
              && s.acquired != []
              && var p := s.acquired[|s.acquired| - 1];
              p in s.procs && s.procs[p].pc == Done(Lost) && s.procs[p].weCreated
  {
    InitialInv(s0);
    RunKeepsInv(s0, schedule);
    var s := Run(s0, schedule);
    hide Run, Replay, SectionData;
    assert forall p :: p in s.procs ==> ProcOk(s, p);
  }

  /** As long as nobody is killed outright no lock is left behind, caught signals included. */
  lemma NoLockLeftBehind(s0: Sys, schedule: seq<(Pid, Answer)>)
    requires Initial(s0)
    requires forall k :: 0 <= k < |schedule| ==> schedule[k].1 != Kill
    requires var s := Run(s0, schedule); forall p :: p in s.procs ==> s.procs[p].pc.Done?
    ensures !Run(s0, schedule).lock
  {
    LockLeftIff(s0, schedule);
    NobodyLost(s0, schedule);
  }

  lemma {:induction false} NobodyLost(s: Sys, schedule: seq<(Pid, Answer)>)
    requires Surviving(s)
    requires forall k :: 0 <= k < |schedule| ==> schedule[k].1 != Kill
    ensures Surviving(Run(s, schedule))
    decreases |schedule|
  {
    if schedule != [] {
      var (p, a) := schedule[0];
      StepSurvives(s, p, a);
      hide Step;
      NobodyLost(Step(s, p, a), schedule[1..]);
    }
  }

  ghost predicate Surviving(s: Sys) {
    forall p :: p in s.procs ==> !IsLost(s.procs[p].pc)
  }

  predicate IsLost(pc: Pc) {
    Ended(pc) && pc.rc == Lost
  }

  lemma StepSurvives(s: Sys, p: Pid, a: Answer)
    requires Surviving(s) && a != Kill
    ensures Surviving(Step(s, p, a))
  {
    hide SetProc, Goto, LockStep, MountStep, UnmountStep;
    if p in s.procs && p in s.roles {
      assert !IsLost(s.procs[p].pc);
      LockSurvives(s, p, a);
      if s.roles[p].Mounter? {
        MountSurvives(s, p, a);
      } else {
        UnmountSurvives(s, p, a);
      }
    }
  }

  lemma LockSurvives(s: Sys, p: Pid, a: Answer)
    requires p in s.procs && p in s.roles && Surviving(s)
    ensures Surviving(LockStep(s, p, a))
  {
    hide SetProc, Goto;
  }

  lemma MountSurvives(s: Sys, p: Pid, a: Answer)
    requires p in s.procs && p in s.roles && s.roles[p].Mounter? && Surviving(s)
    ensures Surviving(MountStep(s, p, a))
  {
    hide SetProc, Goto;
  }

  lemma UnmountSurvives(s: Sys, p: Pid, a: Answer)
    requires p in s.procs && p in s.roles && s.roles[p].Unmounter? && Surviving(s)
    ensures Surviving(UnmountStep(s, p, a))
  {
    hide SetProc, Goto;
    var s' := UnmountStep(s, p, a);
    assert s'.procs.Keys == s.procs.Keys && forall q :: q in s.procs && q != p ==> s'.procs[q] == s.procs[q];
    assert !IsLost(s'.procs[p].pc) by {
      assert !IsLost(s.procs[p].pc);
    }
    hide UnmountStep;
  }

  /** A process killed while it holds the lock leaves it for good: nobody gets in any more. */
  lemma {:induction false} LostHolderBlocks(s: Sys, p: Pid, schedule: seq<(Pid, Answer)>)
    requires Inv(s) && p in s.procs && s.procs[p] == Proc(Done(Lost), true)
    ensures var t := Run(s, schedule);
            && t.lock && t.mtab == s.mtab && t.acquired == s.acquired
            && p in t.procs && t.procs[p] == s.procs[p]
            && forall q :: q in t.procs && Inside(t.procs[q].pc) ==> q == p
    decreases |schedule|
  {
    hide ProcOk, Replay;
    HolderIsAlone(s, p);
    if schedule != [] {
      var (q, a) := schedule[0];
      var s' := Step(s, q, a);
      StepKeepsInv(s, q, a);
      if q in s.procs {
        InsideFacts(s, q);
        StepFair(s, q, a);
      }
      hide Step;
      assert q != p ==> s' == s || (s'.lock && s'.mtab == s.mtab && s'.acquired == s.acquired);
      LostHolderBlocks(s', p, schedule[1..]);
    }
  }

  lemma HolderIsAlone(s: Sys, p: Pid)
    requires Inv(s) && p in s.procs && s.procs[p].weCreated
    ensures s.lock && forall q :: q in s.procs && q != p ==> !s.procs[q].weCreated && !Inside(s.procs[q].pc)
  {
    hide SectionData, Replay;
    assert forall q :: q in s.procs ==> ProcOk(s, q);
  }

  /** And it happens: one mounter, killed as soon as it has the lock. */
  lemma KillLeavesLock(e: Entry)
    ensures var s0 := Sys(map[0 := Mounter(e)], map[0 := Proc(Start, false)], false, {}, [], [], [], [], {});
            && Initial(s0)
            && Run(s0, [(0, Works), (0, Works), (0, Kill)]).lock
            && Run(s0, [(0, Works), (0, Works), (0, Kill)]).procs[0] == Proc(Done(Lost), true)
  {
  }
}
