/**
 * What the mtab protocol achieves: an update whose calls all work is made, and one that fails leaves
 * the table alone.
 */
module MtabProgress {
  import opened MtabTable
  import opened MtabProtocol

  /** Ended, or about to end, with anything but success. */
  predicate Failing(pc: Pc) {
    Ended(pc) && pc.rc != Success
  }

  /** The table with one more entry at its end, or without the last entry of a mount point. */
  function Updated(table: seq<Entry>, role: Role): seq<Entry> {
    if role.Mounter? then table + [role.entry] else RemoveLast(table, role.dir)
  }

  /** Nobody but `p` holds the lock. */
  ghost predicate NobodyElse(s: Sys, p: Pid) {
    forall q :: q in s.procs && q != p ==> !s.procs[q].weCreated
  }

  ghost predicate Going(s: Sys, p: Pid) {
    && Inv(s) && NobodyElse(s, p)
    && p in s.procs && p in s.roles && !s.procs[p].pc.Done? && !Failing(s.procs[p].pc)
  }

  /** The calls `p` still has to make when it is alone and they all work, with `n` entries in the table. */
  function CallsLeft(pc: Pc, role: Role, n: nat): nat {
    var section := if role.Mounter? then 4 else 8 + 2 * n;
    match pc
    case Start => section + 4
    case Wait => section + 4
    case OpenLock(linked) => section + (if linked then 2 else 4)
    case Link => section + 3
    case Claim => section + 1
    case OpenAppend => 4
    case Append => 3
    case OpenOrg => 8 + 2 * n
    case OpenTemp => 7 + 2 * n
    case Count(i, num) => 6 + n + (if i < n then n - i else 0)
    case Reopen(num) => 5 + n
    case CopyEntry(i, num) => 4 + (if i < n then n - i else 0)
    case Rename => 3
    case Release(rc) => 2
    case Exit(rc) => 1
    case Done(rc) => 0
  }

  /** One call that works: the next one comes, or success. */
  ghost predicate Advances(s: Sys, s': Sys, p: Pid)
    requires p in s.procs && p in s.roles
  {
    && p in s'.procs && s'.roles == s.roles && !Failing(s'.procs[p].pc)
    && CallsLeft(s'.procs[p].pc, s.roles[p], |s'.mtab|) == CallsLeft(s.procs[p].pc, s.roles[p], |s.mtab|) - 1
  }

  lemma LockAdvances(s: Sys, p: Pid)
    requires p in s.procs && p in s.roles && ProcOk(s, p) && (Outside(s.procs[p].pc) ==> !s.lock)
    requires var pc := s.procs[p].pc; pc.Start? || pc.Link? || pc.OpenLock? || pc.Claim? || pc.Wait?
    ensures Advances(s, LockStep(s, p, Works), p)
  {
    hide SetProc, Goto, SectionData;
  }

  lemma MountAdvances(s: Sys, p: Pid)
    requires p in s.procs && p in s.roles && s.roles[p].Mounter?
    requires s.procs[p].pc.OpenAppend? || s.procs[p].pc.Append?
    ensures Advances(s, MountStep(s, p, Works), p)
  {
    hide SetProc, Goto;
  }

  lemma UnmountAdvances(s: Sys, p: Pid)
    requires p in s.procs && p in s.roles && s.roles[p].Unmounter?
    requires SectionData(s.procs[p].pc, s.roles[p], s.mtab, s.temp)
    requires InSection(s.procs[p].pc) && !Ended(s.procs[p].pc)
    ensures Advances(s, UnmountStep(s, p, Works), p)
  {
    hide UnmountStep, Advances, CallsLeft, RemoveLast, CountMatches, CopyPass;
    if s.procs[p].pc.Count? || s.procs[p].pc.CopyEntry? {
      PassAdvances(s, p);
    } else {
      UnmountCallAdvances(s, p);
    }
  }

  lemma PassAdvances(s: Sys, p: Pid)
    requires p in s.procs && p in s.roles && s.roles[p].Unmounter?
    requires (s.procs[p].pc.Count? || s.procs[p].pc.CopyEntry?) && s.procs[p].pc.i <= |s.mtab|
    ensures Advances(s, UnmountStep(s, p, Works), p)
  {
    hide SetProc, Goto;
  }

  lemma UnmountCallAdvances(s: Sys, p: Pid)
    requires p in s.procs && p in s.roles && s.roles[p].Unmounter?
    requires var pc := s.procs[p].pc; pc.OpenOrg? || pc.OpenTemp? || pc.Reopen? || pc.Rename?
    ensures Advances(s, UnmountStep(s, p, Works), p)
  {
    hide SetProc, Goto;
  }

  lemma StepAdvances(s: Sys, p: Pid)
    requires p in s.procs && p in s.roles && ProcOk(s, p) && !s.procs[p].pc.Done? && !Failing(s.procs[p].pc)
    requires Outside(s.procs[p].pc) ==> !s.lock
    ensures Advances(s, Step(s, p, Works), p)
  {
    hide LockStep, MountStep, UnmountStep, Goto, SetProc, RemoveLast, CountMatches, CopyPass;
    var pc := s.procs[p].pc;
    if pc.Release? || pc.Exit? {
    } else if pc.Start? || pc.Link? || pc.OpenLock? || pc.Claim? || pc.Wait? {
      LockAdvances(s, p);
    } else if s.roles[p].Mounter? {
      MountAdvances(s, p);
    } else {
      UnmountAdvances(s, p);
    }
  }

  /** What one working call of `p` does to the table and to everyone else. */
  lemma AloneStep(s: Sys, p: Pid)
    requires Going(s, p)
    ensures var s' := Step(s, p, Works);
            && Inv(s') && NobodyElse(s', p) && Advances(s, s', p)
            && s'.procs.Keys == s.procs.Keys && (forall q :: q in s.procs && q != p ==> s'.procs[q] == s.procs[q])
            && (if p in s.committed || p !in s'.committed then
                  s'.mtab == s.mtab && (p in s.committed <==> p in s'.committed)
                else s'.mtab == Apply(s.roles[p], s.mtab))
  {
    var s' := Step(s, p, Works);
    StepKeepsInv(s, p, Works);
    GoingAdvances(s, p);
    GoingIsFair(s, p);
    hide Step, Inv, Advances, NobodyElse, Fair;
    FairAlone(s, s', p);
  }

  lemma GoingAdvances(s: Sys, p: Pid)
    requires Going(s, p)
    ensures Advances(s, Step(s, p, Works), p)
  {
    assert ProcOk(s, p);
    LockFreeOutside(s, p);
    InsideFacts(s, p);
    OutsideFacts(s, p);
    hide Step, Inv, Advances, NobodyElse, ProcOk;
    StepAdvances(s, p);
  }

  lemma OutsideFacts(s: Sys, p: Pid)
    requires p in s.procs && p in s.roles && ProcOk(s, p)
    ensures Outside(s.procs[p].pc) ==> !s.procs[p].weCreated
  {
    hide SectionData;
  }

  lemma GoingIsFair(s: Sys, p: Pid)
    requires Going(s, p)
    ensures var s' := Step(s, p, Works);
            && Fair(s, s', p) && p in s'.procs
            && (p !in s.committed && p in s'.committed ==> s'.mtab == Apply(s.roles[p], s.mtab))
  {
    assert ProcOk(s, p);
    InsideFacts(s, p);
    hide Step, Inv, NobodyElse, ProcOk, Fair;
    StepFair(s, p, Works);
    StepSelf(s, p, Works);
  }

  lemma FairAlone(s: Sys, s': Sys, p: Pid)
    requires p in s.procs && p in s.roles && NobodyElse(s, p) && Fair(s, s', p)
    requires p !in s.committed && p in s'.committed ==> s'.mtab == Apply(s.roles[p], s.mtab)
    ensures NobodyElse(s', p)
    ensures s'.procs.Keys == s.procs.Keys && (forall q :: q in s.procs && q != p ==> s'.procs[q] == s.procs[q])
    ensures if p in s.committed || p !in s'.committed then
              s'.mtab == s.mtab && (p in s.committed <==> p in s'.committed)
            else s'.mtab == Apply(s.roles[p], s.mtab)
  {
    if p in s.committed {
      assert s.committed + {p} == s.committed;
    }
  }

  lemma LockFreeOutside(s: Sys, p: Pid)
    requires Inv(s) && NobodyElse(s, p) && p in s.procs
    ensures !s.procs[p].weCreated ==> !s.lock
  {
    hide ProcOk, Replay;
  }

  lemma DoneFacts(s: Sys, p: Pid)
    requires p in s.procs && Inv(s) && NobodyElse(s, p) && s.procs[p].pc == Done(Success)
    ensures !s.lock && p in s.committed
  {
    hide SectionData, Replay;
    assert ProcOk(s, p);
  }

  /** `n` calls of `p` that work. */
  function Working(p: Pid, n: nat): (calls: seq<(Pid, Answer)>)
    ensures |calls| == n && forall k :: 0 <= k < n ==> calls[k] == (p, Works)
  {
    seq(n, _ => (p, Works))
  }

  lemma OneCall(s: Sys, p: Pid, n: nat)
    ensures Run(s, Working(p, 0)) == s
    ensures Run(s, Working(p, n + 1)) == Run(Step(s, p, Works), Working(p, n))
  {
    assert Working(p, n + 1)[1..] == Working(p, n);
    hide Step;
  }

  /** An update on its own, when all its calls work: it is made, it succeeds, and the lock is free again. */
  lemma {:induction false} AloneSucceeds(s: Sys, p: Pid)
    requires p in s.procs && p in s.roles && Inv(s) && NobodyElse(s, p) && !Failing(s.procs[p].pc)
    ensures var t := Run(s, Working(p, CallsLeft(s.procs[p].pc, s.roles[p], |s.mtab|)));
            && p in t.procs && t.procs[p].pc == Done(Success) && !t.lock
            && t.mtab == (if p in s.committed then s.mtab else Updated(s.mtab, s.roles[p]))
            && forall q :: q in s.procs && q != p ==> q in t.procs && t.procs[q] == s.procs[q]
    decreases CallsLeft(s.procs[p].pc, s.roles[p], |s.mtab|)
  {
    hide CallsLeft, Apply, Updated, Failing, Run, Working;
    var n := CallsLeft(s.procs[p].pc, s.roles[p], |s.mtab|);
    NothingLeft(s, p);
    if n == 0 {
      OneCall(s, p, 0);
    } else {
      AloneStep(s, p);
      var s' := Step(s, p, Works);
      OneCall(s, p, n - 1);
      hide Step, Inv, NobodyElse;
      AppliedIsUpdated(s.mtab, s.roles[p]);
      AloneSucceeds(s', p);
    }
  }

  lemma AppliedIsUpdated(table: seq<Entry>, role: Role)
    ensures Apply(role, table) == Updated(table, role)
  {
  }

  /** No call is left exactly when the update is done. */
  lemma NothingLeft(s: Sys, p: Pid)
    requires p in s.procs && p in s.roles && Inv(s) && NobodyElse(s, p) && !Failing(s.procs[p].pc)
    ensures CallsLeft(s.procs[p].pc, s.roles[p], |s.mtab|) == 0 ==>
              s.procs[p].pc == Done(Success) && !s.lock && p in s.committed
    ensures CallsLeft(s.procs[p].pc, s.roles[p], |s.mtab|) > 0 ==> Going(s, p)
  {
    if s.procs[p].pc.Done? {
      DoneFacts(s, p);
    }
    hide Inv, NobodyElse;
  }

  /**
   * From any reachable state in which the lock is free, or already this process's: an update that has
   * not failed yet is made when it gets to run and its calls work. It may have been waiting before.
   */
  lemma UpdateIsMade(s0: Sys, schedule: seq<(Pid, Answer)>, p: Pid)
    requires Initial(s0) && p in s0.procs
    requires var s := Run(s0, schedule);
             && p in s.procs && (s.lock ==> s.procs[p].weCreated) && !Failing(s.procs[p].pc)
    ensures var s := Run(s0, schedule);
            exists calls: seq<(Pid, Answer)> :: (forall k :: 0 <= k < |calls| ==> calls[k] == (p, Works)) &&
              var t := Run(s, calls);
              && p in t.procs && t.procs[p].pc == Done(Success) && !t.lock
              && t.mtab == (if p in s.committed then s.mtab else Updated(s.mtab, s0.roles[p]))
  {
    var s := Run(s0, schedule);
    InitialInv(s0);
    RunKeepsInv(s0, schedule);
    RunKeepsConstants(s0, schedule);
    NobodyElseIf(s, p);
    hide Run, Inv;
    AloneSucceeds(s, p);
    var calls := Working(p, CallsLeft(s.procs[p].pc, s.roles[p], |s.mtab|));
    assert forall k :: 0 <= k < |calls| ==> calls[k] == (p, Works);
  }

  lemma NobodyElseIf(s: Sys, p: Pid)
    requires Inv(s) && p in s.procs && (s.lock ==> s.procs[p].weCreated)
    ensures NobodyElse(s, p) && p in s.roles
  {
    hide SectionData, Replay;
    assert forall q :: q in s.procs ==> ProcOk(s, q);
  }

  /** An update fails only if some call of its own fails, times out or is interrupted. */
  lemma {:induction false} FailureHasACause(s: Sys, schedule: seq<(Pid, Answer)>, p: Pid)
    requires Inv(s) && p in s.procs && !Failing(s.procs[p].pc)
    requires forall k :: 0 <= k < |schedule| && schedule[k].0 == p ==> schedule[k].1 == Works
    ensures p in Run(s, schedule).procs && !Failing(Run(s, schedule).procs[p].pc)
    decreases |schedule|
  {
    if schedule != [] {
      var (q, a) := schedule[0];
      var s' := Step(s, q, a);
      assert ProcOk(s, p);
      StepKeepsInv(s, q, a);
      if q == p {
        WorkingCall(s, p);
      } else if q in s.procs {
        InsideFacts(s, q);
        StepFair(s, q, a);
      }
      hide Step, Inv;
      assert forall k :: 0 <= k < |schedule[1..]| ==> schedule[1..][k] == schedule[k + 1];
      FailureHasACause(s', schedule[1..], p);
    }
  }

  lemma WorkingCall(s: Sys, p: Pid)
    requires p in s.procs && p in s.roles && ProcOk(s, p) && !Failing(s.procs[p].pc)
    ensures p in Step(s, p, Works).procs && !Failing(Step(s, p, Works).procs[p].pc)
  {
    hide LockStep, MountStep, UnmountStep, Goto, SetProc, SectionData, CallsLeft;
    var pc := s.procs[p].pc;
    if pc.Done? || pc.Release? || pc.Exit? {
    } else if pc.Start? || pc.Link? || pc.OpenLock? || pc.Claim? || pc.Wait? {
      WorkingLockCall(s, p);
    } else if s.roles[p].Mounter? {
      WorkingMountCall(s, p);
    } else {
      WorkingUnmountCall(s, p);
    }
  }

  lemma WorkingLockCall(s: Sys, p: Pid)
    requires p in s.procs && p in s.roles && ProcOk(s, p) && !Failing(s.procs[p].pc)
    ensures p in LockStep(s, p, Works).procs && !Failing(LockStep(s, p, Works).procs[p].pc)
  {
    hide SetProc, Goto, SectionData;
  }

  lemma WorkingMountCall(s: Sys, p: Pid)
    requires p in s.procs && p in s.roles && s.roles[p].Mounter? && !Failing(s.procs[p].pc)
    ensures p in MountStep(s, p, Works).procs && !Failing(MountStep(s, p, Works).procs[p].pc)
  {
    hide SetProc, Goto;
  }

  lemma WorkingUnmountCall(s: Sys, p: Pid)
    requires p in s.procs && p in s.roles && s.roles[p].Unmounter? && !Failing(s.procs[p].pc)
    ensures p in UnmountStep(s, p, Works).procs && !Failing(UnmountStep(s, p, Works).procs[p].pc)
  {
    hide SetProc, Goto;
  }

  /** The calls whose failure the code notices. */
  predicate Checked(pc: Pc) {
    || pc.Start? || pc.Link? || pc.OpenLock? || pc.Wait? || pc.OpenAppend? || pc.Append?
    || pc.OpenOrg? || pc.OpenTemp? || pc.Reopen? || pc.Rename?
  }

  /** When one of those fails, the update fails, and the table stays as it is. */
  lemma FailedCallFails(s: Sys, p: Pid)
    requires p in s.procs && p in s.roles && ProcOk(s, p) && Checked(s.procs[p].pc)
    ensures var s' := Step(s, p, Fails);
            && p in s'.procs && s'.procs[p].pc in {Exit(Failure), Release(Failure)}
            && s'.mtab == s.mtab && s'.committed == s.committed
  {
    hide LockStep, MountStep, UnmountStep, Goto, SetProc, RemoveLast, CountMatches, CopyPass;
    var pc := s.procs[p].pc;
    if pc.Start? || pc.Link? || pc.OpenLock? || pc.Wait? {
      FailedLockCall(s, p);
    } else if pc.OpenAppend? || pc.Append? {
      FailedMountCall(s, p);
    } else {
      FailedUnmountCall(s, p);
    }
  }

  lemma FailedLockCall(s: Sys, p: Pid)
    requires p in s.procs && p in s.roles
    requires var pc := s.procs[p].pc; pc.Start? || pc.Link? || pc.OpenLock? || pc.Wait?
    ensures var s' := LockStep(s, p, Fails);
            p in s'.procs && s'.procs[p].pc == Exit(Failure) && s'.mtab == s.mtab && s'.committed == s.committed
  {
    hide SetProc, Goto;
  }

  lemma FailedMountCall(s: Sys, p: Pid)
    requires p in s.procs && p in s.roles && s.roles[p].Mounter?
    requires s.procs[p].pc.OpenAppend? || s.procs[p].pc.Append?
    ensures var s' := MountStep(s, p, Fails);
            p in s'.procs && s'.procs[p].pc == Release(Failure) && s'.mtab == s.mtab && s'.committed == s.committed
  {
    hide SetProc, Goto;
  }

  lemma FailedUnmountCall(s: Sys, p: Pid)
    requires p in s.procs && p in s.roles && s.roles[p].Unmounter?
    requires var pc := s.procs[p].pc; pc.OpenOrg? || pc.OpenTemp? || pc.Reopen? || pc.Rename?
    ensures var s' := UnmountStep(s, p, Fails);
            p in s'.procs && s'.procs[p].pc == Release(Failure) && s'.mtab == s.mtab && s'.committed == s.committed
  {
    hide SetProc, Goto;
  }

  /** After the 30 seconds a process without the lock gives up, instead of waiting or trying again. */
  lemma TimeUpFails(s: Sys, p: Pid)
    requires p in s.procs && p in s.roles && (s.procs[p].pc.Wait? || (s.procs[p].pc == OpenLock(false) && !s.lock))
    ensures Step(s, p, TimeUp).procs[p].pc == Exit(Failure) && Step(s, p, TimeUp).mtab == s.mtab
  {
  }

  /** The next call of a process that finds the lock taken. */
  function NextCall(pc: Pc): Pc {
    match pc
    case Link => OpenLock(false)
    case OpenLock(linked) => Wait
    case _ => Link
  }

  predicate Waiting(s: Sys, p: Pid) {
    && p in s.procs && p in s.roles && p in s.targets && s.lock
    && (s.procs[p].pc.Link? || s.procs[p].pc == OpenLock(false) || s.procs[p].pc.Wait?)
  }

  /** While the lock is taken, a process tries, opens the lock file and waits, and changes nothing else. */
  lemma WaitingCall(s: Sys, p: Pid)
    requires Waiting(s, p)
    ensures Step(s, p, Works) == s.(procs := s.procs[p := Proc(NextCall(s.procs[p].pc), s.procs[p].weCreated)])
    ensures Waiting(Step(s, p, Works), p)
  {
  }

  /** So it goes round in three calls. */
  lemma WaitingGoesRound(s: Sys, p: Pid)
    requires Waiting(s, p)
    ensures Step(Step(Step(s, p, Works), p, Works), p, Works) == s
  {
    hide Step;
    var s1 := Step(s, p, Works);
    var s2 := Step(s1, p, Works);
    WaitingCall(s, p);
    WaitingCall(s1, p);
    WaitingCall(s2, p);
    assert Step(s2, p, Works).procs == s.procs;
  }

  /** A signal that is caught ends the update at once, wherever it is; the table stays as it is. */
  lemma SignalEnds(s: Sys, p: Pid)
    requires p in s.procs && p in s.roles && !s.procs[p].pc.Exit? && !s.procs[p].pc.Done?
    ensures var s' := Step(s, p, Signal);
            && p in s'.procs && s'.procs[p] == Proc(Exit(Killed), s.procs[p].weCreated)
            && s'.mtab == s.mtab && s'.committed == s.committed && s'.lock == s.lock
  {
  }

  /** Unlocking, after the section or in the exit handler, frees the lock if it is this process's. */
  lemma UnlockFrees(s: Sys, p: Pid, a: Answer)
    requires p in s.procs && p in s.roles && a != Kill
    requires s.procs[p].pc.Exit? || (s.procs[p].pc.Release? && a != Signal)
    ensures var s' := Step(s, p, a);
            && p in s'.procs && !s'.procs[p].weCreated && s'.lock == (s.lock && !s.procs[p].weCreated)
            && s'.procs[p].pc == (if s.procs[p].pc.Exit? then Done(s.procs[p].pc.rc) else Exit(s.procs[p].pc.rc))
  {
  }

  /** rename() moves the temporary file over the table. */
  lemma RenameMoves(s: Sys, p: Pid)
    requires p in s.procs && p in s.roles && s.roles[p].Unmounter? && s.procs[p].pc.Rename?
    ensures Step(s, p, Works).mtab == s.temp && Step(s, p, Works).temp == []
  {
  }
}
