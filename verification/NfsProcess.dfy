/** One process whose downgrades to SHARED are staged, as they are on NFS.

The process is that of `PosixFile`, except that the one call which turns the lock on the shared range
into a read-lock is three calls.  `held` is what the kernel has.  `asif` is what it would have if that
were one call; everything `PosixFileInv` says of a process holds of it.  The two differ on the shared
range only, and `cut` says when they differ on its last byte. */
module NfsProcess {
  import opened PosixOs
  import opened LockLevels
  import opened PosixFile
  import opened PosixFileInv
  import opened PosixFileClose
  import opened NfsDowngrade
  import PosixSystem

  /** `stage` counts the staged calls that have succeeded; `cut` is set by the third of them, and cleared
  when the process next locks or unlocks the whole range, or loses all its locks to a close. */
  datatype NfsProc = NfsProc(p: Proc, stage: nat, held: Held, asif: Held, cut: bool)

  function FreshNfs(excl: bool): NfsProc {
    NfsProc(FreshProc(excl), 0, NO_LOCKS, NO_LOCKS, false)
  }

  predicate Staging(n: NfsProc) {
    n.p.pc.UlReadAll?
  }

  function NfsIssued(n: NfsProc): Request {
    if Staging(n) && n.stage < 3 then UnixFileLock(n.p, SetLk(Stage(n.stage).0, Stage(n.stage).1)) else Issued(n.p)
  }

  predicate NfsEnabled(n: NfsProc, l: Label) {
    if l.Call? && Staging(n) then n.stage < 3 && PcValid(n.p) && (NfsIssued(n).NoRequest? ==> l.ok)
    else Enabled(n.p, l)
  }

  /** The kernel's locks after the request. */
  function Obeyed(h: Held, r: Request): Held {
    if r.SetLk? then Apply(h, r.range, r.mode) else h
  }

  /** The code after one of the three calls.  The third leads where the one call of `PosixFile` does. */
  function StagedCall(n: NfsProc, ok: bool): NfsProc
    requires Staging(n) && n.stage < 3 && PcValid(n.p)
  {
    if !ok then
      n.(p := AfterCall(n.p, false), stage := 0)
    else if n.stage < 2 then
      var p := if n.p.excl && !n.p.processLock then n.p.(processLock := true, nLock := n.p.nLock + 1) else n.p;
      n.(p := p, stage := n.stage + 1, held := Obeyed(n.held, NfsIssued(n)))
    else
      NfsProc(AfterCall(n.p, true), 0, Obeyed(n.held, NfsIssued(n)), StepHeld(n.p, n.asif, Call(true)),
        n.cut || NfsIssued(n) == SetLk(SharedTail, Unlocked))
  }

  /** The process locks or unlocks the whole shared range, or drops every lock by closing a descriptor. */
  predicate ResetsRange(p: Proc, l: Label)
    requires Enabled(p, l)
  {
    || (l == Call(true) && Issued(p).SetLk? && (Issued(p).range == SharedRange || Issued(p).range == WholeFile))
    || StepProc(p, l).closed - p.closed != {}
  }

  function NfsStep(n: NfsProc, l: Label): NfsProc
    requires NfsEnabled(n, l)
  {
    if l.Call? && Staging(n) then StagedCall(n, l.ok)
    else
      NfsProc(StepProc(n.p, l), n.stage, StepHeld(n.p, n.held, l), StepHeld(n.p, n.asif, l),
        n.cut && !ResetsRange(n.p, l))
  }

  // ---------------------------------------------------------------- what every step keeps

  ghost predicate SameButCut(n: NfsProc) {
    if n.p.excl then n.held == n.asif && !n.cut
    else
      && n.held.pending == n.asif.pending && n.held.reserved == n.asif.reserved
      && n.held.tail == if n.cut then Unlocked else n.asif.tail
  }

  /** Ahead of the third call, and of the fourth, all but the last byte of the range is read-locked. */
  ghost predicate MidDowngrade(n: NfsProc) {
    && (n.stage == 2 && !n.p.excl ==> n.held.head == ReadLock)
    && (Dropping(n) && !n.p.excl ==> n.cut && n.held.head == ReadLock)
  }

  /** The fourth call of a downgrade is about to be issued. */
  predicate Dropping(n: NfsProc) {
    n.p.pc.UlPendingReserved? && n.p.pc.target == SHARED_LOCK
  }

  ghost predicate NfsInv(n: NfsProc) {
    && ProcInv(n.p, n.asif)
    && n.stage < 3 && (n.stage > 0 ==> Staging(n))
    && SameButCut(n) && MidDowngrade(n)
  }

  lemma FreshNfsInv(excl: bool)
    ensures NfsInv(FreshNfs(excl))
  {
    FreshProcInv(excl);
    hide ProcInv;
  }

  /** What a process above SHARED has. */
  lemma DowngradeFacts(p: Proc, h: Held)
    requires ProcInv(p, h) && p.pc.UlReadAll?
    ensures PcValid(p) && (p.excl ==> p.processLock) && (!p.excl ==> !p.processLock)
    ensures p.nShared > 0 && h.tail != Unlocked && p.il > SHARED_LOCK
    ensures Enabled(p, Call(true)) && AfterCall(p, true).closed == p.closed == AfterCall(p, false).closed
    ensures p.excl ==> StepHeld(p, h, Call(true)) == h
    ensures !p.excl ==> StepHeld(p, h, Call(true)) == h.(head := ReadLock, tail := ReadLock)
  {
    PosixSystem.ProcFacts(p, h);
    ReadAllFrame(p);
  }

  lemma ReadAllFrame(p: Proc)
    requires p.pc.UlReadAll? && PcValid(p)
    ensures AfterCall(p, true).closed == p.closed == AfterCall(p, false).closed
    ensures AfterCall(p, true).excl == p.excl == AfterCall(p, false).excl
  {
  }

  lemma StagedCallKeeps(n: NfsProc, ok: bool)
    requires NfsInv(n) && Staging(n) && NfsEnabled(n, Call(ok))
    ensures NfsInv(StagedCall(n, ok))
  {
    if !ok {
      FailedStage(n);
    } else if n.stage == 2 {
      LastStage(n);
    } else {
      DowngradeFacts(n.p, n.asif);
      hide ProcInv;
    }
  }

  lemma LastStage(n: NfsProc)
    requires NfsInv(n) && Staging(n) && NfsEnabled(n, Call(true)) && n.stage == 2
    ensures NfsInv(StagedCall(n, true))
  {
    DowngradeFacts(n.p, n.asif);
    ReadAllFrame(n.p);
    StepKeeps(n.p, n.asif, Call(true));
    hide ProcInv, AfterCall, StepHeld;
    assert StepProc(n.p, Call(true)) == AfterCall(n.p, true);
  }

  lemma FailedStage(n: NfsProc)
    requires NfsInv(n) && Staging(n) && NfsEnabled(n, Call(false))
    ensures NfsInv(StagedCall(n, false))
  {
    DowngradeFacts(n.p, n.asif);
    ReadAllFrame(n.p);
    assert Enabled(n.p, Call(false));
    StepKeeps(n.p, n.asif, Call(false));
    hide ProcInv, AfterCall;
    assert StepProc(n.p, Call(false)) == AfterCall(n.p, false);
    assert StepHeld(n.p, n.asif, Call(false)) == n.asif;
  }

  lemma StepKeepsExcl(p: Proc, l: Label)
    requires Enabled(p, l)
    ensures StepProc(p, l).excl == p.excl
  {
    if l.Call? {
      CallKeepsExcl(p, l.ok);
    } else {
      hide AfterCall;
    }
  }

  lemma CallKeepsExcl(p: Proc, ok: bool)
    requires !p.pc.Idle? && PcValid(p)
    ensures AfterCall(p, ok).excl == p.excl
  {
    if p.pc.UlReadAll? {
      ReadAllFrame(p);
    } else if p.pc.UlPendingReserved? {
      DroppingKeepsExcl(p, ok);
    } else if p.pc.UlWholeFile? {
      WholeFileKeepsExcl(p, ok);
    }
  }

  lemma DroppingKeepsExcl(p: Proc, ok: bool)
    requires p.pc.UlPendingReserved? && PcValid(p)
    ensures AfterCall(p, ok).excl == p.excl
  {
  }

  lemma WholeFileKeepsExcl(p: Proc, ok: bool)
    requires p.pc.UlWholeFile? && PcValid(p)
    ensures AfterCall(p, ok).excl == p.excl
  {
  }

  /** A step of `PosixFile` changes both tables alike, outside the part where they may differ. */
  lemma StepKeepsSame(n: NfsProc, l: Label)
    requires SameButCut(n) && Enabled(n.p, l) && !(l.Call? && Staging(n))
    ensures SameButCut(NfsStep(n, l))
  {
    StepKeepsExcl(n.p, l);
    hide StepProc, Enabled;
  }

  /** Only a staged call leads to the fourth one; beside it, only a sibling may record its level. */
  lemma NoOtherWayToDrop(p: Proc, l: Label)
    requires Enabled(p, l) && !(l.Call? && p.pc.UlReadAll?)
    ensures var t := StepProc(p, l);
      t.pc.UlPendingReserved? && t.pc.target == SHARED_LOCK ==> l.WriteLevel? && t.pc == p.pc
    ensures !p.pc.Idle? && !l.Call? ==> l.WriteLevel? && StepProc(p, l).pc == p.pc
  {
    if l.Call? {
      NoOtherCallToDrop(p, l.ok);
    } else {
      hide AfterCall;
    }
  }

  lemma NoOtherCallToDrop(p: Proc, ok: bool)
    requires !p.pc.Idle? && PcValid(p) && !p.pc.UlReadAll?
    ensures !AfterCall(p, ok).pc.UlPendingReserved?
  {
    if p.pc.UlPendingReserved? {
      DroppingEnds(p, ok);
    } else if p.pc.UlWholeFile? {
      WholeFileEnds(p, ok);
    }
  }

  lemma DroppingEnds(p: Proc, ok: bool)
    requires p.pc.UlPendingReserved? && PcValid(p)
    ensures !AfterCall(p, ok).pc.UlPendingReserved?
  {
  }

  lemma WholeFileEnds(p: Proc, ok: bool)
    requires p.pc.UlWholeFile? && PcValid(p)
    ensures !AfterCall(p, ok).pc.UlPendingReserved?
  {
  }

  lemma DroppingClosesNothing(p: Proc, ok: bool)
    requires p.pc.UlPendingReserved? && PcValid(p)
    ensures AfterCall(p, ok).closed == p.closed
  {
  }

  lemma StepKeepsMid(n: NfsProc, l: Label)
    requires MidDowngrade(n) && (n.stage > 0 ==> Staging(n)) && Enabled(n.p, l) && !(l.Call? && Staging(n))
    ensures MidDowngrade(NfsStep(n, l))
    ensures n.stage > 0 ==> Staging(NfsStep(n, l))
  {
    NoOtherWayToDrop(n.p, l);
    StepKeepsExcl(n.p, l);
    if l.WriteLevel? {
      assert StepProc(n.p, l).closed == n.p.closed;
    }
    hide StepProc, Enabled;
  }

  /** Every step keeps the invariant of the process. */
  lemma NfsStepKeeps(n: NfsProc, l: Label)
    requires NfsInv(n) && NfsEnabled(n, l)
    ensures NfsInv(NfsStep(n, l))
  {
    if l.Call? && Staging(n) {
      StagedCallKeeps(n, l.ok);
    } else {
      StepKeepsSame(n, l);
      StepKeepsMid(n, l);
      StepKeeps(n.p, n.asif, l);
      hide ProcInv, StepProc, StepHeld, SameButCut, MidDowngrade, Enabled, ResetsRange, Staging;
    }
  }

  // ---------------------------------------------------------------- the downgrade

  /** What the process is after n of the four calls of a downgrade have succeeded. */
  ghost function Downgraded(n: NfsProc, k: nat): NfsProc
    requires NfsInv(n) && Staging(n) && n.stage == 0 && !n.p.excl && k <= 4
  {
    DowngradeFacts(n.p, n.asif);
    var c := n.p.pc.c;
    var low := n.p.(pc := UlPendingReserved(c, SHARED_LOCK));
    var read := n.asif.(head := ReadLock, tail := ReadLock);
    if k < 3 then n.(stage := k, held := HeldAfter(n.held, k))
    else if k == 3 then NfsProc(low, 0, HeldAfter(n.held, 3), read, true)
    else
      var k := Returned(n.p.conns[c].(eff := SHARED_LOCK), SHARED_LOCK);
      var released := SetConn(n.p, c, k).(il := SHARED_LOCK, pc := Idle);
      NfsProc(released, 0, HeldAfter(n.held, 4), read.(pending := Unlocked, reserved := Unlocked), true)
  }

  /** Each of the calls leads from one to the next, and asks for what the stage says. */
  lemma DowngradeSteps(n: NfsProc, k: nat)
    requires NfsInv(n) && Staging(n) && n.stage == 0 && !n.p.excl && k < 4
    ensures var d := Downgraded(n, k);
      && NfsEnabled(d, Call(true)) && NfsIssued(d) == SetLk(Stage(k).0, Stage(k).1)
      && NfsStep(d, Call(true)) == Downgraded(n, k + 1)
  {
    DowngradeFacts(n.p, n.asif);
    if k < 3 {
      DowngradeStaged(n, k);
    } else {
      DowngradeLast(n);
    }
  }

  lemma DowngradeStaged(n: NfsProc, k: nat)
    requires NfsInv(n) && Staging(n) && n.stage == 0 && !n.p.excl && k < 3
    ensures var d := Downgraded(n, k);
      && NfsEnabled(d, Call(true)) && NfsIssued(d) == SetLk(Stage(k).0, Stage(k).1)
      && NfsStep(d, Call(true)) == Downgraded(n, k + 1)
  {
    DowngradeFacts(n.p, n.asif);
    hide ProcInv, StepHeld;
    assert AfterCall(n.p, true) == n.p.(pc := UlPendingReserved(n.p.pc.c, SHARED_LOCK));
  }

  lemma DowngradeLast(n: NfsProc)
    requires NfsInv(n) && Staging(n) && n.stage == 0 && !n.p.excl
    ensures var d := Downgraded(n, 3);
      && NfsEnabled(d, Call(true)) && NfsIssued(d) == SetLk(Stage(3).0, Stage(3).1)
      && NfsStep(d, Call(true)) == Downgraded(n, 4)
  {
    DowngradeFacts(n.p, n.asif);
    hide ProcInv;
    var d := Downgraded(n, 3);
    assert AfterCall(d.p, true) == Downgraded(n, 4).p;
  }

  /** In a downgrade no other process can write-lock the shared range, at whichever call it stops,
  exactly when the last byte of the range has not been given up since the range was last locked. */
  lemma WindowFreeIffUncut(n: NfsProc)
    requires NfsInv(n) && Staging(n) && n.stage == 0 && !n.p.excl
    ensures (forall k: nat :: k <= 4 ==> !Window(HeldAfter(n.held, k))) <==> !n.cut
  {
    DowngradeFacts(n.p, n.asif);
    hide ProcInv, HeldAfter, Window;
    WindowFreeIffTailHeld(n.held);
  }

  /** A downgrade asked for when the last byte has been given up: its first call gives up the rest. */
  lemma CutDowngradeOpensWindow(n: NfsProc, c: Cid)
    requires !n.p.excl && n.cut && n.held.tail == Unlocked && n.stage == 0
    requires MayUnlock(n.p, c, SHARED_LOCK, false) && n.p.conns[c].level > SHARED_LOCK
    ensures NfsEnabled(n, Unlock(c, SHARED_LOCK, false))
    ensures var again := NfsStep(n, Unlock(c, SHARED_LOCK, false));
      && again.p.pc == UlReadAll(c) && again.stage == 0 && again.cut
      && NfsEnabled(again, Call(true)) && Window(NfsStep(again, Call(true)).held)
  {
    hide AfterCall;
  }

  /** The fourth call fails after the first three succeeded: the connection keeps its level, and when it
  asks to be downgraded again, the first call gives up the last of the range. */
  lemma RetriedDowngradeOpensWindow(n: NfsProc)
    requires NfsInv(n) && Staging(n) && n.stage == 2 && !n.p.excl && !n.p.conns[n.p.pc.c].phase.closing
    ensures var c := n.p.pc.c;
      var third := NfsStep(n, Call(true));
      && NfsEnabled(third, Call(false))
      && var failed := NfsStep(third, Call(false));
      && failed.p.conns[c].level == n.p.conns[c].level > SHARED_LOCK && failed.p.conns[c].phase == Ready
      && NfsEnabled(failed, Unlock(c, SHARED_LOCK, false))
      && var again := NfsStep(failed, Unlock(c, SHARED_LOCK, false));
      && Staging(again) && again.stage == 0 && again.cut
      && Window(NfsStep(again, Call(true)).held)
  {
    DowngradeFacts(n.p, n.asif);
    assert PhaseOk(n.p.pc, n.p.pc.c, n.p.conns[n.p.pc.c]);
    assert PcOk(n.p);
    hide ProcInv;
    var c := n.p.pc.c;
    ThirdThenFourthFails(n.p);
    hide AfterCall;
    var third := n.p.(pc := UlPendingReserved(c, SHARED_LOCK));
    var failed := SetConn(n.p, c, n.p.conns[c].(phase := Ready)).(pc := Idle);
    assert NfsStep(n, Call(true)).p == third;
    var f := NfsStep(NfsStep(n, Call(true)), Call(false));
    assert f.p == failed && f.held.tail == Unlocked && f.cut && f.stage == 0;
    assert MayUnlock(f.p, c, SHARED_LOCK, false);
    CutDowngradeOpensWindow(f, c);
    hide *;
  }

  lemma ThirdThenFourthFails(p: Proc)
    requires p.pc.UlReadAll? && PcValid(p) && (p.excl ==> p.processLock)
    requires p.conns[p.pc.c].phase.Unlocking? && !p.conns[p.pc.c].phase.closing
    ensures var third := p.(pc := UlPendingReserved(p.pc.c, SHARED_LOCK));
      && AfterCall(p, true) == third
      && AfterCall(third, false) == SetConn(p, p.pc.c, p.conns[p.pc.c].(phase := Ready)).(pc := Idle)
  {
  }
}
