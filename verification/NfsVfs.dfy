/** nfsUnlock(), that is posixUnlock() with handleNFSUnlock set, as it is written: the code takes exactly
the steps of `NfsProcess`, whatever the kernel answers. */
module NfsVfs {
  import opened Wrappers
  import opened PosixOs
  import opened LockLevels
  import opened PosixFile
  import opened PosixFileInv
  import opened NfsDowngrade
  import opened NfsProcess
  import opened PosixAnswers
  import opened PosixOutcome
  import opened UnixVfs

  /** The process after the kernel has given the answers in order, if the calls are there to be made. */
  ghost function AfterNfsAnswers(n: NfsProc, answers: seq<bool>): Option<NfsProc> {
    if answers == [] then Some(n)
    else
      var before := AfterNfsAnswers(n, answers[..|answers| - 1]);
      var ok := answers[|answers| - 1];
      if before.Some? && NfsEnabled(before.value, Call(ok)) then Some(NfsStep(before.value, Call(ok))) else None
  }

  /** At every one of the calls, and after the last, the process is as `NfsInv` says. */
  ghost predicate EveryNfsCallOk(n: NfsProc, answers: seq<bool>) {
    forall k :: 0 <= k <= |answers| ==>
      var t := AfterNfsAnswers(n, answers[..k]);
      t.Some? && NfsInv(t.value)
  }

  lemma {:induction false} NfsAnswersKeepInv(n: NfsProc, answers: seq<bool>)
    requires NfsInv(n) && AfterNfsAnswers(n, answers).Some?
    ensures EveryNfsCallOk(n, answers)
  {
    hide NfsInv, NfsStep, NfsEnabled;
    if answers == [] {
    } else {
      var front := answers[..|answers| - 1];
      NfsAnswersKeepInv(n, front);
      assert front[..|front|] == front;
      NfsStepKeeps(AfterNfsAnswers(n, front).value, Call(answers[|answers| - 1]));
      forall k | 0 <= k <= |answers|
        ensures AfterNfsAnswers(n, answers[..k]).Some? && NfsInv(AfterNfsAnswers(n, answers[..k]).value)
      {
        if k < |answers| {
          assert front[..k] == answers[..k];
        } else {
          assert answers[..k] == answers;
        }
      }
    }
  }

  lemma NoNfsAnswer(n: NfsProc)
    ensures AfterNfsAnswers(n, []) == Some(n)
  {
  }

  lemma OneMoreNfsAnswer(n: NfsProc, answers: seq<bool>, ok: bool)
    requires AfterNfsAnswers(n, answers).Some? && NfsEnabled(AfterNfsAnswers(n, answers).value, Call(ok))
    ensures AfterNfsAnswers(n, answers + [ok]) == Some(NfsStep(AfterNfsAnswers(n, answers).value, Call(ok)))
  {
    assert (answers + [ok])[..|answers|] == answers;
  }

  // ---------------------------------------------------------------- what an unlock comes to

  lemma {:induction false} FirstNfsAnswer(n: NfsProc, answers: seq<bool>)
    requires answers != [] && AfterNfsAnswers(n, answers).Some?
    ensures NfsEnabled(n, Call(answers[0]))
    ensures AfterNfsAnswers(NfsStep(n, Call(answers[0])), answers[1..]) == AfterNfsAnswers(n, answers)
  {
    hide NfsEnabled, NfsStep;
    var k := |answers| - 1;
    if k == 0 {
      assert answers[..0] == [];
      assert answers[1..] == [];
    } else {
      FirstNfsAnswer(n, answers[..k]);
      assert answers[..k][1..] == answers[1..][..k - 1];
      assert answers[1..][k - 1] == answers[k];
    }
  }

  lemma NfsStops(n: NfsProc, answers: seq<bool>, t: NfsProc)
    requires AfterNfsAnswers(n, answers) == Some(t) && n.p.pc.Idle?
    ensures answers == [] && t == n
  {
    if answers != [] {
      FirstNfsAnswer(n, answers);
    }
  }

  /** Calls k and later: m of the four succeed, and the next, if there is one, fails. */
  ghost predicate StagesMade(n: NfsProc, k: nat, m: nat, answers: seq<bool>, t: NfsProc) {
    && k <= m <= 4
    && |answers| == m - k + (if m < 4 then 1 else 0)
    && (forall i :: 0 <= i < m - k ==> answers[i]) && (m < 4 ==> !answers[m - k])
    && t.held == HeldAfter(n.held, m)
    && n.p.pc.UlReadAll? && n.p.pc.c in t.p.conns
    && (t.p.conns[n.p.pc.c].phase.Released? <==> m == 4)
  }

  /** A call of a downgrade that fails ends it. */
  lemma StageFails(n: NfsProc, k: nat)
    requires NfsInv(n) && Staging(n) && n.stage == 0 && !n.p.excl && k < 4
    ensures var d := Downgraded(n, k);
      && NfsEnabled(d, Call(false))
      && var t := NfsStep(d, Call(false));
      && t.p.pc == Idle && t.held == HeldAfter(n.held, k)
      && n.p.pc.c in t.p.conns && !t.p.conns[n.p.pc.c].phase.Released?
  {
    DowngradeFacts(n.p, n.asif);
    ReadAllFrame(n.p);
    var low := n.p.(pc := UlPendingReserved(n.p.pc.c, SHARED_LOCK));
    DroppingClosesNothing(low, false);
    AfterReadAll(n.p, n.p.pc.c, false);
    AfterPendingReserved(low, n.p.pc.c, SHARED_LOCK, false);
    hide ProcInv, AfterCall, HeldAfter;
  }

  lemma {:induction false} FromStage(n: NfsProc, k: nat, answers: seq<bool>, t: NfsProc)
    requires NfsInv(n) && Staging(n) && n.stage == 0 && !n.p.excl && k <= 4
    requires AfterNfsAnswers(Downgraded(n, k), answers) == Some(t) && t.p.pc.Idle?
    ensures exists m: nat :: StagesMade(n, k, m, answers, t)
    decreases 4 - k
  {
    DowngradeEnd(n);
    hide NfsInv, NfsStep, NfsEnabled, Downgraded, HeldAfter;
    if k == 4 {
      NfsStops(Downgraded(n, 4), answers, t);
      assert StagesMade(n, k, 4, answers, t);
    } else {
      StageNotIdle(n, k);
      FirstNfsAnswer(Downgraded(n, k), answers);
      if answers[0] {
        DowngradeSteps(n, k);
        FromStage(n, k + 1, answers[1..], t);
        var m: nat :| StagesMade(n, k + 1, m, answers[1..], t);
        OneStageMore(n, k, m, answers, t);
      } else {
        StageFails(n, k);
        NfsStops(NfsStep(Downgraded(n, k), Call(false)), answers[1..], t);
        assert StagesMade(n, k, k, answers, t);
      }
    }
  }

  lemma OneStageMore(n: NfsProc, k: nat, m: nat, answers: seq<bool>, t: NfsProc)
    requires answers != [] && answers[0] && k < 4 && StagesMade(n, k + 1, m, answers[1..], t)
    ensures StagesMade(n, k, m, answers, t)
  {
    hide HeldAfter;
    forall i | 0 <= i < m - k
      ensures answers[i]
    {
      assert i > 0 ==> answers[i] == answers[1..][i - 1];
    }
    assert m < 4 ==> answers[m - k] == answers[1..][m - k - 1];
  }

  lemma DowngradeEnd(n: NfsProc)
    requires NfsInv(n) && Staging(n) && n.stage == 0 && !n.p.excl
    ensures var d := Downgraded(n, 4);
      && d.p.pc == Idle && d.held == HeldAfter(n.held, 4)
      && n.p.pc.c in d.p.conns && d.p.conns[n.p.pc.c].phase.Released?
    ensures Downgraded(n, 0) == n
  {
    DowngradeFacts(n.p, n.asif);
    hide ProcInv;
  }

  lemma StageNotIdle(n: NfsProc, k: nat)
    requires NfsInv(n) && Staging(n) && n.stage == 0 && !n.p.excl && k < 4
    ensures !Downgraded(n, k).p.pc.Idle?
  {
    DowngradeFacts(n.p, n.asif);
    hide ProcInv;
  }

  /** A staged downgrade: m of its four calls succeed, the next one fails, and the locks are those after
  m calls. */
  ghost predicate DowngradeOutcome(h: Held, answers: seq<bool>, ok: bool, h': Held) {
    exists m: nat ::
      && m <= 4 && |answers| == (if m < 4 then m + 1 else 4)
      && (forall i :: 0 <= i < m ==> answers[i]) && (m < 4 ==> !answers[m])
      && h' == HeldAfter(h, m) && (ok <==> m == 4)
  }

  lemma DowngradeOutcomeIs(n: NfsProc, c: Cid, answers: seq<bool>, t: NfsProc)
    requires NfsInv(n) && n.p.pc == UlReadAll(c) && n.stage == 0 && !n.p.excl
    requires AfterNfsAnswers(n, answers) == Some(t) && t.p.pc.Idle?
    ensures c in t.p.conns && DowngradeOutcome(n.held, answers, t.p.conns[c].phase.Released?, t.held)
  {
    hide NfsInv, AfterNfsAnswers;
    DowngradeEnd(n);
    FromStage(n, 0, answers, t);
    var m: nat :| StagesMade(n, 0, m, answers, t);
  }

  /** The points of an unlock at which no staged call is to be made. */
  predicate PastStages(pc: Pc) {
    pc.Idle? || pc.UlPendingReserved? || pc.UlWholeFile?
  }

  lemma StaysPast(p: Proc, ok: bool)
    requires PastStages(p.pc) && !p.pc.Idle? && PcValid(p)
    ensures PastStages(AfterCall(p, ok).pc)
  {
    if p.pc.UlWholeFile? {
      AfterWholeEnds(p, ok);
    }
  }

  lemma AfterWholeEnds(p: Proc, ok: bool)
    requires p.pc.UlWholeFile? && PcValid(p)
    ensures AfterCall(p, ok).pc.Idle?
  {
  }

  /** From there on the process is one of `PosixFile`, with the locks it really has. */
  lemma {:induction false} SameAsPosix(n: NfsProc, answers: seq<bool>)
    requires PastStages(n.p.pc) && AfterNfsAnswers(n, answers).Some?
    ensures var t := AfterNfsAnswers(n, answers).value;
      PastStages(t.p.pc) && AfterAnswers(Point(n.p, n.held), answers) == Some(Point(t.p, t.held))
  {
    if answers == [] {
    } else {
      var front, ok := answers[..|answers| - 1], answers[|answers| - 1];
      SameAsPosix(n, front);
      var before := AfterNfsAnswers(n, front).value;
      hide AfterCall, StepHeld;
      assert Enabled(before.p, Call(ok));
      StaysPast(before.p, ok);
    }
  }

  /** The object's fields are those of n, at step pc of a call. */
  ghost predicate Shows(u: UnixProcess, pc: Pc, n: NfsProc)
    reads u
  {
    n.p == u.At(pc).p && n.held == u.held && NfsInv(n)
  }

  /** What the three staged calls rely on, and where each of them leads. */
  lemma StagedFacts(n: NfsProc, c: Cid, ok: bool)
    requires NfsInv(n) && n.p.pc == UlReadAll(c)
    ensures c in n.p.conns && (n.p.excl ==> n.p.processLock) && (!n.p.excl ==> !n.p.processLock)
    ensures !n.p.excl || ok ==> NfsEnabled(n, Call(ok))
    ensures NfsEnabled(n, Call(ok)) ==>
      var t := NfsStep(n, Call(ok));
      && NfsInv(t)
      && t.held == (if ok && !n.p.excl then Apply(n.held, Stage(n.stage).0, Stage(n.stage).1) else n.held)
      && (ok && n.stage < 2 ==> t.p == n.p && t.stage == n.stage + 1)
      && (ok && n.stage == 2 ==> t.p == n.p.(pc := UlPendingReserved(c, SHARED_LOCK)) && t.stage == 0)
      && (!ok ==> t.p == SetConn(n.p, c, Failed(n.p.conns[c])).(pc := Idle))
  {
    DowngradeFacts(n.p, n.asif);
    if NfsEnabled(n, Call(ok)) {
      NfsStepKeeps(n, Call(ok));
    }
    AfterReadAll(n.p, c, ok);
    hide ProcInv, StepHeld, AfterCall;
  }

  /** One of the three calls, through unixFileLock(). */
  method StagedLock(u: UnixProcess, c: Cid, range: Range, mode: Mode, ghost start: NfsProc, ghost given: seq<bool>,
    ghost n: NfsProc)
    returns (ok: bool, ghost answers: seq<bool>, ghost t: NfsProc)
    requires Shows(u, UlReadAll(c), n) && AfterNfsAnswers(start, given) == Some(n) && Stage(n.stage) == (range, mode)
    modifies u`held, u`bProcessLock, u`nLock
    ensures NfsEnabled(n, Call(ok)) && t == NfsStep(n, Call(ok)) && NfsInv(t)
      && AfterNfsAnswers(start, answers) == Some(t)
    ensures c in u.files && u.bProcessLock == old(u.bProcessLock) && u.nLock == old(u.nLock)
    ensures t.held == u.held
    ensures ok && n.stage < 2 ==> Shows(u, UlReadAll(c), t) && t.stage == n.stage + 1
    ensures ok && n.stage == 2 ==> Shows(u, UlPendingReserved(c, SHARED_LOCK), t)
    ensures !ok ==> t.p == SetConn(u.At(Idle).p, c, Failed(u.files[c]))
  {
    hide NfsInv, NfsStep, NfsEnabled, AfterNfsAnswers, Failed, Apply, Stage;
    StagedFacts(n, c, true);
    ok := u.UnixFileLock(range, mode);
    StagedFacts(n, c, ok);
    t := NfsStep(n, Call(ok));
    answers := given + [ok];
    OneMoreNfsAnswer(start, given, ok);
  }

  /** posixUnlock(SHARED_LOCK) with handleNFSUnlock: the range is downgraded in two blocks. */
  method ReadLockInBlocks(u: UnixProcess, c: Cid, ghost start: NfsProc)
    returns (rc: Rc, ghost answers: seq<bool>, ghost t: NfsProc)
    requires Shows(u, UlReadAll(c), start) && start.stage == 0 && c in u.files
    modifies u
    ensures AfterNfsAnswers(start, answers) == Some(t) && c in u.files
    ensures rc == Ok ==> Shows(u, UlPendingReserved(c, SHARED_LOCK), t) && u.files == old(u.files)
    ensures rc != Ok ==> Shows(u, Idle, t) && u.files == old(u.files)[c := Failed(old(u.files[c]))]
  {
    hide NfsInv, NfsStep, NfsEnabled;
    t, answers := start, [];
    assert AfterNfsAnswers(start, answers) == Some(t);
    hide AfterNfsAnswers;
    rc := Ok;
    var ok;
    ok, answers, t := StagedLock(u, c, SharedHead, Unlocked, start, answers, t);
    if !ok {
      rc := IoErr;
      u.GiveUp(c);
      return;
    }
    ok, answers, t := StagedLock(u, c, SharedHead, ReadLock, start, answers, t);
    if !ok {
      rc := u.ErrorFromPosix();
      u.GiveUp(c);
      return;
    }
    ok, answers, t := StagedLock(u, c, SharedTail, Unlocked, start, answers, t);
    if !ok {
      rc := IoErr;
      u.GiveUp(c);
    }
  }

  /** What an unlocking call other than the staged ones may rely on. */
  lemma UnlockCallFacts(n: NfsProc, ok: bool)
    requires NfsInv(n) && (n.p.pc.UlPendingReserved? || n.p.pc.UlWholeFile?)
    ensures PcValid(n.p) && (n.p.excl ==> n.p.processLock) && (!n.p.excl ==> !n.p.processLock)
    ensures !n.p.excl || ok ==> NfsEnabled(n, Call(ok))
  {
    CallFacts(n.p, n.asif);
    hide ProcInv;
  }

  /** Such a call is a step of `PosixFile`. */
  lemma UnlockCallStep(n: NfsProc, ok: bool, range: Range)
    requires NfsEnabled(n, Call(ok)) && Wanted(n.p.pc) == SetLk(range, Unlocked) && (n.p.excl ==> n.p.processLock)
    requires n.p.pc.UlPendingReserved? || n.p.pc.UlWholeFile?
    ensures var t := NfsStep(n, Call(ok));
      && t.p == AfterCall(n.p, ok)
      && t.held == HeldAfterClose(
        if ok && !n.p.excl then Apply(n.held, range, Unlocked) else n.held, t.p.closed - n.p.closed)
  {
    hide AfterCall, Apply;
  }

  /** The call that drops the PENDING and RESERVED bytes, and where it leads. */
  lemma DropFacts(n: NfsProc, c: Cid, target: nat, ok: bool)
    requires NfsInv(n) && n.p.pc == UlPendingReserved(c, target)
    ensures c in n.p.conns && (n.p.excl ==> n.p.processLock) && (!n.p.excl ==> !n.p.processLock)
    ensures !n.p.excl || ok ==> NfsEnabled(n, Call(ok))
    ensures NfsEnabled(n, Call(ok)) ==>
      var t := NfsStep(n, Call(ok));
      && NfsInv(t)
      && t.held == (if ok && !n.p.excl then Apply(n.held, PendingAndReserved, Unlocked) else n.held)
      && t.p == if ok then LeaveOrStay(Lowered(n.p, c), c, target)
        else SetConn(n.p, c, Failed(n.p.conns[c])).(pc := Idle)
  {
    hide NfsInv, NfsEnabled, NfsStep, AfterCall, LeaveOrStay, Lowered, Apply;
    UnlockCallFacts(n, ok);
    DroppingClosesNothing(n.p, ok);
    if NfsEnabled(n, Call(ok)) {
      NfsStepKeeps(n, Call(ok));
      UnlockCallStep(n, ok, PendingAndReserved);
    }
    AfterPendingReserved(n.p, c, target, ok);
  }

  /** posixUnlock(), dropping the PENDING and RESERVED bytes in one call. */
  method DropWriterBytes(u: UnixProcess, c: Cid, target: nat, ghost start: NfsProc, ghost given: seq<bool>,
    ghost n: NfsProc)
    returns (rc: Rc, ghost answers: seq<bool>, ghost t: NfsProc)
    requires Shows(u, UlPendingReserved(c, target), n) && AfterNfsAnswers(start, given) == Some(n) && c in u.files
    modifies u
    ensures AfterNfsAnswers(start, answers) == Some(t) && NfsInv(t) && t.held == u.held
    ensures rc != Ok ==> Shows(u, Idle, t) && u.files == old(u.files)[c := Failed(old(u.files[c]))]
    ensures rc == Ok ==> u.files == old(u.files)[c := old(u.files[c]).(eff := SHARED_LOCK)]
    ensures rc == Ok ==> t.p == LeaveOrStay(u.At(Idle).p, c, target)
  {
    hide NfsInv, NfsStep, NfsEnabled, AfterNfsAnswers, Apply, Stage, LeaveOrStay;
    DropFacts(n, c, target, true);
    var ok := u.UnixFileLock(PendingAndReserved, Unlocked);
    DropFacts(n, c, target, ok);
    t := NfsStep(n, Call(ok));
    answers := given + [ok];
    OneMoreNfsAnswer(start, given, ok);
    if ok {
      rc := Ok;
      u.eFileLock := SHARED_LOCK;
      u.files := u.files[c := u.files[c].(eff := SHARED_LOCK)];
      assert u.At(Idle).p == Lowered(n.p, c);
    } else {
      rc := IoErr;
      u.GiveUp(c);
    }
  }

  /** The call by which the last reader leaves, and where it leads. */
  lemma WholeFacts(n: NfsProc, c: Cid, ok: bool)
    requires NfsInv(n) && n.p.pc == UlWholeFile(c)
    ensures c in n.p.conns && (n.p.excl ==> n.p.processLock) && (!n.p.excl ==> !n.p.processLock)
    ensures !n.p.excl || ok ==> NfsEnabled(n, Call(ok))
    ensures NfsEnabled(n, Call(ok)) ==>
      var t := NfsStep(n, Call(ok));
      && NfsInv(t) && t.p == AfterCall(n.p, ok)
      && t.held == HeldAfterClose(if ok && !n.p.excl then NO_LOCKS else n.held, t.p.closed - n.p.closed)
  {
    hide NfsInv, NfsEnabled, NfsStep, AfterCall;
    UnlockCallFacts(n, ok);
    if NfsEnabled(n, Call(ok)) {
      NfsStepKeeps(n, Call(ok));
      UnlockCallStep(n, ok, WholeFile);
    }
  }

  /** That call. */
  method UnlockWholeCall(u: UnixProcess, c: Cid, ghost start: NfsProc, ghost given: seq<bool>, ghost n: NfsProc)
    returns (ok: bool, ghost answers: seq<bool>, ghost t: NfsProc)
    requires Shows(u, UlWholeFile(c), n) && AfterNfsAnswers(start, given) == Some(n)
    modifies u`held, u`bProcessLock, u`nLock
    ensures AfterNfsAnswers(start, answers) == Some(t) && NfsInv(t) && t.p == AfterCall(n.p, ok)
    ensures u.bProcessLock == old(u.bProcessLock) && u.nLock == old(u.nLock)
    ensures c in u.files && (n.p.excl ==> n.p.processLock)
    ensures t.held == HeldAfterClose(u.held, t.p.closed - n.p.closed)
  {
    hide NfsInv, NfsStep, NfsEnabled, AfterNfsAnswers, AfterCall;
    WholeFacts(n, c, true);
    ok := u.UnixFileLock(WholeFile, Unlocked);
    WholeFacts(n, c, ok);
    t := NfsStep(n, Call(ok));
    answers := given + [ok];
    OneMoreNfsAnswer(start, given, ok);
  }

  /** posixUnlock(NO_LOCK), the fcntl() of the process's last reader. */
  method UnlockWhole(u: UnixProcess, c: Cid, ghost start: NfsProc, ghost given: seq<bool>, ghost n: NfsProc)
    returns (rc: Rc, ghost answers: seq<bool>, ghost t: NfsProc)
    requires Shows(u, UlWholeFile(c), n) && AfterNfsAnswers(start, given) == Some(n) && c in u.files
    modifies u
    ensures AfterNfsAnswers(start, answers) == Some(t) && Shows(u, Idle, t)
    ensures u.files == old(u.files)[c :=
      if rc == Ok then Returned(old(u.files[c]), NO_LOCK) else Failed(old(u.files[c]).(level := NO_LOCK))]
  {
    hide NfsInv, NfsStep, NfsEnabled, AfterNfsAnswers, AfterCall;
    var ok;
    ok, answers, t := UnlockWholeCall(u, c, start, given, n);
    AfterWholeFile(n.p, c, ok);
    rc := Ok;
    u.eFileLock := NO_LOCK;
    if ok {
      u.files := u.files[c := Returned(u.files[c], NO_LOCK)];
    } else {
      rc := IoErr;
      u.files := u.files[c := u.files[c].(level := NO_LOCK)];
      u.GiveUp(c);
    }
    u.nLock := u.nLock - 1;
    ghost var r := u.At(Idle);
    if u.nLock == 0 {
      u.ClosePendingFds();
      assert ClosePending(r.p).closed - r.p.closed == FdSet(r.p.unused) - r.p.closed;
    }
  }

  /** What is outstanding when a reader leaves. */
  lemma LeavingFacts(t: NfsProc, p: Proc, c: Cid)
    requires c in p.conns && NfsInv(t) && t.p == DropReader(p, c)
    ensures p.nShared - 1 != 0 ==> p.nLock - 1 > 0
  {
    StillLocked(p, t.asif, c);
  }

  /** posixUnlock(NO_LOCK), from the point where the reader is no longer counted. */
  method LeaveReaders(u: UnixProcess, c: Cid, ghost start: NfsProc, ghost given: seq<bool>, ghost n: NfsProc)
    returns (rc: Rc, ghost answers: seq<bool>, ghost t: NfsProc)
    requires c in u.files && u.files[c].phase.Unlocking?
    requires AfterNfsAnswers(start, given) == Some(n) && NfsInv(n) && n.held == u.held
    requires n.p == DropReader(u.At(Idle).p, c)
    modifies u
    ensures AfterNfsAnswers(start, answers) == Some(t) && Shows(u, Idle, t) && c in u.files
    ensures u.files == old(u.files)[c := u.files[c]]
    ensures u.files[c] ==
      var k := old(u.files[c]).(eff := NO_LOCK);
      if rc == Ok then Returned(k, NO_LOCK) else Failed(k.(level := NO_LOCK))
  {
    hide NfsInv, AfterNfsAnswers;
    LeavingFacts(n, u.At(Idle).p, c);
    ghost var f0 := u.files;
    rc, answers, t := Ok, given, n;
    u.nShared := u.nShared - 1;
    if u.nShared == 0 {
      u.files := u.files[c := u.files[c].(eff := NO_LOCK)];
      assert u.At(UlWholeFile(c)).p == n.p;
      hide DropReader;
      ghost var k := u.files[c];
      rc, answers, t := UnlockWhole(u, c, start, answers, t);
      UpdateTwice(f0, c, k, u.files[c]);
    } else {
      u.NotLastReader(c);
      assert u.nLock > 0;
      assert u.At(Idle).p == n.p;
    }
  }

  /** posixUnlock() of a connection above SHARED, up to where it is no more than a reader. */
  method LowerWriter(u: UnixProcess, c: Cid, target: nat, ghost start: NfsProc)
    returns (rc: Rc, ghost answers: seq<bool>, ghost t: NfsProc)
    requires target <= SHARED_LOCK && c in u.files && start.stage == 0
    requires Shows(u, if target == SHARED_LOCK then UlReadAll(c) else UlPendingReserved(c, target), start)
    modifies u
    ensures AfterNfsAnswers(start, answers) == Some(t) && NfsInv(t) && t.held == u.held
    ensures rc != Ok ==> Shows(u, Idle, t) && u.files == old(u.files)[c := Failed(old(u.files[c]))]
    ensures rc == Ok ==> u.files == old(u.files)[c := old(u.files[c]).(eff := SHARED_LOCK)]
    ensures rc == Ok ==> t.p == LeaveOrStay(u.At(Idle).p, c, target)
  {
    hide AfterNfsAnswers, NfsInv, LeaveOrStay;
    rc, answers, t := Ok, [], start;
    NoNfsAnswer(start);
    if target == SHARED_LOCK {
      rc, answers, t := ReadLockInBlocks(u, c, start);
    }
    if rc == Ok {
      rc, answers, t := DropWriterBytes(u, c, target, start, answers, t);
    }
  }

  /** posixUnlock() between taking and dropping the mutex. */
  method UnlockInMutex(u: UnixProcess, c: Cid, target: nat, closing: bool, ghost start: NfsProc)
    returns (rc: Rc, ghost answers: seq<bool>, ghost t: NfsProc)
    requires target <= SHARED_LOCK && c in u.files && start.stage == 0 && NfsInv(start) && start.held == u.held
    requires u.files[c].phase == Unlocking(target, closing) && u.files[c].level > target
    requires u.files[c].level > SHARED_LOCK ==>
      start.p == u.At(if target == SHARED_LOCK then UlReadAll(c) else UlPendingReserved(c, target)).p
    requires u.files[c].level == SHARED_LOCK ==> start.p == LeaveOrStay(u.At(Idle).p, c, target)
    modifies u
    ensures AfterNfsAnswers(start, answers) == Some(t) && Shows(u, Idle, t) && c in u.files
    ensures u.files == old(u.files)[c := u.files[c]]
    ensures rc == Ok ==> u.files[c].phase == Released(target, closing) && u.files[c].level == old(u.files[c].level)
    ensures rc != Ok ==> u.files[c].phase == Resume(old(u.files[c]))
    ensures rc != Ok ==> u.files[c].level == old(u.files[c].level) || (target == NO_LOCK && u.files[c].level == NO_LOCK)
  {
    hide AfterNfsAnswers, NfsInv;
    rc, answers, t := Ok, [], start;
    NoNfsAnswer(start);
    if u.files[c].level > SHARED_LOCK {
      rc, answers, t := LowerWriter(u, c, target, start);
    }
    if rc == Ok {
      hide LeaveOrStay, Shows;
      rc, answers, t := UnlockReader(u, c, target, start, answers, t);
    }
  }

  /** posixUnlock() inside the mutex, after the connection is no more than a reader. */
  method UnlockReader(u: UnixProcess, c: Cid, target: nat, ghost start: NfsProc, ghost given: seq<bool>,
    ghost n: NfsProc)
    returns (rc: Rc, ghost answers: seq<bool>, ghost t: NfsProc)
    requires c in u.files && u.files[c].phase.Unlocking? && target <= SHARED_LOCK
    requires AfterNfsAnswers(start, given) == Some(n) && NfsInv(n) && n.held == u.held
    requires n.p == LeaveOrStay(u.At(Idle).p, c, target)
    modifies u
    ensures AfterNfsAnswers(start, answers) == Some(t) && Shows(u, Idle, t) && c in u.files
    ensures u.files == old(u.files)[c := u.files[c]]
    ensures rc == Ok ==> u.files[c].phase == Released(target, old(u.files[c].phase.closing))
    ensures rc == Ok ==> u.files[c].level == old(u.files[c].level)
    ensures rc != Ok ==> target == NO_LOCK && u.files[c].level == NO_LOCK && u.files[c].phase == Resume(old(u.files[c]))
  {
    hide AfterNfsAnswers, NfsInv, DropReader;
    if target == NO_LOCK {
      rc, answers, t := LeaveReaders(u, c, start, given, n);
    } else {
      rc, answers, t := Ok, given, n;
      u.files := u.files[c := Returned(u.files[c], target)];
    }
  }

  /** The head of posixUnlock(), and the assertions it makes there. */
  lemma EntryFacts(n: NfsProc, c: Cid, target: nat, closing: bool)
    requires NfsInv(n) && MayUnlock(n.p, c, target, closing)
    ensures NfsEnabled(n, Unlock(c, target, closing))
    ensures var t := NfsStep(n, Unlock(c, target, closing));
      NfsInv(t) && t.stage == 0 && t.held == n.held && t.p == UnlockEnter(n.p, c, target, closing)
    ensures n.p.conns[c].level > target ==> n.p.nShared != 0
    ensures n.p.conns[c].level > SHARED_LOCK ==> n.p.il == n.p.conns[c].level
  {
    UnlockEntryFacts(n.p, n.asif, c, target, closing);
    NfsStepKeeps(n, Unlock(c, target, closing));
    hide ProcInv;
  }

  lemma LevelFacts(n: NfsProc, c: Cid)
    requires NfsInv(n) && c in n.p.conns && n.p.conns[c].phase.Released?
    ensures NfsEnabled(n, WriteLevel(c))
    ensures var t := NfsStep(n, WriteLevel(c));
      var k := n.p.conns[c];
      && NfsInv(t) && t.held == n.held
      && t.p == SetConn(n.p, c, k.(level := k.phase.target, phase := Resume(k)))
  {
    NfsStepKeeps(n, WriteLevel(c));
    hide ProcInv;
  }

  /** posixUnlock() of a connection that holds more than the target. */
  method UnlockHeld(u: UnixProcess, c: Cid, target: nat, closing: bool, ghost n: NfsProc)
    returns (rc: Rc, ghost answers: seq<bool>, ghost inMutex: NfsProc, ghost after: NfsProc)
    requires Shows(u, Idle, n) && MayUnlock(n.p, c, target, closing) && n.p.conns[c].level > target
    requires u.nShared != 0 && (u.files[c].level > SHARED_LOCK ==> u.eFileLock == u.files[c].level)
    modifies u
    ensures Shows(u, Idle, after) && c in u.files
    ensures NfsEnabled(n, Unlock(c, target, closing))
    ensures AfterNfsAnswers(NfsStep(n, Unlock(c, target, closing)), answers) == Some(inMutex)
    ensures inMutex.p.pc.Idle? && c in inMutex.p.conns && (inMutex.p.conns[c].phase.Released? <==> rc == Ok)
    ensures inMutex.p.closed == after.p.closed && inMutex.held == after.held
    ensures rc == Ok ==> inMutex.p.conns[c].phase.target == target
    ensures rc != Ok ==> after == inMutex
    ensures rc == Ok ==> NfsEnabled(inMutex, WriteLevel(c)) && after == NfsStep(inMutex, WriteLevel(c))
    ensures u.files[c].phase == if closing then Closing else Ready
    ensures rc == Ok ==> u.files[c].level == target
    ensures rc != Ok ==> u.files[c].level == old(u.files[c].level) || (target == NO_LOCK && u.files[c].level == NO_LOCK)
  {
    hide AfterNfsAnswers, NfsInv, NfsStep, NfsEnabled;
    EntryFacts(n, c, target, closing);
    ghost var start := NfsStep(n, Unlock(c, target, closing));
    assert u.nShared != 0;
    assert u.files[c].level > SHARED_LOCK ==> u.eFileLock == u.files[c].level;
    u.files := u.files[c := u.files[c].(phase := Unlocking(target, closing))];
    assert u.files[c].level > SHARED_LOCK ==>
      start.p == u.At(if target == SHARED_LOCK then UlReadAll(c) else UlPendingReserved(c, target)).p;
    assert u.files[c].level == SHARED_LOCK ==> start.p == LeaveOrStay(u.At(Idle).p, c, target);
    hide UnlockEnter, LeaveOrStay;
    rc, answers, inMutex := UnlockInMutex(u, c, target, closing, start);
    after := inMutex;
    if rc == Ok {
      LevelFacts(inMutex, c);
      u.files := u.files[c := u.files[c].(level := target, phase := Resume(u.files[c]))];
      after := NfsStep(inMutex, WriteLevel(c));
    }
  }

  lemma OutcomeIs(n: NfsProc, c: Cid, target: nat, closing: bool, answers: seq<bool>, t: NfsProc)
    requires NfsInv(n) && MayUnlock(n.p, c, target, closing) && n.p.conns[c].level > target
    requires NfsEnabled(n, Unlock(c, target, closing)) && t.p.pc.Idle? && c in t.p.conns
    requires AfterNfsAnswers(NfsStep(n, Unlock(c, target, closing)), answers) == Some(t)
    ensures var ok := t.p.conns[c].phase.Released?;
      && (target == SHARED_LOCK && !n.p.excl ==> DowngradeOutcome(n.held, answers, ok, t.held))
      && (target == NO_LOCK ==>
        var level := if ok then target else t.p.conns[c].level;
        UnlockOutcome(n.p, n.held, c, target, answers, ok, level, t.held, t.p.closed))
  {
    hide AfterNfsAnswers, NfsInv, NfsStep, DowngradeOutcome, UnlockOutcome, AfterAnswers;
    EntryFacts(n, c, target, closing);
    var start := NfsStep(n, Unlock(c, target, closing));
    if target == NO_LOCK {
      SameAsPosix(start, answers);
      AsIfInv(n);
      UnlockOutcomeIs(n.p, n.asif, n.held, c, target, closing, answers, Point(t.p, t.held));
    } else {
      if !n.p.excl {
        DowngradeOutcomeIs(start, c, answers, t);
      }
    }
  }

  lemma AsIfInv(n: NfsProc)
    requires NfsInv(n)
    ensures ProcInv(n.p, n.asif)
  {
  }

  /** nfsUnlock().  After a failed downgrade the connection keeps its level, with whatever locks are left. */
  method NfsUnlock(u: UnixProcess, c: Cid, target: nat, closing: bool, ghost n: NfsProc)
    returns (rc: Rc, ghost answers: seq<bool>, ghost inMutex: NfsProc, ghost after: NfsProc)
    requires Shows(u, Idle, n) && MayUnlock(n.p, c, target, closing)
    modifies u
    ensures Shows(u, Idle, after) && c in u.files
    ensures NfsEnabled(n, Unlock(c, target, closing))
    ensures old(u.files[c].level) <= target ==> rc == Ok && after == NfsStep(n, Unlock(c, target, closing))
    ensures old(u.files[c].level) > target ==>
      && AfterNfsAnswers(NfsStep(n, Unlock(c, target, closing)), answers) == Some(inMutex)
      && EveryNfsCallOk(NfsStep(n, Unlock(c, target, closing)), answers)
      && (rc != Ok ==> after == inMutex)
      && (rc == Ok ==> NfsEnabled(inMutex, WriteLevel(c)) && after == NfsStep(inMutex, WriteLevel(c)))
    ensures u.files[c].phase == if closing then Closing else Ready
    ensures rc == Ok ==> u.files[c].level == if old(u.files[c].level) <= target then old(u.files[c].level) else target
    ensures rc != Ok ==> u.files[c].level == old(u.files[c].level) || (target == NO_LOCK && u.files[c].level == NO_LOCK)
    ensures old(u.files[c].level) <= target ==> answers == []
    ensures target == SHARED_LOCK < old(u.files[c].level) && !u.excl ==>
      DowngradeOutcome(old(u.held), answers, rc == Ok, u.held)
    ensures target == NO_LOCK < old(u.files[c].level) ==>
      UnlockOutcome(old(u.At(Idle).p), old(u.held), c, target, answers, rc == Ok, u.files[c].level, u.held, u.closed)
  {
    hide AfterNfsAnswers, NfsInv, NfsStep, NfsEnabled, EveryNfsCallOk, DowngradeOutcome, UnlockOutcome;
    EntryFacts(n, c, target, closing);
    ghost var start := NfsStep(n, Unlock(c, target, closing));
    rc, answers, inMutex, after := Ok, [], start, start;
    if u.files[c].level <= target {
      u.files := u.files[c := u.files[c].(phase := if closing then Closing else Ready)];
    } else {
      hide UnlockEnter;
      rc, answers, inMutex, after := UnlockHeld(u, c, target, closing, n);
      NfsAnswersKeepInv(start, answers);
      OutcomeIs(n, c, target, closing, answers, inMutex);
    }
  }
}
