/** A process of `PosixFile` that gets the kernel's answers to its calls in order, and what the code of
`UnixVfs` relies on between them. */
module PosixAnswers {
  import opened Wrappers
  import opened PosixOs
  import opened LockLevels
  import opened PosixFile
  import opened PosixFileInv
  import opened PosixFileSteps
  import opened PosixFileClose

  datatype Point = Point(p: Proc, h: Held)

  /** The state after the kernel has given the answers in order, if the calls are there to be made. */
  ghost function AfterAnswers(s: Point, answers: seq<bool>): Option<Point> {
    if answers == [] then Some(s)
    else
      var before := AfterAnswers(s, answers[..|answers| - 1]);
      var ok := answers[|answers| - 1];
      if before.Some? && Enabled(before.value.p, Call(ok)) then
        Some(Point(StepProc(before.value.p, Call(ok)), StepHeld(before.value.p, before.value.h, Call(ok))))
      else None
  }

  /** At every one of the calls, and after the last, the process is as `ProcInv` says. */
  ghost predicate EveryCallOk(s: Point, answers: seq<bool>) {
    forall k :: 0 <= k <= |answers| ==>
      var t := AfterAnswers(s, answers[..k]);
      t.Some? && ProcInv(t.value.p, t.value.h)
  }

  /** Whatever the kernel answers to the calls that are made. */
  lemma {:induction false} AnswersKeepInv(s: Point, answers: seq<bool>)
    requires ProcInv(s.p, s.h) && AfterAnswers(s, answers).Some?
    ensures EveryCallOk(s, answers)
  {
    hide ProcInv, StepProc, StepHeld, Enabled;
    if answers == [] {
    } else {
      var front := answers[..|answers| - 1];
      AnswersKeepInv(s, front);
      assert front[..|front|] == front;
      var before := AfterAnswers(s, front).value;
      StepKeeps(before.p, before.h, Call(answers[|answers| - 1]));
      forall k | 0 <= k <= |answers|
        ensures AfterAnswers(s, answers[..k]).Some?
        ensures ProcInv(AfterAnswers(s, answers[..k]).value.p, AfterAnswers(s, answers[..k]).value.h)
      {
        if k < |answers| {
          assert front[..k] == answers[..k];
        } else {
          assert answers[..k] == answers;
        }
      }
    }
  }

  lemma OneMoreAnswer(s: Point, answers: seq<bool>, ok: bool)
    requires AfterAnswers(s, answers).Some? && Enabled(AfterAnswers(s, answers).value.p, Call(ok))
    ensures var t := AfterAnswers(s, answers).value;
      AfterAnswers(s, answers + [ok]) == Some(Point(StepProc(t.p, Call(ok)), StepHeld(t.p, t.h, Call(ok))))
  {
  }

  /** What the code may rely on at an fcntl(). */
  lemma CallFacts(p: Proc, h: Held)
    requires ProcInv(p, h) && !p.pc.Idle?
    ensures PcValid(p) && Enabled(p, Call(true)) && (!p.excl || !p.processLock ==> Enabled(p, Call(false)))
    ensures p.excl && !p.processLock ==> p.nLock == 0 && p.pc.LkPendingRead?
    ensures !p.excl ==> !p.processLock
  {
  }

  /** The process with its process lock, if this call took it. */
  function WithProcessLock(p: Proc, ok: bool): Proc {
    if p.excl && !p.processLock && ok then p.(processLock := true, nLock := p.nLock + 1) else p
  }

  lemma AfterProcessLock(p: Proc, ok: bool)
    requires !p.pc.Idle? && PcValid(p)
    ensures AfterCall(WithProcessLock(p, ok), ok) == AfterCall(p, ok)
  {
  }

  // The code after each fcntl(), once the process lock is accounted for.

  lemma AfterSharedRead(p: Proc, c: Cid, ok: bool)
    requires p.pc == LkSharedRead(c) && c in p.conns && (p.excl && ok ==> p.processLock)
    ensures AfterCall(p, ok) == p.(pc := LkDropPending(c, ok))
  {
  }

  lemma AfterDropPending(p: Proc, c: Cid, got: bool, ok: bool)
    requires p.pc == LkDropPending(c, got) && c in p.conns && (p.excl && ok ==> p.processLock)
    ensures AfterCall(p, ok) ==
      if ok && got then SetLevel(p, c, SHARED_LOCK).(nShared := 1, nLock := p.nLock + 1) else p.(pc := Idle)
  {
  }

  lemma FirstReaderFacts(p: Proc, h: Held, c: Cid)
    requires ProcInv(p, h) && p.pc == LkSharedRead(c)
    ensures c in p.conns && p.conns[c].level == NO_LOCK && p.nShared == 0 && p.il == NO_LOCK
  {
  }

  lemma AfterPendingRead(p: Proc, c: Cid, ok: bool)
    requires p.pc == LkPendingRead(c) && c in p.conns && (p.excl && ok ==> p.processLock)
    ensures AfterCall(p, ok) == p.(pc := if ok then LkSharedRead(c) else Idle)
  {
  }

  lemma AfterPendingWrite(p: Proc, c: Cid, ok: bool)
    requires p.pc == LkPendingWrite(c) && c in p.conns && (p.excl && ok ==> p.processLock)
    ensures AfterCall(p, ok) == if ok then LockFinalRequest(p, c, EXCLUSIVE_LOCK) else p.(pc := Idle)
  {
  }

  lemma AfterReserved(p: Proc, c: Cid, ok: bool)
    requires p.pc == LkReserved(c) && c in p.conns && (p.excl && ok ==> p.processLock)
    ensures AfterCall(p, ok) == if ok then SetLevel(p, c, RESERVED_LOCK) else p.(pc := Idle)
  {
  }

  lemma AfterExclusive(p: Proc, c: Cid, ok: bool)
    requires p.pc == LkExclusive(c) && c in p.conns && (p.excl && ok ==> p.processLock)
    ensures AfterCall(p, ok) == SetLevel(p, c, if ok then EXCLUSIVE_LOCK else PENDING_LOCK)
  {
  }

  /** What the branches of unixLock() rely on; these are its assertions about the inode. */
  lemma LockEntryFacts(p: Proc, h: Held, c: Cid, want: nat)
    requires ProcInv(p, h) && MayLock(p, c, want)
    ensures p.il >= SHARED_LOCK ==> p.nShared > 0
    ensures p.il == NO_LOCK ==> p.nShared == 0
    ensures p.conns[c].eff == p.conns[c].level <= p.il
    ensures ProcInv(LockEnter(p, c, want), h)
    ensures want > SHARED_LOCK && p.conns[c].level == p.il ==> p.conns[c].level >= SHARED_LOCK
  {
    assert PhaseOk(p.pc, c, p.conns[c]);
    LockEnterKeeps(p, h, c, want);
    var w :| WriterIs(p, w);
  }

  lemma AfterReadAll(p: Proc, c: Cid, ok: bool)
    requires p.pc == UlReadAll(c) && c in p.conns && (p.excl && ok ==> p.processLock)
    ensures AfterCall(p, ok) ==
      if ok then p.(pc := UlPendingReserved(c, SHARED_LOCK)) else SetConn(p, c, Failed(p.conns[c])).(pc := Idle)
  {
  }

  /** The inode and the connection once the PENDING and RESERVED bytes are dropped. */
  function Lowered(p: Proc, c: Cid): Proc
    requires c in p.conns
  {
    SetConn(p, c, p.conns[c].(eff := SHARED_LOCK)).(il := SHARED_LOCK, pc := Idle)
  }

  /** The rest of posixUnlock() inside the mutex once the connection is no more than a reader. */
  function LeaveOrStay(p: Proc, c: Cid, target: nat): Proc
    requires c in p.conns
  {
    if target == NO_LOCK then DropReader(p, c) else SetConn(p, c, Returned(p.conns[c], target))
  }

  lemma AfterPendingReserved(p: Proc, c: Cid, target: nat, ok: bool)
    requires p.pc == UlPendingReserved(c, target) && c in p.conns && (p.excl && ok ==> p.processLock)
    ensures AfterCall(p, ok) ==
      if ok then LeaveOrStay(Lowered(p, c), c, target) else SetConn(p, c, Failed(p.conns[c])).(pc := Idle)
  {
    var k := p.conns[c].(eff := SHARED_LOCK);
    assert p.conns[c := k][c := Returned(k, target)] == p.conns[c := Returned(k, target)];
  }

  lemma AfterWholeFile(p: Proc, c: Cid, ok: bool)
    requires p.pc == UlWholeFile(c) && c in p.conns && (p.excl && ok ==> p.processLock)
    ensures var k := if ok then Returned(p.conns[c], NO_LOCK) else Failed(p.conns[c].(level := NO_LOCK));
      var r := SetConn(p, c, k).(il := NO_LOCK, nLock := p.nLock - 1, pc := Idle);
      AfterCall(p, ok) == if r.nLock == 0 then ClosePending(r) else r
  {
  }

  /** While other readers remain there is still a lock outstanding, so nothing deferred is closed. */
  lemma StillLocked(p: Proc, h: Held, c: Cid)
    requires c in p.conns && ProcInv(DropReader(p, c), h)
    ensures p.nShared - 1 != 0 ==> p.nLock - 1 > 0
  {
  }

  lemma UpdateTwice<K, V>(m: map<K, V>, k: K, v: V, w: V)
    ensures m[k := v][k := w] == m[k := w]
  {
  }

  /** The assertions at the head of posixUnlock(), and what its first fcntl() may rely on. */
  lemma UnlockEntryFacts(p: Proc, h: Held, c: Cid, target: nat, closing: bool)
    requires ProcInv(p, h) && MayUnlock(p, c, target, closing)
    ensures ProcInv(UnlockEnter(p, c, target, closing), h)
    ensures p.conns[c].eff == p.conns[c].level
    ensures p.conns[c].level > target ==> p.nShared != 0
    ensures p.conns[c].level > SHARED_LOCK ==> p.il == p.conns[c].level
  {
    assert PhaseOk(p.pc, c, p.conns[c]);
    UnlockEnterKeeps(p, h, c, target, closing);
    var w :| WriterIs(p, w);
    if p.conns[c].level > NO_LOCK {
      assert c in Members(p);
    }
  }

  /** The inode has the same users as long as nobody comes or goes. */
  lemma SameUsers(p: Proc, h: Held, q: Proc, h': Held, c: Cid)
    requires ProcInv(p, h) && ProcInv(q, h') && c in p.conns && c in q.conns && q.conns == p.conns[c := q.conns[c]]
    requires p.conns[c].phase != Gone && q.conns[c].phase != Gone
    ensures q.nRef == p.nRef
  {
    CountedSets(p, q, c, q.conns[c]);
    assert Live(q) == Live(p);
  }

  lemma WriteLevelValid(p: Proc, h: Held, c: Cid)
    requires ProcInv(p, h) && c in p.conns && p.conns[c].phase.Released?
    ensures ProcInv(StepProc(p, WriteLevel(c)), h)
  {
    WriteLevelKeeps(p, h, c);
  }

  lemma CloseFacts(p: Proc, h: Held, c: Cid)
    requires ProcInv(p, h) && p.pc == Idle && c in p.conns && p.conns[c].phase == Closing
    ensures p.nLock > 0 || !p.processLock
    ensures p.conns[c].node.fd in p.fds && p.conns[c].node.fd !in p.closed
    ensures p.nRef > 0 && (p.nLock == 0 ==> p.unused == [])
    ensures ProcInv(CloseStep(p, c), HeldAfterClose(h, CloseStep(p, c).closed - p.closed))
  {
    CloseKeeps(p, h, c);
    LiveMeansOpen(p, h, c);
  }

  /** With no lock outstanding nothing waits to be closed, so the order of the last two closes in
  unixClose() does not matter. */
  lemma DirectCloseLast(p: Proc, c: Cid)
    requires c in p.conns && p.nLock == 0 && p.unused == []
    ensures var k := p.conns[c];
      var r := p.(nRef := p.nRef - 1, conns := if k.eff == NO_LOCK then p.conns - {c}
        else p.conns[c := k.(phase := Gone)]);
      var q := if r.nRef == 0 then FreeInode(r) else r;
      CloseStep(p, c) == q.(fds := q.fds - {k.node.fd}, closed := q.closed + {k.node.fd})
  {
    assert FdSet([]) == {};
  }

  /** A close by the last user. */
  lemma LastCloseIs(p: Proc, c: Cid)
    requires c in p.conns && p.nRef == 1 && (p.nLock == 0 ==> p.unused == [])
    ensures var k, q := p.conns[c], CloseStep(p, c);
      && q.nRef == 0 && q.conns == map[] && q.unused == []
      && q.closed == p.closed + FdSet(p.unused) + {k.node.fd}
      && q.fds == p.fds - FdSet(p.unused) - {k.node.fd}
  {
    ConsFdSet(p.conns[c].node, p.unused);
    hide FdSet;
    if p.nLock != 0 {
      assert CloseStep(p, c).fds == p.fds[p.conns[c].node.fd := ByUnused] - FdSet([p.conns[c].node] + p.unused);
    } else {
      NoUnused();
    }
  }

  lemma NoUnused()
    ensures FdSet([]) == {}
  {
  }

  /** A close while other users remain. */
  lemma EarlierCloseIs(p: Proc, c: Cid)
    requires c in p.conns && p.nRef > 1
    ensures var k, q := p.conns[c], CloseStep(p, c);
      && q.nRef == p.nRef - 1
      && q.conns == (if k.eff == NO_LOCK then p.conns - {c} else p.conns[c := k.(phase := Gone)])
      && (p.nLock != 0 ==> q.unused == [k.node] + p.unused && q.closed == p.closed)
      && (p.nLock != 0 ==> q.fds == p.fds[k.node.fd := ByUnused])
      && (p.nLock == 0 ==> q.unused == p.unused && q.closed == p.closed + {k.node.fd})
      && (p.nLock == 0 ==> q.fds == p.fds - {k.node.fd})
  {
  }

  lemma ClosedConn(p: Proc, h: Held, c: Cid)
    requires ProcInv(p, h) && p.pc == Idle && c in p.conns && p.conns[c].phase == Closing
    ensures var q := CloseStep(p, c);
      c in q.conns ==> q.conns[c].phase == Gone && q.conns[c].level == p.conns[c].level > NO_LOCK
  {
  }

  lemma {:induction false} FirstMatchUnique(unused: seq<UnusedFd>, flags: nat, i: nat)
    requires i <= |unused| && (i < |unused| ==> unused[i].flags == flags)
    requires forall j :: 0 <= j < i ==> unused[j].flags != flags
    ensures i == FirstMatch(unused, flags)
  {
  }

  lemma TakeValid(p: Proc, h: Held, c: Cid, flags: nat, reuse: bool, newFd: Fd)
    requires ProcInv(p, h) && p.pc == Idle && c !in p.conns && c !in p.opening && newFd !in p.fds && newFd !in p.closed
    ensures ProcInv(TakeStep(p, c, flags, reuse, newFd), h)
  {
    TakeFdKeeps(p, h, c, flags, reuse, newFd);
    hide ProcInv;
  }

  lemma AttachHeld(p: Proc, h: Held, c: Cid, ok: bool)
    requires Descriptors(p, h) && Enabled(p, Attach(c, ok))
    ensures StepHeld(p, h, Attach(c, ok)) == if ok then h else NO_LOCKS
  {
  }

  lemma AttachValid(p: Proc, h: Held, c: Cid, ok: bool)
    requires ProcInv(p, h) && p.pc == Idle && c in p.opening && (ok || p.nRef == 0)
    ensures ProcInv(AttachStep(p, c, ok), if ok then h else NO_LOCKS)
  {
    AttachHeld(p, h, c, ok);
    AttachKeeps(p, h, c, ok);
    hide ProcInv;
  }
}
