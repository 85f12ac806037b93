/** Every step of one process keeps `ProcInv`. */
module PosixFileSteps {
  import opened PosixOs
  import opened LockLevels
  import opened PosixFile
  import opened PosixFileInv

  /** How replacing one connection changes the two counted sets. */
  lemma CountedSets(p: Proc, q: Proc, c: Cid, k: Conn)
    requires c in p.conns && q.conns == p.conns[c := k]
    ensures Members(q) == if k.eff >= SHARED_LOCK then Members(p) + {c} else Members(p) - {c}
    ensures Live(q) == if k.phase != Gone then Live(p) + {c} else Live(p) - {c}
    ensures c in Members(p) <==> p.conns[c].eff >= SHARED_LOCK
    ensures c in Live(p) <==> p.conns[c].phase != Gone
  {
  }

  /** Descriptors do not care about levels, phases other than Gone, counters or locks. */
  lemma DescriptorsFrame(p: Proc, h: Held, q: Proc, c: Cid, k: Conn, h': Held)
    requires Descriptors(p, h)
    requires c in p.conns && q.conns == p.conns[c := k]
    requires k.node == p.conns[c].node && (p.conns[c].phase == Gone <==> k.phase == Gone)
    requires q.fds == p.fds && q.closed == p.closed && q.opening == p.opening && q.unused == p.unused
    requires q.unused != [] ==> q.nLock > 0
    requires q.nRef == 0 ==> h' == NO_LOCKS
    ensures Descriptors(q, h')
  {
  }

  /** A step that only moves to another fcntl() of the same call, or starts or ends a unixLock(). */
  lemma PcMoveKeeps(p: Proc, h: Held, pc: Pc, h': Held)
    requires ProcInv(p, h) && p.nRef > 0
    requires UnlockPc(p.pc) == UnlockPc(pc) && (UnlockPc(pc) ==> p.pc.c == pc.c)
    requires !p.pc.UlWholeFile? && !pc.UlWholeFile?
    requires PcOk(p.(pc := pc)) && Backed(p.(pc := pc), h')
    ensures ProcInv(p.(pc := pc), h')
  {
    var q := p.(pc := pc);
    assert Members(q) == Members(p) && Live(q) == Live(p);
    var w :| WriterIs(p, w);
    assert WriterIs(q, w);
  }

  lemma LiveMeansOpen(p: Proc, h: Held, c: Cid)
    requires ProcInv(p, h) && c in p.conns
    ensures p.nRef > 0
  {
  }

  /** Raising connection c to the inode's new level keeps `Levels`. */
  lemma LevelsAfterRaise(p: Proc, q: Proc, c: Cid, k: Conn)
    requires Levels(p) && c in p.conns && q.conns == p.conns[c := k]
    requires !p.pc.UlWholeFile? && !q.pc.UlWholeFile?
    requires SHARED_LOCK <= k.eff <= q.il <= EXCLUSIVE_LOCK && q.il >= p.il
    requires q.il > p.il ==> k.eff == q.il
    requires k.eff > SHARED_LOCK || p.conns[c].eff > SHARED_LOCK ==> k.eff == q.il && p.conns[c].eff == p.il
    requires q.il == EXCLUSIVE_LOCK ==> q.nShared == 1
    ensures Levels(q)
  {
    assert c in Members(q);
    var w :| WriterIs(p, w);
    assert WriterIs(q, if k.eff > SHARED_LOCK then c else w);
  }

  lemma PhasesAfterSet(p: Proc, q: Proc, c: Cid, k: Conn)
    requires c in p.conns && q.conns == p.conns[c := k]
    requires forall d :: d in p.conns && d != c ==> PhaseOk(Idle, d, p.conns[d])
    requires PhaseOk(q.pc, c, k) && (UnlockPc(q.pc) ==> q.pc.c == c)
    ensures Phases(q)
  {
  }

  /** Outside the connection being unlocked, nobody is inside posixUnlock(). */
  lemma OthersOutside(p: Proc, c: Cid)
    requires Phases(p) && (UnlockPc(p.pc) ==> p.pc.c == c)
    ensures forall d :: d in p.conns && d != c ==> PhaseOk(Idle, d, p.conns[d])
  {
  }

  lemma CountersAfterSet(p: Proc, q: Proc, c: Cid, k: Conn)
    requires Counters(p) && c in p.conns && p.conns[c].phase != Gone && k.phase != Gone
    requires q.conns == p.conns[c := k]
    requires q.nRef == p.nRef && q.processLock == p.processLock
    requires q.nShared ==
      p.nShared - (if p.conns[c].eff >= SHARED_LOCK then 1 else 0) + (if k.eff >= SHARED_LOCK then 1 else 0)
    requires q.nLock == q.nShared + (if q.processLock then 1 else 0) + (if q.pc.UlWholeFile? then 1 else 0)
    ensures Counters(q) && q.nRef > 0
  {
    CountedSets(p, q, c, k);
    assert c in Live(p);
    assert Live(q) == Live(p);
  }

  /** A sibling already reads: the new reader is only counted. */
  lemma JoinKeeps(p: Proc, h: Held, c: Cid)
    requires ProcInv(p, h) && MayLock(p, c, SHARED_LOCK)
    requires p.il == SHARED_LOCK || p.il == RESERVED_LOCK
    ensures ProcInv(LockEnter(p, c, SHARED_LOCK), h)
  {
    var q := LockEnter(p, c, SHARED_LOCK);
    CountersAfterSet(p, q, c, q.conns[c]);
    LevelsAfterRaise(p, q, c, q.conns[c]);
    OthersOutside(p, c);
    PhasesAfterSet(p, q, c, q.conns[c]);
    LiveMeansOpen(p, h, c);
    DescriptorsFrame(p, h, q, c, q.conns[c], h);
  }

  /** The step that gives connection c a higher level. */
  lemma SetLevelKeeps(p: Proc, h: Held, c: Cid, level: nat, nShared: int, nLock: int, h': Held)
    requires ProcInv(p, h) && c in p.conns && p.conns[c].phase == Ready
    requires !UnlockPc(p.pc)
    requires p.il < level <= EXCLUSIVE_LOCK || level == p.il == PENDING_LOCK
    requires p.conns[c].level == p.il
    requires p.il == NO_LOCK ==> level == SHARED_LOCK && nShared == 1 && nLock == p.nLock + 1
    requires p.il > NO_LOCK ==> level > SHARED_LOCK && nShared == p.nShared && nLock == p.nLock
    requires level == EXCLUSIVE_LOCK ==> nShared == 1
    requires Backed(SetLevel(p, c, level).(nShared := nShared, nLock := nLock), h')
    ensures ProcInv(SetLevel(p, c, level).(nShared := nShared, nLock := nLock), h')
  {
    var q := SetLevel(p, c, level).(nShared := nShared, nLock := nLock);
    assert p.conns[c].eff == p.il;
    assert p.il == NO_LOCK ==> p.nShared == 0;
    CountersAfterSet(p, q, c, q.conns[c]);
    LevelsAfterRaise(p, q, c, q.conns[c]);
    OthersOutside(p, c);
    PhasesAfterSet(p, q, c, q.conns[c]);
    LiveMeansOpen(p, h, c);
    DescriptorsFrame(p, h, q, c, q.conns[c], h');
  }

  lemma LockEnterKeeps(p: Proc, h: Held, c: Cid, want: nat)
    requires ProcInv(p, h) && MayLock(p, c, want)
    ensures ProcInv(LockEnter(p, c, want), h)
  {
    var k := p.conns[c];
    LiveMeansOpen(p, h, c);
    if k.level != p.il && (p.il >= PENDING_LOCK || want > SHARED_LOCK) {
    } else if want == SHARED_LOCK && (p.il == SHARED_LOCK || p.il == RESERVED_LOCK) {
      JoinKeeps(p, h, c);
    } else if want == SHARED_LOCK {
      PcMoveKeeps(p, h, LkPendingRead(c), h);
    } else if want == EXCLUSIVE_LOCK && k.level < PENDING_LOCK {
      PcMoveKeeps(p, h, LkPendingWrite(c), h);
    } else {
      FinalRequestKeeps(p, h, c, want);
      hide ProcInv;
    }
  }

  /** The last request of RESERVED, or of EXCLUSIVE by a connection that has the PENDING byte. */
  lemma FinalRequestKeeps(p: Proc, h: Held, c: Cid, want: nat)
    requires ProcInv(p, h) && MayLock(p, c, want) && want > SHARED_LOCK && p.conns[c].level == p.il
    requires want == EXCLUSIVE_LOCK ==> p.il == PENDING_LOCK
    ensures ProcInv(LockFinalRequest(p, c, want), h)
  {
    LiveMeansOpen(p, h, c);
    if want == EXCLUSIVE_LOCK && p.nShared > 1 {
      SetLevelKeeps(p, h, c, PENDING_LOCK, p.nShared, p.nLock, h);
    } else {
      PcMoveKeeps(p, h, if want == RESERVED_LOCK then LkReserved(c) else LkExclusive(c), h);
    }
  }

  // ---------------------------------------------------------------- posixUnlock

  /** Bringing the one connection above SHARED back to SHARED keeps `Levels`. */
  lemma LevelsAfterLower(p: Proc, q: Proc, c: Cid, k: Conn)
    requires Levels(p) && c in p.conns && q.conns == p.conns[c := k]
    requires !p.pc.UlWholeFile? && !q.pc.UlWholeFile?
    requires p.conns[c].eff > SHARED_LOCK && k.eff == q.il == SHARED_LOCK
    ensures Levels(q)
  {
    assert c in Members(q);
    var w :| WriterIs(p, w);
    assert WriterIs(q, w);
  }

  /** A reader leaves. */
  lemma LevelsAfterDrop(p: Proc, q: Proc, c: Cid, k: Conn)
    requires Levels(p) && c in p.conns && q.conns == p.conns[c := k]
    requires !p.pc.UlWholeFile? && p.nShared == |Members(p)|
    requires p.conns[c].eff == SHARED_LOCK && k.eff == NO_LOCK && q.il == p.il && q.nShared == p.nShared - 1
    requires q.pc.UlWholeFile? <==> q.nShared == 0
    ensures Levels(q)
  {
    assert Members(q) == Members(p) - {c};
    assert c in Members(p);
    assert |Members(p)| == |Members(q)| + 1;
    var w :| WriterIs(p, w);
    assert WriterIs(q, w);
    if p.il > SHARED_LOCK {
      assert w in Members(q);
    }
  }

  /** A change that touches no accounted level. */
  lemma LevelsAfterPhase(p: Proc, q: Proc, c: Cid, k: Conn)
    requires Levels(p) && c in p.conns && q.conns == p.conns[c := k]
    requires p.pc.UlWholeFile? == q.pc.UlWholeFile?
    requires k.eff == p.conns[c].eff && q.il == p.il && q.nShared == p.nShared
    ensures Levels(q)
  {
    assert Members(q) == Members(p);
    var w :| WriterIs(p, w);
    assert WriterIs(q, w);
  }

  /** nShared-- and what follows up to the next fcntl(). */
  lemma DropReaderKeeps(p: Proc, h: Held, c: Cid)
    requires c in p.conns
    requires Counters(p) && Levels(p) && Backed(p, h) && Descriptors(p, h)
    requires forall d :: d in p.conns && d != c ==> PhaseOk(Idle, d, p.conns[d])
    requires p.conns[c].phase.Unlocking? && p.conns[c].phase.target == NO_LOCK
    requires p.conns[c].eff == SHARED_LOCK && NO_LOCK < p.conns[c].level <= EXCLUSIVE_LOCK
    requires p.pc.Idle? || p.pc.UlPendingReserved?
    ensures ProcInv(DropReader(p, c), h)
  {
    var q := DropReader(p, c);
    var k := q.conns[c];
    CountersAfterSet(p, q, c, k);
    LevelsAfterDrop(p, q, c, k);
    PhasesAfterSet(p, q, c, k);
    DescriptorsFrame(p, h, q, c, k, h);
  }

  /** The connection changes only its phase. */
  lemma PhaseOnlyKeeps(p: Proc, h: Held, q: Proc, c: Cid, phase: Phase, h': Held)
    requires ProcInv(p, h) && c in p.conns
    requires q == SetConn(p, c, p.conns[c].(phase := phase)).(pc := q.pc)
    requires p.conns[c].phase != Gone && phase != Gone
    requires !p.pc.UlWholeFile? && !q.pc.UlWholeFile?
    requires UnlockPc(p.pc) ==> p.pc.c == c
    requires UnlockPc(q.pc) ==> q.pc.c == c
    requires PhaseOk(q.pc, c, q.conns[c]) && PcOk(q) && Backed(q, h')
    ensures ProcInv(q, h')
  {
    CountersAfterSet(p, q, c, q.conns[c]);
    LevelsAfterPhase(p, q, c, q.conns[c]);
    OthersOutside(p, c);
    PhasesAfterSet(p, q, c, q.conns[c]);
    DescriptorsFrame(p, h, q, c, q.conns[c], h');
  }

  /** A connection at SHARED starts to unlock. */
  lemma StartDropKeeps(p: Proc, h: Held, c: Cid, closing: bool)
    requires ProcInv(p, h) && MayUnlock(p, c, NO_LOCK, closing) && p.conns[c].level == SHARED_LOCK
    ensures ProcInv(DropReader(SetConn(p, c, p.conns[c].(phase := Unlocking(NO_LOCK, closing))), c), h)
  {
    var k := p.conns[c].(phase := Unlocking(NO_LOCK, closing));
    var r := SetConn(p, c, k);
    assert PhaseOk(p.pc, c, p.conns[c]);
    CountersAfterSet(p, r, c, k);
    LevelsAfterPhase(p, r, c, k);
    OthersOutside(p, c);
    DescriptorsFrame(p, h, r, c, k, h);
    DropReaderKeeps(r, h, c);
  }

  lemma UnlockEnterKeeps(p: Proc, h: Held, c: Cid, target: nat, closing: bool)
    requires ProcInv(p, h) && MayUnlock(p, c, target, closing)
    ensures ProcInv(UnlockEnter(p, c, target, closing), h)
  {
    if p.conns[c].level <= target {
      NothingToUnlockKeeps(p, h, c, target, closing);
    } else if p.conns[c].level > SHARED_LOCK {
      StartLowerKeeps(p, h, c, target, closing);
    } else {
      hide ProcInv;
      StartDropKeeps(p, h, c, closing);
    }
  }

  lemma NothingToUnlockKeeps(p: Proc, h: Held, c: Cid, target: nat, closing: bool)
    requires ProcInv(p, h) && MayUnlock(p, c, target, closing) && p.conns[c].level <= target
    ensures ProcInv(UnlockEnter(p, c, target, closing), h)
  {
    assert PhaseOk(p.pc, c, p.conns[c]);
    PhaseOnlyKeeps(p, h, UnlockEnter(p, c, target, closing), c, if closing then Closing else Ready, h);
  }

  /** A connection above SHARED starts to unlock. */
  lemma StartLowerKeeps(p: Proc, h: Held, c: Cid, target: nat, closing: bool)
    requires ProcInv(p, h) && MayUnlock(p, c, target, closing) && p.conns[c].level > SHARED_LOCK
    ensures ProcInv(UnlockEnter(p, c, target, closing), h)
  {
    assert PhaseOk(p.pc, c, p.conns[c]);
    PhaseOnlyKeeps(p, h, UnlockEnter(p, c, target, closing), c, Unlocking(target, closing), h);
  }

  // ---------------------------------------------------------------- the fcntl() calls

  /** What a successful fcntl() leaves the process holding. */
  function HeldAfterCall(p: Proc, h: Held, ok: bool): Held {
    if ok && Issued(p).SetLk? then Apply(h, Issued(p).range, Issued(p).mode) else h
  }

  /** UNIXFILE_EXCL: the first lock call takes the process lock; the rest of the code is unchanged. */
  lemma ProcessLockKeeps(p: Proc, h: Held)
    requires ProcInv(p, h) && p.excl && !p.processLock && !p.pc.Idle?
    ensures ProcInv(p.(processLock := true, nLock := p.nLock + 1), Apply(h, SharedRange, WriteLock))
    ensures p.pc.LkPendingRead?
  {
    var q := p.(processLock := true, nLock := p.nLock + 1);
    assert p.il == NO_LOCK;
    assert Members(q) == Members(p) && Live(q) == Live(p);
    var w :| WriterIs(p, w);
    assert WriterIs(q, w);
    LiveMeansOpen(p, h, p.pc.c);
  }

  lemma PendingReadKeeps(p: Proc, h: Held, ok: bool)
    requires ProcInv(p, h) && (p.excl && ok ==> p.processLock) && p.pc.LkPendingRead?
    ensures ProcInv(AfterCall(p, ok), HeldAfterCall(p, h, ok))
  {
    LiveMeansOpen(p, h, p.pc.c);
    PcMoveKeeps(p, h, if ok then LkSharedRead(p.pc.c) else Idle, HeldAfterCall(p, h, ok));
  }

  lemma SharedReadKeeps(p: Proc, h: Held, ok: bool)
    requires ProcInv(p, h) && (p.excl && ok ==> p.processLock) && p.pc.LkSharedRead?
    ensures ProcInv(AfterCall(p, ok), HeldAfterCall(p, h, ok))
  {
    LiveMeansOpen(p, h, p.pc.c);
    PcMoveKeeps(p, h, LkDropPending(p.pc.c, ok), HeldAfterCall(p, h, ok));
  }

  lemma DropPendingKeeps(p: Proc, h: Held, ok: bool)
    requires ProcInv(p, h) && (p.excl && ok ==> p.processLock) && p.pc.LkDropPending?
    ensures ProcInv(AfterCall(p, ok), HeldAfterCall(p, h, ok))
  {
    var c := p.pc.c;
    LiveMeansOpen(p, h, c);
    assert PhaseOk(p.pc, c, p.conns[c]);
    if ok && p.pc.got {
      SetLevelKeeps(p, h, c, SHARED_LOCK, 1, p.nLock + 1, HeldAfterCall(p, h, ok));
    } else {
      PcMoveKeeps(p, h, Idle, HeldAfterCall(p, h, ok));
    }
  }

  lemma PendingWriteKeeps(p: Proc, h: Held, ok: bool)
    requires ProcInv(p, h) && (p.excl && ok ==> p.processLock) && p.pc.LkPendingWrite?
    ensures ProcInv(AfterCall(p, ok), HeldAfterCall(p, h, ok))
  {
    var c := p.pc.c;
    LiveMeansOpen(p, h, c);
    if !ok {
      PcMoveKeeps(p, h, Idle, h);
    } else if p.nShared > 1 {
      SetLevelKeeps(p, h, c, PENDING_LOCK, p.nShared, p.nLock, HeldAfterCall(p, h, ok));
    } else {
      PcMoveKeeps(p, h, LkExclusive(c), HeldAfterCall(p, h, ok));
    }
  }

  lemma ReservedKeeps(p: Proc, h: Held, ok: bool)
    requires ProcInv(p, h) && (p.excl && ok ==> p.processLock) && p.pc.LkReserved?
    ensures ProcInv(AfterCall(p, ok), HeldAfterCall(p, h, ok))
  {
    var c := p.pc.c;
    LiveMeansOpen(p, h, c);
    if ok {
      SetLevelKeeps(p, h, c, RESERVED_LOCK, p.nShared, p.nLock, HeldAfterCall(p, h, ok));
    } else {
      PcMoveKeeps(p, h, Idle, h);
    }
  }

  lemma ExclusiveKeeps(p: Proc, h: Held, ok: bool)
    requires ProcInv(p, h) && (p.excl && ok ==> p.processLock) && p.pc.LkExclusive?
    ensures ProcInv(AfterCall(p, ok), HeldAfterCall(p, h, ok))
  {
    var level := if ok then EXCLUSIVE_LOCK else PENDING_LOCK;
    SetLevelKeeps(p, h, p.pc.c, level, p.nShared, p.nLock, HeldAfterCall(p, h, ok));
  }

  lemma LockCallKeeps(p: Proc, h: Held, ok: bool)
    requires ProcInv(p, h) && (p.excl && ok ==> p.processLock) && !p.pc.Idle? && !UnlockPc(p.pc)
    ensures ProcInv(AfterCall(p, ok), HeldAfterCall(p, h, ok))
  {
    hide Counters, Levels, Phases, PcOk, Backed, Descriptors;
    match p.pc
    case LkPendingRead(_) => PendingReadKeeps(p, h, ok);
    case LkSharedRead(_) => SharedReadKeeps(p, h, ok);
    case LkDropPending(_, _) => DropPendingKeeps(p, h, ok);
    case LkPendingWrite(_) => PendingWriteKeeps(p, h, ok);
    case LkReserved(_) => ReservedKeeps(p, h, ok);
    case LkExclusive(_) => ExclusiveKeeps(p, h, ok);
  }

  /** The locks above SHARED are dropped on the way to NO_LOCK. */
  lemma LowerToNoneKeeps(p: Proc, h: Held)
    requires ProcInv(p, h) && p.pc.UlPendingReserved? && (p.excl ==> p.processLock)
    requires p.pc.target == NO_LOCK
    ensures ProcInv(AfterCall(p, true), HeldAfterCall(p, h, true))
    ensures AfterCall(p, true).closed == p.closed
  {
    var c := p.pc.c;
    var h' := HeldAfterCall(p, h, true);
    assert PhaseOk(p.pc, c, p.conns[c]);
    OthersOutside(p, c);
    var k := p.conns[c].(eff := SHARED_LOCK);
    var r := SetConn(p, c, k).(il := SHARED_LOCK);
    hide Descriptors;
    CountersAfterSet(p, r, c, k);
    LevelsAfterLower(p, r, c, k);
    hide Counters, Levels;
    DescriptorsFrame(p, h, r, c, k, h');
    DropReaderKeeps(r, h', c);
  }

  /** The process once the locks above SHARED are dropped and the connection stays a reader. */
  function StaysReader(p: Proc): Proc
    requires p.pc.UlPendingReserved? && p.pc.c in p.conns
  {
    SetConn(p, p.pc.c, Returned(p.conns[p.pc.c].(eff := SHARED_LOCK), SHARED_LOCK)).(il := SHARED_LOCK, pc := Idle)
  }

  lemma StaysReaderCall(p: Proc, h: Held)
    requires p.pc.UlPendingReserved? && p.pc.c in p.conns && p.pc.target == SHARED_LOCK && (p.excl ==> p.processLock)
    ensures AfterCall(p, true) == StaysReader(p)
    ensures Backed(p, h) ==> Backed(StaysReader(p), HeldAfterCall(p, h, true))
  {
  }

  /** The locks above SHARED are dropped and the connection stays a reader. */
  lemma LowerToSharedKeeps(p: Proc, h: Held)
    requires ProcInv(p, h) && p.pc.UlPendingReserved? && (p.excl ==> p.processLock)
    requires p.pc.target == SHARED_LOCK
    ensures ProcInv(AfterCall(p, true), HeldAfterCall(p, h, true))
    ensures AfterCall(p, true).closed == p.closed
  {
    hide AfterCall, HeldAfterCall;
    var c := p.pc.c;
    var h' := HeldAfterCall(p, h, true);
    assert PhaseOk(p.pc, c, p.conns[c]);
    StaysReaderCall(p, h);
    hide Backed;
    OthersOutside(p, c);
    var k := Returned(p.conns[c].(eff := SHARED_LOCK), SHARED_LOCK);
    var q := StaysReader(p);
    hide Descriptors;
    CountersAfterSet(p, q, c, k);
    LevelsAfterLower(p, q, c, k);
    hide Counters, Levels;
    PhasesAfterSet(p, q, c, k);
    DescriptorsFrame(p, h, q, c, k, h');
  }

  /** The connection and the record once the last reader has left, before anything deferred is closed. */
  function LastConn(p: Proc, ok: bool): Conn
    requires p.pc.UlWholeFile? && p.pc.c in p.conns
  {
    if ok then Returned(p.conns[p.pc.c], NO_LOCK) else Failed(p.conns[p.pc.c].(level := NO_LOCK))
  }

  function LastLeft(p: Proc, ok: bool): Proc
    requires p.pc.UlWholeFile? && p.pc.c in p.conns
  {
    SetConn(p, p.pc.c, LastConn(p, ok)).(il := NO_LOCK, nLock := p.nLock - 1, pc := Idle)
  }

  lemma LastLeftLevels(p: Proc, ok: bool)
    requires Counters(p) && Levels(p) && Phases(p) && p.pc.UlWholeFile? && p.pc.c in p.conns
    requires p.conns[p.pc.c].eff == NO_LOCK && p.conns[p.pc.c].phase.Unlocking?
    ensures Counters(LastLeft(p, ok)) && Levels(LastLeft(p, ok))
  {
    var c, k, r := p.pc.c, LastConn(p, ok), LastLeft(p, ok);
    CountersAfterSet(p, r, c, k);
    CountedSets(p, r, c, k);
    forall d | d in r.conns
      ensures r.conns[d].eff == NO_LOCK
    {
      assert d !in Members(r);
    }
    assert WriterIs(r, c);
  }

  lemma LastLeftCall(p: Proc, ok: bool)
    requires p.pc.UlWholeFile? && p.pc.c in p.conns && (p.excl ==> p.processLock || !ok)
    ensures var r := LastLeft(p, ok); AfterCall(p, ok) == if r.nLock == 0 then ClosePending(r) else r
  {
  }

  lemma LastLeftBacked(p: Proc, h: Held, ok: bool)
    requires Backed(p, h) && p.pc.UlWholeFile? && p.pc.c in p.conns && Members(LastLeft(p, ok)) == {}
      && Counters(LastLeft(p, ok))
    ensures Backed(LastLeft(p, ok), HeldAfterCall(p, h, ok))
  {
  }

  /** The last reader has left, whatever F_UNLCK returned; a deferred close drops every lock. */
  lemma WholeFileKeeps(p: Proc, h: Held, ok: bool)
    requires ProcInv(p, h) && p.pc.UlWholeFile? && (p.excl ==> p.processLock || !ok)
    ensures var q := AfterCall(p, ok); ProcInv(q, HeldAfterClose(HeldAfterCall(p, h, ok), q.closed - p.closed))
  {
    hide AfterCall, HeldAfterCall;
    var c := p.pc.c;
    LiveMeansOpen(p, h, c);
    assert PhaseOk(p.pc, c, p.conns[c]);
    OthersOutside(p, c);
    var k, r, h1 := LastConn(p, ok), LastLeft(p, ok), HeldAfterCall(p, h, ok);
    LastLeftLevels(p, ok);
    LastLeftCall(p, ok);
    LastLeftBacked(p, h, ok);
    hide Levels, Backed, Counters;
    PhasesAfterSet(p, r, c, k);
    if r.nLock == 0 {
      DescriptorsFrame(p, h, r.(nLock := 1), c, k, h1);
      ClosePendingKeeps(r, h1);
    } else {
      DescriptorsFrame(p, h, r, c, k, h1);
    }
  }

  /** closePendingFds() closes exactly the descriptors of the unused list. */
  lemma ClosePendingDescriptors(p: Proc, h: Held, h': Held)
    requires Descriptors(p.(nLock := 1), h) && (p.nRef == 0 ==> h' == NO_LOCKS)
    ensures Descriptors(ClosePending(p), h')
  {
  }

  /** closePendingFds() when no lock is outstanding. */
  lemma ClosePendingKeeps(p: Proc, h: Held)
    requires Counters(p) && Levels(p) && Phases(p) && Backed(p, h) && p.nRef > 0
    requires p.nLock == 0 && p.pc == Idle
    requires Descriptors(p.(nLock := 1), h)
    ensures var q := ClosePending(p); ProcInv(q, HeldAfterClose(h, q.closed - p.closed))
  {
    var q := ClosePending(p);
    ClosePendingDescriptors(p, h, HeldAfterClose(h, q.closed - p.closed));
    hide Descriptors;
    assert Members(q) == Members(p) && Live(q) == Live(p);
    var w :| WriterIs(p, w);
    assert WriterIs(q, w);
  }

  lemma FailedUnlockKeeps(p: Proc, h: Held)
    requires ProcInv(p, h) && (p.pc.UlReadAll? || p.pc.UlPendingReserved?)
    ensures ProcInv(AfterCall(p, false), h)
    ensures AfterCall(p, false).closed == p.closed && HeldAfterCall(p, h, false) == h
  {
    var c := p.pc.c;
    assert PhaseOk(p.pc, c, p.conns[c]);
    hide Counters, Levels, Phases, Descriptors;
    PhaseOnlyKeeps(p, h, AfterCall(p, false), c, Resume(p.conns[c]), h);
  }

  lemma ReadAllKeeps(p: Proc, h: Held)
    requires ProcInv(p, h) && p.pc.UlReadAll? && (p.excl ==> p.processLock)
    ensures ProcInv(AfterCall(p, true), HeldAfterCall(p, h, true))
    ensures AfterCall(p, true).closed == p.closed
  {
    LiveMeansOpen(p, h, p.pc.c);
    hide Counters, Levels, Phases, Descriptors;
    PcMoveKeeps(p, h, UlPendingReserved(p.pc.c, SHARED_LOCK), HeldAfterCall(p, h, true));
  }

  lemma UnlockCallKeeps(p: Proc, h: Held, ok: bool)
    requires ProcInv(p, h) && UnlockPc(p.pc) && (p.excl && ok ==> p.processLock)
    ensures var q := AfterCall(p, ok); ProcInv(q, HeldAfterClose(HeldAfterCall(p, h, ok), q.closed - p.closed))
  {
    hide Counters, Levels, Backed, Descriptors, AfterCall, HeldAfterCall;
    assert p.pc.UlPendingReserved? ==> p.pc.target <= SHARED_LOCK by {
      assert PhaseOk(p.pc, p.pc.c, p.conns[p.pc.c]);
    }
    hide Phases, PcOk;
    if p.pc.UlWholeFile? {
      WholeFileKeeps(p, h, ok);
    } else if !ok {
      FailedUnlockKeeps(p, h);
    } else if p.pc.UlReadAll? {
      ReadAllKeeps(p, h);
    } else if p.pc.target == NO_LOCK {
      LowerToNoneKeeps(p, h);
    } else {
      LowerToSharedKeeps(p, h);
    }
  }

  lemma CallKeeps(p: Proc, h: Held, ok: bool)
    requires ProcInv(p, h) && Enabled(p, Call(ok))
    ensures ProcInv(StepProc(p, Call(ok)), StepHeld(p, h, Call(ok)))
  {
    hide Counters, Levels, Phases, Descriptors;
    if p.excl && !p.processLock && ok {
      ProcessLockKeeps(p, h);
      var q := p.(processLock := true, nLock := p.nLock + 1);
      LockCallKeeps(q, Apply(h, SharedRange, WriteLock), true);
    } else if UnlockPc(p.pc) {
      UnlockCallKeeps(p, h, ok);
    } else {
      LockCallKeeps(p, h, ok);
    }
  }
}
