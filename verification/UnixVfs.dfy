/** unixLock(), posixUnlock() and unixClose() as they are written, over the fields they update.

Each method is proved to take exactly the steps of `PosixFile`, one fcntl() at a time, for whatever
answers the kernel gives; so what `PosixTheorems` and `PosixDescriptors` say of the steps holds
at every system call of this code.  The source's own assertions are kept and proved. */
module UnixVfs {
  import opened Wrappers
  import opened PosixOs
  import opened LockLevels
  import opened PosixFile
  import opened PosixFileInv
  import opened PosixFileSteps
  import opened PosixFileClose
  import opened PosixAnswers
  import opened PosixOutcome

  datatype Rc = Ok | Busy | IoErr

  class UnixProcess {
    const excl: bool

    // The unixInodeInfo of the file.
    var eFileLock: nat
    var nShared: int
    var nLock: int
    var bProcessLock: bool
    var nRef: int
    var pUnused: seq<UnusedFd>

    // The process's unixFile objects on it.
    var files: map<Cid, Conn>
    var opening: map<Cid, UnusedFd>

    // The kernel's side.
    var fds: map<Fd, Owner>
    var closed: set<Fd>
    var held: Held

    ghost function At(pc: Pc): Point
      reads this
    {
      Point(Proc(excl, eFileLock, nShared, nLock, bProcessLock, nRef, pUnused, files, opening, fds, closed, pc), held)
    }

    ghost predicate Valid()
      reads this
    {
      ProcInv(At(Idle).p, held)
    }

    constructor (excl: bool)
      ensures Valid() && files == map[] && opening == map[] && this.excl == excl
    {
      this.excl := excl;
      eFileLock, nShared, nLock, bProcessLock, nRef, pUnused := NO_LOCK, 0, 0, false, 0, [];
      files, opening, fds, closed, held := map[], map[], map[], {}, NO_LOCKS;
      new;
      FreshProcInv(excl);
      assert At(Idle).p == FreshProc(excl);
    }

    /** fcntl(F_SETLK): the kernel decides. */
    method Fcntl(range: Range, mode: Mode) returns (ok: bool)
      modifies this`held
      ensures held == if ok then Apply(old(held), range, mode) else old(held)
    {
      ok := *;
      if ok {
        held := Apply(held, range, mode);
      }
    }

    method UnixFileLock(range: Range, mode: Mode) returns (ok: bool)
      requires excl && !bProcessLock ==> nLock == 0
      modifies this`held, this`bProcessLock, this`nLock
      ensures excl && old(bProcessLock) ==> ok && held == old(held) && bProcessLock && nLock == old(nLock)
      ensures excl && !old(bProcessLock) ==> held == if ok then Apply(old(held), SharedRange, WriteLock) else old(held)
      ensures excl && !old(bProcessLock) ==> bProcessLock == ok && nLock == old(nLock) + (if ok then 1 else 0)
      ensures !excl ==> bProcessLock == old(bProcessLock) && nLock == old(nLock)
      ensures !excl ==> held == if ok then Apply(old(held), range, mode) else old(held)
    {
      if excl {
        if !bProcessLock {
          assert nLock == 0;
          ok := Fcntl(SharedRange, WriteLock);
          if ok {
            bProcessLock := true;
            nLock := nLock + 1;
          }
        } else {
          ok := true;
        }
      } else {
        ok := Fcntl(range, mode);
      }
    }

    /** sqliteErrorFromPosixError() for a call that failed. */
    method ErrorFromPosix() returns (rc: Rc)
      ensures rc != Ok
    {
      var conflict: bool := *;
      rc := if conflict then Busy else IoErr;
    }

    /** The answers given so far lead here. */
    ghost predicate Arrived(start: Point, answers: seq<bool>, pc: Pc)
      reads this
    {
      AfterAnswers(start, answers) == Some(At(pc)) && ProcInv(At(pc).p, held)
    }

    /** unixFileLock() at the step pc of the call in progress; `after` is where the code that follows
    the answer leads. */
    method LockCall(range: Range, mode: Mode, ghost pc: Pc, ghost start: Point, ghost given: seq<bool>)
      returns (ok: bool, ghost answers: seq<bool>, ghost after: Point)
      requires !pc.Idle? && Wanted(pc) == SetLk(range, mode) && Arrived(start, given, pc)
      modifies this`held, this`bProcessLock, this`nLock
      ensures answers == given + [ok]
      ensures AfterAnswers(start, answers) == Some(after) && ProcInv(after.p, after.h)
      ensures ProcInv(start.p, start.h) ==> EveryCallOk(start, answers)
      ensures PcValid(At(pc).p) && after.p == AfterCall(At(pc).p, ok)
      ensures after.h == HeldAfterClose(held, after.p.closed - closed)
      ensures excl && ok ==> bProcessLock
      ensures bProcessLock == old(bProcessLock) ==> nLock == old(nLock)
      ensures bProcessLock != old(bProcessLock) ==> pc.LkPendingRead?
    {
      hide ProcInv, Enabled, AfterCall, AfterAnswers, EveryCallOk;
      ghost var p0, h0 := At(pc).p, held;
      CallFacts(p0, h0);
      ok := UnixFileLock(range, mode);
      answers := given + [ok];
      assert Enabled(p0, Call(ok));
      OneMoreAnswer(start, given, ok);
      CallKeeps(p0, h0, ok);
      AfterProcessLock(p0, ok);
      assert At(pc).p == WithProcessLock(p0, ok);
      assert held == HeldAfterCall(p0, h0, ok);
      after := Point(StepProc(p0, Call(ok)), StepHeld(p0, h0, Call(ok)));
      if ProcInv(start.p, start.h) {
        AnswersKeepInv(start, answers);
      }
    }

    /** unixLock(SHARED_LOCK), the read-lock on the shared range. */
    method ReadSharedRange(c: Cid, ghost start: Point, ghost given: seq<bool>)
      returns (rc: Rc, ghost answers: seq<bool>)
      requires Arrived(start, given, LkSharedRead(c))
      modifies this`held, this`bProcessLock, this`nLock
      ensures Arrived(start, answers, LkDropPending(c, rc == Ok))
      ensures rc != Ok ==> !AllYes(answers)
    {
      hide ProcInv, AfterCall, AfterAnswers;
      var got;
      ghost var after;
      got, answers, after := LockCall(SharedRange, ReadLock, LkSharedRead(c), start, given);
      AllYesMore(given, got);
      AfterSharedRead(At(LkSharedRead(c)).p, c, got);
      assert At(LkDropPending(c, got)) == after;
      rc := Ok;
      if !got {
        rc := ErrorFromPosix();
      }
    }

    /** unixLock(SHARED_LOCK), dropping the temporary PENDING lock and recording the level. */
    method DropTemporaryPending(c: Cid, got: Rc, ghost start: Point, ghost given: seq<bool>)
      returns (rc: Rc, ghost answers: seq<bool>)
      requires Arrived(start, given, LkDropPending(c, got == Ok)) && c in files && files[c].level == NO_LOCK
      requires got != Ok ==> !AllYes(given)
      modifies this
      ensures Arrived(start, answers, Idle)
      ensures c in files && files == old(files)[c := files[c]]
      ensures files[c].level == if rc == Ok then SHARED_LOCK else NO_LOCK
      ensures rc != Ok ==> !AllYes(answers)
    {
      hide ProcInv, AfterCall, AfterAnswers;
      var dropped;
      ghost var after;
      rc := got;
      dropped, answers, after := LockCall(PendingByte, Unlocked, LkDropPending(c, got == Ok), start, given);
      AllYesMore(given, dropped);
      AfterDropPending(At(LkDropPending(c, got == Ok)).p, c, got == Ok, dropped);
      if !dropped && rc == Ok {
        rc := IoErr;
      }
      if rc == Ok {
        files := files[c := files[c].(level := SHARED_LOCK, eff := SHARED_LOCK)];
        nLock := nLock + 1;
        nShared := 1;
        eFileLock := SHARED_LOCK;
      }
      assert At(Idle) == after;
    }

    /** unixLock(SHARED_LOCK) after the PENDING byte is read-locked. */
    method FinishShared(c: Cid, ghost start: Point, ghost given: seq<bool>) returns (rc: Rc, ghost answers: seq<bool>)
      requires Arrived(start, given, LkSharedRead(c))
      modifies this
      ensures Arrived(start, answers, Idle)
      ensures c in old(files) && old(files[c].level) == NO_LOCK
      ensures c in files && files == old(files)[c := files[c]]
      ensures files[c].level == if rc == Ok then SHARED_LOCK else NO_LOCK
      ensures rc != Ok ==> !AllYes(answers)
    {
      FirstReaderFacts(At(LkSharedRead(c)).p, held, c);
      hide ProcInv, AfterAnswers;
      assert nShared == 0 && eFileLock == NO_LOCK;
      rc, answers := ReadSharedRange(c, start, given);
      rc, answers := DropTemporaryPending(c, rc, start, answers);
    }

    /** unixLock(), the PENDING byte: a temporary read-lock for SHARED, a write-lock for EXCLUSIVE. */
    method LockPendingByte(c: Cid, want: nat, ghost start: Point)
      returns (ok: bool, ghost answers: seq<bool>, ghost after: Point)
      requires want == SHARED_LOCK || want == EXCLUSIVE_LOCK
      requires Arrived(start, [], if want == SHARED_LOCK then LkPendingRead(c) else LkPendingWrite(c))
      modifies this`held, this`bProcessLock, this`nLock
      ensures AfterAnswers(start, answers) == Some(after) && ProcInv(after.p, after.h) && c in files
      ensures !ok ==> after == At(Idle)
      ensures ok && want == SHARED_LOCK ==> after == At(LkSharedRead(c))
      ensures ok && want == EXCLUSIVE_LOCK ==>
        after == Point(LockFinalRequest(At(LkPendingWrite(c)).p, c, EXCLUSIVE_LOCK), held)
      ensures !ok ==> !AllYes(answers)
    {
      hide ProcInv, AfterCall, AfterAnswers;
      if want == SHARED_LOCK {
        ok, answers, after := LockCall(PendingByte, ReadLock, LkPendingRead(c), start, []);
        AllYesMore([], ok);
        AfterPendingRead(At(LkPendingRead(c)).p, c, ok);
      } else {
        ok, answers, after := LockCall(PendingByte, WriteLock, LkPendingWrite(c), start, []);
        AllYesMore([], ok);
        AfterPendingWrite(At(LkPendingWrite(c)).p, c, ok);
      }
    }

    /** unixLock(), the last fcntl() of RESERVED or EXCLUSIVE, and recording the level. */
    method LockReservedOrExclusive(c: Cid, want: nat, ghost start: Point, ghost given: seq<bool>)
      returns (rc: Rc, ghost answers: seq<bool>)
      requires want == RESERVED_LOCK || want == EXCLUSIVE_LOCK
      requires Arrived(start, given, if want == RESERVED_LOCK then LkReserved(c) else LkExclusive(c))
      requires c in files
      modifies this
      ensures Arrived(start, answers, Idle)
      ensures c in files && files == old(files)[c := files[c]]
      ensures files[c].level ==
        if rc == Ok then want else if want == EXCLUSIVE_LOCK then PENDING_LOCK else old(files[c].level)
      ensures rc != Ok ==> !AllYes(answers)
    {
      hide ProcInv, AfterCall, AfterAnswers;
      var got;
      ghost var after;
      if want == RESERVED_LOCK {
        got, answers, after := LockCall(ReservedByte, WriteLock, LkReserved(c), start, given);
        AllYesMore(given, got);
        AfterReserved(At(LkReserved(c)).p, c, got);
      } else {
        got, answers, after := LockCall(SharedRange, WriteLock, LkExclusive(c), start, given);
        AllYesMore(given, got);
        AfterExclusive(At(LkExclusive(c)).p, c, got);
      }
      rc := Ok;
      if !got {
        rc := ErrorFromPosix();
      }
      if rc == Ok {
        files := files[c := files[c].(level := want, eff := want)];
        eFileLock := want;
      } else if want == EXCLUSIVE_LOCK {
        files := files[c := files[c].(level := PENDING_LOCK, eff := PENDING_LOCK)];
        eFileLock := PENDING_LOCK;
      }
      assert At(Idle) == after;
    }

    /** unixLock() after the PENDING byte has been dealt with. */
    method LockPastPending(c: Cid, want: nat, ghost start: Point, ghost given: seq<bool>)
      returns (rc: Rc, ghost answers: seq<bool>)
      requires c in files && want != PENDING_LOCK && NO_LOCK < want <= EXCLUSIVE_LOCK
      requires want == SHARED_LOCK ==> Arrived(start, given, LkSharedRead(c))
      requires want > SHARED_LOCK ==> files[c].level >= SHARED_LOCK
      requires want > SHARED_LOCK ==>
        AfterAnswers(start, given) == Some(Point(LockFinalRequest(At(Idle).p, c, want), held))
      requires want > SHARED_LOCK ==> ProcInv(LockFinalRequest(At(Idle).p, c, want), held)
      modifies this
      ensures Arrived(start, answers, Idle) && c in files && files == old(files)[c := files[c]]
      ensures rc == Ok ==> files[c].level == want
      ensures rc != Ok ==> files[c].level == if want == EXCLUSIVE_LOCK then PENDING_LOCK else old(files[c].level)
      ensures rc != Ok && AllYes(answers) ==> rc == Busy
    {
      answers := given;
      if want == SHARED_LOCK {
        hide ProcInv, AfterAnswers;
        rc, answers := FinishShared(c, start, answers);
      } else if want == EXCLUSIVE_LOCK && nShared > 1 {
        rc := Busy;
        files := files[c := files[c].(level := PENDING_LOCK, eff := PENDING_LOCK)];
        eFileLock := PENDING_LOCK;
      } else {
        hide ProcInv, AfterAnswers;
        assert files[c].level != NO_LOCK;
        rc, answers := LockReservedOrExclusive(c, want, start, answers);
      }
    }

    /** unixLock() once the kernel has to be asked. */
    method LockWithCalls(c: Cid, want: nat, ghost start: Point) returns (rc: Rc, ghost answers: seq<bool>)
      requires MayLock(At(Idle).p, c, want) && start == Point(LockEnter(At(Idle).p, c, want), held)
      requires AfterAnswers(start, []) == Some(start) && ProcInv(start.p, start.h)
      requires files[c].level == eFileLock || (eFileLock < PENDING_LOCK && want == SHARED_LOCK)
      requires want == SHARED_LOCK ==> eFileLock != SHARED_LOCK && eFileLock != RESERVED_LOCK
      modifies this
      ensures Arrived(start, answers, Idle) && c in files && files == old(files)[c := files[c]]
      ensures rc == Ok <==> files[c].level >= want
      ensures rc != Ok ==>
        files[c].level == old(files[c].level) || (want == EXCLUSIVE_LOCK && files[c].level == PENDING_LOCK)
      ensures rc != Ok && AllYes(answers) ==> rc == Busy
    {
      hide ProcInv, AfterCall, AfterAnswers;
      answers := [];
      if want == SHARED_LOCK || (want == EXCLUSIVE_LOCK && files[c].level < PENDING_LOCK) {
        var got;
        ghost var after;
        got, answers, after := LockPendingByte(c, want, start);
        if !got {
          rc := ErrorFromPosix();
          return;
        }
      }
      rc, answers := LockPastPending(c, want, start, answers);
    }

    /** unixLock() inside the mutex. */
    method LockInMutex(c: Cid, want: nat, ghost start: Point) returns (rc: Rc, ghost answers: seq<bool>)
      requires MayLock(At(Idle).p, c, want) && start == Point(LockEnter(At(Idle).p, c, want), held)
      requires AfterAnswers(start, []) == Some(start) && ProcInv(start.p, start.h)
      requires eFileLock == SHARED_LOCK || eFileLock == RESERVED_LOCK ==> nShared > 0
      modifies this
      ensures Arrived(start, answers, Idle) && c in files && files == old(files)[c := files[c]]
      ensures rc == Ok <==> files[c].level >= want
      ensures rc != Ok ==>
        files[c].level == old(files[c].level) || (want == EXCLUSIVE_LOCK && files[c].level == PENDING_LOCK)
      ensures rc != Ok && AllYes(answers) ==> rc == Busy
    {
      hide ProcInv, AfterCall, AfterAnswers;
      answers := [];
      rc := Ok;
      if files[c].level != eFileLock && (eFileLock >= PENDING_LOCK || want > SHARED_LOCK) {
        rc := Busy;
        assert At(Idle) == start;
      } else if want == SHARED_LOCK && (eFileLock == SHARED_LOCK || eFileLock == RESERVED_LOCK) {
        assert files[c].level == NO_LOCK && nShared > 0;
        files := files[c := files[c].(level := SHARED_LOCK, eff := SHARED_LOCK)];
        nShared := nShared + 1;
        nLock := nLock + 1;
        assert At(Idle) == start;
      } else {
        hide LockEnter;
        rc, answers := LockWithCalls(c, want, start);
      }
    }

    /** unixLock().  `answers` are the kernel's answers to its fcntl() calls, in order. */
    method UnixLock(c: Cid, want: nat) returns (rc: Rc, ghost answers: seq<bool>)
      requires Valid() && c in files && files[c].phase == Ready
      requires files[c].level < want ==> MayLock(At(Idle).p, c, want)
      modifies this
      ensures Valid() && c in files && files == old(files)[c := files[c]]
      ensures old(files[c].level) >= want ==> rc == Ok && answers == [] && At(Idle) == old(At(Idle))
      ensures old(files[c].level) < want ==>
                LockOutcome(old(At(Idle).p), old(held), c, want, answers, files[c].level, held)
      ensures rc != Ok && AllYes(answers) ==> rc == Busy
      ensures old(files[c].level) < want ==>
                AfterAnswers(Point(StepProc(old(At(Idle).p), Lock(c, want)), old(held)), answers) == Some(At(Idle))
      ensures old(files[c].level) < want ==>
                EveryCallOk(Point(StepProc(old(At(Idle).p), Lock(c, want)), old(held)), answers)
      ensures rc == Ok <==> files[c].level >= want
      ensures rc != Ok ==>
        files[c].level == old(files[c].level) || (want == EXCLUSIVE_LOCK && files[c].level == PENDING_LOCK)
    {
      answers := [];
      rc := Ok;
      if files[c].level < want {
        ghost var start := Point(StepProc(At(Idle).p, Lock(c, want)), held);
        LockEntryFacts(At(Idle).p, held, c, want);
        assert AfterAnswers(start, []) == Some(start);
        ghost var p0, h0 := At(Idle).p, held;
        hide ProcInv, AfterCall, AfterAnswers, LockEnter, EveryCallOk, LockOutcome;
        rc, answers := LockInMutex(c, want, start);
        AnswersKeepInv(start, answers);
        LockOutcomeIs(p0, h0, c, want, answers, At(Idle));
      }
    }

    // -------------------------------------------------------------- posixUnlock

    /** posixUnlock(), end_unlock with an error. */
    method GiveUp(c: Cid)
      requires c in files
      modifies this`files
      ensures files == old(files)[c := Failed(old(files[c]))]
    {
      files := files[c := Failed(files[c])];
    }

    /** posixUnlock(SHARED_LOCK), turning the write-lock on the shared range into a read-lock. */
    method ReadLockAgain(c: Cid, ghost start: Point) returns (rc: Rc, ghost answers: seq<bool>)
      requires Arrived(start, [], UlReadAll(c)) && c in files
      modifies this
      ensures Arrived(start, answers, if rc == Ok then UlPendingReserved(c, SHARED_LOCK) else Idle)
      ensures c in files && files == old(files)[c := if rc == Ok then old(files[c]) else Failed(old(files[c]))]
    {
      hide ProcInv, AfterCall, AfterAnswers;
      var ok;
      ghost var after;
      ok, answers, after := LockCall(SharedRange, ReadLock, UlReadAll(c), start, []);
      AfterReadAll(At(UlReadAll(c)).p, c, ok);
      rc := Ok;
      if !ok {
        rc := IoErr;
        GiveUp(c);
      }
      assert At(if rc == Ok then UlPendingReserved(c, SHARED_LOCK) else Idle) == after;
    }

    /** posixUnlock(), dropping the PENDING and RESERVED bytes in one call. */
    method DropPendingReserved(c: Cid, target: nat, ghost start: Point, ghost given: seq<bool>)
      returns (rc: Rc, ghost answers: seq<bool>)
      requires Arrived(start, given, UlPendingReserved(c, target)) && c in files
      modifies this
      ensures rc != Ok ==> Arrived(start, answers, Idle) && files == old(files)[c := Failed(old(files[c]))]
      ensures rc == Ok ==> files == old(files)[c := old(files[c]).(eff := SHARED_LOCK)]
      ensures rc == Ok ==> AfterAnswers(start, answers) == Some(Point(LeaveOrStay(At(Idle).p, c, target), held))
      ensures rc == Ok ==> ProcInv(LeaveOrStay(At(Idle).p, c, target), held)
    {
      hide ProcInv, AfterCall, AfterAnswers;
      var ok;
      ghost var after;
      ok, answers, after := LockCall(PendingAndReserved, Unlocked, UlPendingReserved(c, target), start, given);
      AfterPendingReserved(At(UlPendingReserved(c, target)).p, c, target, ok);
      ghost var lowered := Lowered(At(UlPendingReserved(c, target)).p, c);
      rc := Ok;
      if ok {
        eFileLock := SHARED_LOCK;
        files := files[c := files[c].(eff := SHARED_LOCK)];
        assert At(Idle).p == lowered;
      } else {
        rc := IoErr;
        GiveUp(c);
        assert At(Idle) == after;
      }
    }

    /** closePendingFds() */
    method ClosePendingFds()
      modifies this
      ensures At(Idle) == old(Point(ClosePending(At(Idle).p), HeldAfterClose(held, FdSet(pUnused) - closed)))
    {
      var toClose := FdSet(pUnused);
      if toClose - closed != {} {
        held := NO_LOCKS;
      }
      fds := fds - toClose;
      closed := closed + toClose;
      pUnused := [];
    }

    /** posixUnlock(NO_LOCK), the fcntl() of the process's last reader. */
    method UnlockWholeFile(c: Cid, ghost start: Point, ghost given: seq<bool>)
      returns (rc: Rc, ghost answers: seq<bool>)
      requires Arrived(start, given, UlWholeFile(c)) && c in files
      modifies this
      ensures Arrived(start, answers, Idle)
      ensures files == old(files)[c := if rc == Ok then Returned(old(files[c]), NO_LOCK)
        else Failed(old(files[c]).(level := NO_LOCK))]
    {
      hide ProcInv, AfterCall, AfterAnswers;
      var ok;
      ghost var after;
      ok, answers, after := LockCall(WholeFile, Unlocked, UlWholeFile(c), start, given);
      AfterWholeFile(At(UlWholeFile(c)).p, c, ok);
      rc := Ok;
      eFileLock := NO_LOCK;
      if ok {
        files := files[c := Returned(files[c], NO_LOCK)];
      } else {
        rc := IoErr;
        files := files[c := files[c].(level := NO_LOCK)];
        GiveUp(c);
      }
      nLock := nLock - 1;
      ghost var r := At(Idle);
      if nLock == 0 {
        ClosePendingFds();
        assert ClosePending(r.p).closed - r.p.closed == FdSet(r.p.unused) - r.p.closed;
      }
      assert At(Idle) == after;
    }

    /** posixUnlock(NO_LOCK) when other readers of the process remain. */
    method NotLastReader(c: Cid)
      requires c in files && nShared != 0
      modifies this
      ensures
        var p := Proc(excl, old(eFileLock), old(nShared) + 1, old(nLock), old(bProcessLock), old(nRef), old(pUnused),
          old(files), old(opening), old(fds), old(closed), Idle);
        At(Idle) == Point(DropReader(p, c), old(held))
      ensures files == old(files)[c := Returned(old(files[c]).(eff := NO_LOCK), NO_LOCK)]
    {
      files := files[c := Returned(files[c].(eff := NO_LOCK), NO_LOCK)];
      nLock := nLock - 1;
    }

    /** posixUnlock(NO_LOCK), from the point where the reader is no longer counted. */
    method LeaveReaders(c: Cid, ghost start: Point, ghost given: seq<bool>) returns (rc: Rc, ghost answers: seq<bool>)
      requires c in files && files[c].phase.Unlocking?
      requires AfterAnswers(start, given) == Some(Point(DropReader(At(Idle).p, c), held))
        && ProcInv(DropReader(At(Idle).p, c), held)
      modifies this
      ensures Arrived(start, answers, Idle)
      ensures c in files && files == old(files)[c := files[c]]
      ensures files[c] == var k := old(files[c]).(eff := NO_LOCK);
        if rc == Ok then Returned(k, NO_LOCK) else Failed(k.(level := NO_LOCK))
    {
      hide ProcInv, AfterAnswers, Failed;
      StillLocked(At(Idle).p, held, c);
      ghost var dropped, f0 := DropReader(At(Idle).p, c), files;
      rc := Ok;
      answers := given;
      nShared := nShared - 1;
      if nShared == 0 {
        files := files[c := files[c].(eff := NO_LOCK)];
        assert At(UlWholeFile(c)).p == dropped;
        hide DropReader;
        ghost var k := files[c];
        rc, answers := UnlockWholeFile(c, start, answers);
        UpdateTwice(f0, c, k, files[c]);
      } else {
        NotLastReader(c);
        assert nLock > 0;
        assert At(Idle).p == dropped;
      }
    }

    /** posixUnlock() of a connection above SHARED, inside the mutex. */
    method UnlockWriter(c: Cid, target: nat, ghost start: Point) returns (rc: Rc, ghost answers: seq<bool>)
      requires target <= SHARED_LOCK
      requires c in files
        && Arrived(start, [], if target == SHARED_LOCK then UlReadAll(c) else UlPendingReserved(c, target))
      modifies this
      ensures c in files && files.Keys == old(files.Keys)
      ensures rc != Ok ==> Arrived(start, answers, Idle) && files == old(files)[c := Failed(old(files[c]))]
      ensures rc == Ok ==> files == old(files)[c := old(files[c]).(eff := SHARED_LOCK)]
      ensures rc == Ok ==> AfterAnswers(start, answers) == Some(Point(LeaveOrStay(At(Idle).p, c, target), held))
      ensures rc == Ok ==> ProcInv(LeaveOrStay(At(Idle).p, c, target), held)
    {
      hide ProcInv, AfterAnswers, LeaveOrStay;
      rc, answers := Ok, [];
      if target == SHARED_LOCK {
        rc, answers := ReadLockAgain(c, start);
      }
      if rc == Ok {
        rc, answers := DropPendingReserved(c, target, start, answers);
      }
    }

    /** posixUnlock() inside the mutex, after the connection is no more than a reader. */
    method UnlockReader(c: Cid, target: nat, ghost start: Point, ghost given: seq<bool>)
      returns (rc: Rc, ghost answers: seq<bool>)
      requires c in files && files[c].phase.Unlocking? && target <= SHARED_LOCK
      requires AfterAnswers(start, given) == Some(Point(LeaveOrStay(At(Idle).p, c, target), held))
      requires ProcInv(LeaveOrStay(At(Idle).p, c, target), held)
      modifies this
      ensures Arrived(start, answers, Idle)
      ensures c in files && files == old(files)[c := files[c]]
      ensures rc == Ok ==>
        files[c].phase == Released(target, old(files[c].phase.closing)) && files[c].level == old(files[c].level)
      ensures rc != Ok ==> target == NO_LOCK && files[c].level == NO_LOCK && files[c].phase == Resume(old(files[c]))
    {
      hide ProcInv, AfterAnswers;
      if target == NO_LOCK {
        rc, answers := LeaveReaders(c, start, given);
      } else {
        rc, answers := Ok, given;
        files := files[c := Returned(files[c], target)];
      }
    }

    /** posixUnlock() between taking and dropping the mutex. */
    method UnlockInMutex(c: Cid, target: nat, closing: bool, ghost start: Point)
      returns (rc: Rc, ghost answers: seq<bool>)
      requires c in files && files[c].phase.Unlocking? && target <= SHARED_LOCK && files[c].level > target
      requires files[c].phase == Unlocking(target, closing)
      requires AfterAnswers(start, []) == Some(start) && ProcInv(start.p, start.h)
      requires files[c].level > SHARED_LOCK ==>
        start == At(if target == SHARED_LOCK then UlReadAll(c) else UlPendingReserved(c, target))
      requires files[c].level == SHARED_LOCK ==> start == Point(LeaveOrStay(At(Idle).p, c, target), held)
      modifies this
      ensures Arrived(start, answers, Idle)
      ensures c in files && files == old(files)[c := files[c]]
      ensures rc == Ok ==> files[c].phase == Released(target, closing) && files[c].level == old(files[c].level)
      ensures rc != Ok ==>
        files[c].phase == Resume(old(files[c])) && (files[c].level == old(files[c].level) || files[c].level == NO_LOCK)
    {
      hide ProcInv, AfterAnswers, LeaveOrStay;
      rc, answers := Ok, [];
      if files[c].level > SHARED_LOCK {
        rc, answers := UnlockWriter(c, target, start);
      }
      if rc == Ok {
        rc, answers := UnlockReader(c, target, start, answers);
      }
    }

    /** The connection records its level, after the mutex. */
    method WriteEFileLock(c: Cid, target: nat)
      requires Valid() && c in files && files[c].phase.Released? && files[c].phase.target == target
      modifies this`files
      ensures Valid() && old(Enabled(At(Idle).p, WriteLevel(c)))
        && At(Idle) == old(Point(StepProc(At(Idle).p, WriteLevel(c)), held))
      ensures files == old(files)[c := old(files[c]).(level := target, phase := Resume(old(files[c])))]
    {
      WriteLevelValid(At(Idle).p, held, c);
      hide ProcInv;
      files := files[c := files[c].(level := target, phase := Resume(files[c]))];
    }

    /** posixUnlock() of a connection that holds more than the target. */
    method UnlockHeld(c: Cid, target: nat, closing: bool)
      returns (rc: Rc, ghost answers: seq<bool>, ghost inMutex: Point)
      requires MayUnlock(At(Idle).p, c, target, closing) && files[c].level > target
      requires ProcInv(UnlockEnter(At(Idle).p, c, target, closing), held)
      requires nShared != 0 && (files[c].level > SHARED_LOCK ==> eFileLock == files[c].level)
      modifies this
      ensures Valid() && c in files && files == old(files)[c := files[c]]
      ensures AfterAnswers(Point(UnlockEnter(old(At(Idle).p), c, target, closing), old(held)), answers) == Some(inMutex)
      ensures inMutex.p.pc == Idle
      ensures rc != Ok ==> At(Idle) == inMutex
      ensures rc == Ok ==>
        Enabled(inMutex.p, WriteLevel(c)) && At(Idle) == Point(StepProc(inMutex.p, WriteLevel(c)), inMutex.h)
      ensures rc == Ok ==> files[c].level == target
      ensures rc != Ok ==> files[c].level == old(files[c].level) || files[c].level == NO_LOCK
      ensures files[c].phase == if closing then Closing else Ready
    {
      ghost var start, f0 := Point(UnlockEnter(At(Idle).p, c, target, closing), held), files;
      assert AfterAnswers(start, []) == Some(start);
      hide ProcInv, AfterAnswers, StepProc, Enabled;
      assert nShared != 0;
      assert files[c].level > SHARED_LOCK ==> eFileLock == files[c].level;
      files := files[c := files[c].(phase := Unlocking(target, closing))];
      ghost var k := files[c];
      assert files[c].level > SHARED_LOCK ==>
        start == At(if target == SHARED_LOCK then UlReadAll(c) else UlPendingReserved(c, target));
      assert files[c].level == SHARED_LOCK ==> start == Point(LeaveOrStay(At(Idle).p, c, target), held);
      hide UnlockEnter, LeaveOrStay;
      rc, answers := UnlockInMutex(c, target, closing, start);
      inMutex := At(Idle);
      UpdateTwice(f0, c, k, files[c]);
      if rc == Ok {
        ghost var k1 := files[c];
        WriteEFileLock(c, target);
        UpdateTwice(f0, c, k1, files[c]);
      }
    }

    /** posixUnlock().  With rc == Ok, `inMutex` is the point at which the mutex is dropped; what
    follows is the write of eFileLock, during which siblings and other processes may already run. */
    method PosixUnlock(c: Cid, target: nat, closing: bool)
      returns (rc: Rc, ghost answers: seq<bool>, ghost inMutex: Point)
      requires Valid() && MayUnlock(At(Idle).p, c, target, closing)
      modifies this
      ensures Valid() && c in files && files == old(files)[c := files[c]]
      ensures old(files[c].level) <= target ==>
        rc == Ok && At(Idle) == old(Point(StepProc(At(Idle).p, Unlock(c, target, closing)), held))
      ensures old(files[c].level) > target ==>
                AfterAnswers(Point(StepProc(old(At(Idle).p), Unlock(c, target, closing)), old(held)), answers) ==
                  Some(inMutex)
      ensures old(files[c].level) > target ==>
                EveryCallOk(Point(StepProc(old(At(Idle).p), Unlock(c, target, closing)), old(held)), answers)
      ensures nRef == old(nRef)
      ensures old(files[c].level) <= target ==> answers == []
      ensures old(files[c].level) > target ==>
                UnlockOutcome(old(At(Idle).p), old(held), c, target, answers, rc == Ok, files[c].level, held, closed)
      ensures old(files[c].level) > target && rc != Ok ==> At(Idle) == inMutex
      ensures old(files[c].level) > target && rc == Ok ==>
                Enabled(inMutex.p, WriteLevel(c)) && At(Idle) == Point(StepProc(inMutex.p, WriteLevel(c)), inMutex.h)
      ensures rc == Ok ==> files[c].level == if old(files[c].level) <= target then old(files[c].level) else target
      ensures rc != Ok ==> files[c].level == old(files[c].level) || files[c].level == NO_LOCK
      ensures files[c].phase == if closing then Closing else Ready
    {
      hide ProcInv, AfterCall, AfterAnswers, DropReader, Failed, Returned, EveryCallOk;
      UnlockEntryFacts(At(Idle).p, held, c, target, closing);
      if files[c].level <= target {
        rc, answers, inMutex := Ok, [], At(Idle);
        files := files[c := files[c].(phase := if closing then Closing else Ready)];
      } else {
        ghost var start := Point(UnlockEnter(At(Idle).p, c, target, closing), held);
        ghost var p0, h0 := At(Idle).p, held;
        rc, answers, inMutex := UnlockHeld(c, target, closing);
        AnswersKeepInv(start, answers);
        UnlockOutcomeIs(p0, h0, h0, c, target, closing, answers, inMutex);
        SameUsers(p0, h0, At(Idle).p, held, c);
      }
    }

    // -------------------------------------------------------------- unixClose

    method SetPendingFd(node: UnusedFd)
      modifies this`pUnused, this`fds
      ensures pUnused == [node] + old(pUnused) && fds == old(fds)[node.fd := ByUnused]
    {
      pUnused := [node] + pUnused;
      fds := fds[node.fd := ByUnused];
    }

    /** releaseInodeInfo(): c stops using the inode record; the last one frees it. */
    method ReleaseInodeInfo(c: Cid)
      requires c in files && nRef > 0
      modifies this
      ensures var p, h := old(At(Idle).p), old(held);
        var k := p.conns[c];
        var r := p.(nRef := p.nRef - 1, conns := if k.eff == NO_LOCK then p.conns - {c}
          else p.conns[c := k.(phase := Gone)]);
        At(Idle) == if r.nRef == 0 then Point(FreeInode(r), HeldAfterClose(h, FdSet(p.unused) - p.closed))
          else Point(r, h)
    {
      nRef := nRef - 1;
      files := if files[c].eff == NO_LOCK then files - {c} else files[c := files[c].(phase := Gone)];
      if nRef == 0 {
        ClosePendingFds();
        eFileLock, nShared, nLock, bProcessLock, files := NO_LOCK, 0, 0, false, map[];
      }
    }

    /** closeUnixFile() of a file whose descriptor was not deferred. */
    method CloseUnixFile(fd: Fd)
      modifies this`fds, this`closed, this`held
      ensures fds == old(fds) - {fd} && closed == old(closed) + {fd} && held == NO_LOCKS
    {
      fds := fds - {fd};
      closed := closed + {fd};
      held := NO_LOCKS;
    }

    /** Locks are outstanding: the descriptor is kept until they are gone. */
    method CloseDeferred(c: Cid)
      requires c in files && nRef > 0 && nLock != 0 && files[c].node.fd !in closed
      modifies this
      ensures At(Idle) ==
        old(Point(CloseStep(At(Idle).p, c), HeldAfterClose(held, CloseStep(At(Idle).p, c).closed - closed)))
    {
      ghost var p0 := At(Idle).p;
      var node := files[c].node;
      SetPendingFd(node);
      ReleaseInodeInfo(c);
      assert At(Idle).p == CloseStep(p0, c);
    }

    /** No lock is outstanding: the descriptor is closed. */
    method CloseNow(c: Cid)
      requires c in files && nRef > 0 && nLock == 0 && pUnused == [] && files[c].node.fd !in closed
      modifies this
      ensures At(Idle) ==
        old(Point(CloseStep(At(Idle).p, c), HeldAfterClose(held, CloseStep(At(Idle).p, c).closed - closed)))
    {
      ghost var p0 := At(Idle).p;
      DirectCloseLast(p0, c);
      var node := files[c].node;
      hide CloseStep;
      ReleaseInodeInfo(c);
      CloseUnixFile(node.fd);
      assert At(Idle).p == CloseStep(p0, c);
      assert node.fd in CloseStep(p0, c).closed - p0.closed;
    }

    /** One user fewer.  While locks are outstanding the descriptor waits on the unused list; else it is
    closed, and the last user closes it and all that wait.  A connection without a lock is gone. */
    ghost predicate ClosedAs(c: Cid, files0: map<Cid, Conn>, unused0: seq<UnusedFd>, fds0: map<Fd, Owner>,
      closed0: set<Fd>, nRef0: int, nLock0: int, held0: Held)
      requires c in files0
      reads this
    {
      var node := files0[c].node;
      && nRef == nRef0 - 1
      && (nRef0 > 1 && files0[c].eff == NO_LOCK ==> files == files0 - {c})
      && (nRef0 > 1 && files0[c].eff != NO_LOCK ==> files == files0[c := files0[c].(phase := Gone)])
      && (nRef0 == 1 ==> files == map[] && pUnused == [] && held == NO_LOCKS)
      && (nRef0 == 1 ==> closed == closed0 + FdSet(unused0) + {node.fd})
      && (nRef0 == 1 ==> fds == fds0 - FdSet(unused0) - {node.fd})
      && (nRef0 > 1 && nLock0 != 0 ==> pUnused == [node] + unused0 && held == held0 && closed == closed0)
      && (nRef0 > 1 && nLock0 != 0 ==> fds == fds0[node.fd := ByUnused])
      && (nRef0 > 1 && nLock0 == 0 ==> pUnused == [] && held == NO_LOCKS)
      && (nRef0 > 1 && nLock0 == 0 ==> closed == closed0 + {node.fd} && fds == fds0 - {node.fd})
    }

    /** unixClose() after its unixUnlock(NO_LOCK). */
    method CloseAfterUnlock(c: Cid)
      requires Valid() && c in files && files[c].phase == Closing
      modifies this
      ensures Valid()
      ensures ClosedAs(c, old(files), old(pUnused), old(fds), old(closed), old(nRef), old(nLock), old(held))
      ensures At(Idle) ==
        old(Point(CloseStep(At(Idle).p, c), HeldAfterClose(held, CloseStep(At(Idle).p, c).closed - closed)))
    {
      hide ProcInv, CloseStep;
      CloseFacts(At(Idle).p, held, c);
      if nRef == 1 {
        LastCloseIs(At(Idle).p, c);
      } else {
        EarlierCloseIs(At(Idle).p, c);
      }
      ghost var closes := CloseStep(At(Idle).p, c).closed - closed;
      assert nRef == 1 || nLock == 0 ==> files[c].node.fd in closes;
      assert nRef > 1 && nLock != 0 ==> closes == {};
      assert nLock > 0 || !bProcessLock;
      if nLock != 0 {
        CloseDeferred(c);
      } else {
        CloseNow(c);
      }
    }

    /** unixClose(): the result of the unlock is ignored.  A connection whose unlock failed stays
    counted in the inode record, and its descriptor stays open, until the record is freed. */
    method UnixClose(c: Cid) returns (ghost answers: seq<bool>)
      requires Valid() && c in files && files[c].phase == Ready
      modifies this
      ensures Valid()
      ensures |answers| == |UnlockRequests(old(files), c, NO_LOCK, answers)|
      ensures c in files <==> old(nRef) > 1 && UnlockLevel(old(files), c, NO_LOCK, answers) != NO_LOCK
      ensures c in files ==> files[c].phase == Gone && NO_LOCK < files[c].level == old(files[c].level)
      ensures nRef == old(nRef) - 1 && (nRef == 0 ==> files == map[] && pUnused == [] && held == NO_LOCKS)
      ensures forall d :: d in files && d != c ==> d in old(files) && files[d] == old(files)[d]
      ensures nRef > 0 ==> forall d :: d in old(files) && d != c ==> d in files
    {
      hide ProcInv, CloseStep, AfterAnswers, UnlockRequests, UnlockLevel, SiblingAbove, StepProc, StepHeld, Enabled;
      hide EveryCallOk, Made, AllYes, ClosedBy, FdSet;
      var rc;
      ghost var inMutex;
      rc, answers, inMutex := PosixUnlock(c, NO_LOCK, true);
      ClosedConn(At(Idle).p, held, c);
      BetweenUnlockAndClose(At(Idle).p, held, c);
      NothingAsked(old(files), c);
      CloseAfterUnlock(c);
    }

    static lemma NothingAsked(conns: map<Cid, Conn>, c: Cid)
      requires c in conns
      ensures conns[c].level == NO_LOCK ==>
        UnlockRequests(conns, c, NO_LOCK, []) == [] && UnlockLevel(conns, c, NO_LOCK, []) == NO_LOCK
    {
    }

    lemma BetweenUnlockAndClose(p: Proc, h: Held, c: Cid)
      requires ProcInv(p, h) && p.pc == Idle && c in p.conns && p.conns[c].phase == Closing
      ensures p.conns[c].eff == p.conns[c].level && p.nRef > 0
    {
      assert PhaseOk(p.pc, c, p.conns[c]);
      LiveMeansOpen(p, h, c);
    }

    // -------------------------------------------------------------- opening

    /** findReusableFd(): the first unused descriptor with the wanted flags is taken off the list. */
    method FindReusableFd(flags: nat) returns (found: Option<UnusedFd>)
      modifies this`pUnused
      ensures var i := FirstMatch(old(pUnused), flags);
        if i < |old(pUnused)| then
          found == Some(old(pUnused)[i]) && pUnused == old(pUnused)[..i] + old(pUnused)[i + 1..]
        else found == None && pUnused == old(pUnused)
    {
      var i := 0;
      while i < |pUnused| && pUnused[i].flags != flags
        invariant i <= |pUnused|
        invariant forall j :: 0 <= j < i ==> pUnused[j].flags != flags
      {
        i := i + 1;
      }
      FirstMatchUnique(pUnused, flags, i);
      if i < |pUnused| {
        found := Some(pUnused[i]);
        pUnused := pUnused[..i] + pUnused[i + 1..];
      } else {
        found := None;
      }
    }

    /** The first entry with the flags. */
    static ghost predicate FirstWith(unused: seq<UnusedFd>, flags: nat, i: int) {
      0 <= i < |unused| && unused[i].flags == flags && forall j :: 0 <= j < i ==> unused[j].flags != flags
    }

    /** If stat() works and some unused descriptor has the flags, the first of them is taken off the list,
    where the others keep their order; else a new one is taken and the list stays. */
    ghost predicate TakenAs(c: Cid, flags: nat, statOk: bool, newFd: Fd, unused0: seq<UnusedFd>,
      opening0: map<Cid, UnusedFd>, fds0: map<Fd, Owner>)
      reads this
    {
      if statOk && exists x :: x in unused0 && x.flags == flags then
        exists i ::
          && FirstWith(unused0, flags, i)
          && opening == opening0[c := unused0[i]]
          && pUnused == unused0[..i] + unused0[i + 1..]
          && fds == fds0[unused0[i].fd := ByOpening(c)]
      else
        && opening == opening0[c := UnusedFd(newFd, flags)]
        && pUnused == unused0 && fds == fds0[newFd := ByOpening(c)]
    }

    /** The descriptor unixOpen() goes on with: a reusable one if stat() succeeds and there is one, else
    the one open(2) returns. */
    method PickDescriptor(c: Cid, flags: nat, statOk: bool, newFd: Fd)
      modifies this
      ensures At(Idle) == old(Point(TakeStep(At(Idle).p, c, flags, statOk, newFd), held))
      ensures TakenAs(c, flags, statOk, newFd, old(pUnused), old(opening), old(fds))
      ensures files == old(files) && nRef == old(nRef) && held == old(held) && closed == old(closed)
    {
      ghost var was := pUnused;
      ghost var i := FirstMatch(was, flags);
      var found := None;
      if statOk {
        found := FindReusableFd(flags);
      }
      assert found.Some? ==> FirstWith(was, flags, i) && was[i] in was;
      var node := if found.Some? then found.value else UnusedFd(newFd, flags);
      fds := fds[node.fd := ByOpening(c)];
      opening := opening[c := node];
    }

    /** unixOpen() up to having a descriptor. */
    method TakeDescriptor(c: Cid, flags: nat, statOk: bool, newFd: Fd)
      requires Valid() && c !in files && c !in opening && newFd !in fds && newFd !in closed
      modifies this
      ensures Valid() && At(Idle) == old(Point(TakeStep(At(Idle).p, c, flags, statOk, newFd), held))
      ensures TakenAs(c, flags, statOk, newFd, old(pUnused), old(opening), old(fds))
      ensures files == old(files) && nRef == old(nRef) && held == old(held) && closed == old(closed)
      ensures c in opening && opening[c] !in pUnused
      ensures fds.Keys == old(fds.Keys) + if opening[c] in old(pUnused) then {} else {newFd}
    {
      TakeValid(At(Idle).p, held, c, flags, statOk, newFd);
      UnusedFacts(At(Idle).p, held);
      hide ProcInv, TakeStep;
      ghost var was, opening0, fds0 := pUnused, opening, fds;
      PickDescriptor(c, flags, statOk, newFd);
      TakenFacts(c, flags, statOk, newFd, was, opening0, fds0);
    }

    static lemma OnlyOnce(s: seq<UnusedFd>, i: nat)
      requires i < |s| && forall j, k :: 0 <= j < k < |s| ==> s[j] != s[k]
      ensures s[i] !in s[..i] + s[i + 1..]
    {
    }

    lemma TakenFacts(c: Cid, flags: nat, statOk: bool, newFd: Fd, unused0: seq<UnusedFd>,
      opening0: map<Cid, UnusedFd>, fds0: map<Fd, Owner>)
      requires TakenAs(c, flags, statOk, newFd, unused0, opening0, fds0) && newFd !in fds0
      requires forall i :: 0 <= i < |unused0| ==> unused0[i].fd in fds0
      requires forall i, j :: 0 <= i < j < |unused0| ==> unused0[i] != unused0[j]
      ensures c in opening && opening[c] !in pUnused
      ensures fds.Keys == fds0.Keys + if opening[c] in unused0 then {} else {newFd}
    {
      if statOk && exists x :: x in unused0 && x.flags == flags {
        var i :| FirstWith(unused0, flags, i)
          && opening == opening0[c := unused0[i]] && pUnused == unused0[..i] + unused0[i + 1..]
          && fds == fds0[unused0[i].fd := ByOpening(c)];
        OnlyOnce(unused0, i);
      } else {
        assert UnusedFd(newFd, flags) !in unused0;
      }
    }

    /** Every entry of the unused list is an open descriptor, and none is there twice. */
    lemma UnusedFacts(p: Proc, h: Held)
      requires ProcInv(p, h)
      ensures forall i :: 0 <= i < |p.unused| ==> p.unused[i].fd in p.fds
      ensures forall i, j :: 0 <= i < j < |p.unused| ==> p.unused[i] != p.unused[j]
    {
      forall i | 0 <= i < |p.unused|
        ensures p.unused[i].fd in p.fds
      {
        assert p.unused[i].fd in FdSet(p.unused);
      }
    }

    /** With rc == Ok the connection is open at NO_LOCK, owns its descriptor and is counted; else that
    descriptor is closed, which drops the process's locks.  Nothing else changes. */
    ghost predicate AttachedAs(rc: Rc, c: Cid, opening0: map<Cid, UnusedFd>, files0: map<Cid, Conn>,
      fds0: map<Fd, Owner>, closed0: set<Fd>, nRef0: int, held0: Held)
      requires c in opening0
      reads this
    {
      var node := opening0[c];
      && opening == opening0 - {c}
      && if rc == Ok then
          && files == files0[c := Conn(NO_LOCK, NO_LOCK, Ready, node)] && nRef == nRef0 + 1
          && fds == fds0[node.fd := ByConn(c)] && closed == closed0 && held == held0
        else
          && files == files0 && nRef == nRef0
          && fds == fds0 - {node.fd} && closed == closed0 + {node.fd} && held == NO_LOCKS
    }

    /** findInodeInfo() fails only when a new record is needed and there is no memory for it; then the
    descriptor is closed at once. */
    method FindInodeInfo(c: Cid, outOfMemory: bool) returns (rc: Rc)
      requires c in opening
      modifies this
      ensures rc == Ok <==> !(outOfMemory && old(nRef) == 0)
      ensures AttachedAs(rc, c, old(opening), old(files), old(fds), old(closed), old(nRef), old(held))
      ensures At(Idle) == Point(AttachStep(old(At(Idle).p), c, rc == Ok), if rc == Ok then old(held) else NO_LOCKS)
    {
      var node := opening[c];
      opening := opening - {c};
      if nRef == 0 && outOfMemory {
        CloseUnixFile(node.fd);
        rc := IoErr;
      } else {
        nRef := nRef + 1;
        fds := fds[node.fd := ByConn(c)];
        files := files[c := Conn(NO_LOCK, NO_LOCK, Ready, node)];
        rc := Ok;
      }
    }

    /** fillInUnixFile(): the connection is open, or its descriptor is closed. */
    method FillInUnixFile(c: Cid, outOfMemory: bool) returns (rc: Rc)
      requires Valid() && c in opening
      modifies this
      ensures rc == Ok <==> !(outOfMemory && old(nRef) == 0)
      ensures Valid()
      ensures AttachedAs(rc, c, old(opening), old(files), old(fds), old(closed), old(nRef), old(held))
      ensures At(Idle) ==
        Point(AttachStep(old(At(Idle).p), c, rc == Ok), if rc == Ok then old(held) else NO_LOCKS)
    {
      AttachValid(At(Idle).p, held, c, !(outOfMemory && nRef == 0));
      hide ProcInv, AttachStep;
      rc := FindInodeInfo(c, outOfMemory);
    }
  }
}
