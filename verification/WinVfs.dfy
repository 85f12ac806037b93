/** winLock() and winUnlock() as they are written, over the fields of a winFile.

Each is proved to make exactly the calls of `WinFile`, for whatever answers the kernel gives, so what
`WinSystem` says of every call holds of this code. */
module WinVfs {
  import opened Wrappers
  import opened PosixOs
  import opened LockLevels
  import opened WinFile
  import opened WinAnswers

  datatype Rc = Ok | Busy | IoErr

  class WinHandle {
    var locktype: nat

    // What the kernel has locked for the handle.
    var pending: Mode
    var reserved: Mode
    var shared: Mode

    ghost function At(pc: Pc): Handle
      reads this
    {
      Handle(locktype, pending, reserved, shared, pc)
    }

    /** Between calls the level stands for the locks held. */
    ghost predicate Valid()
      reads this
    {
      HandleInv(At(Idle))
    }

    constructor ()
      ensures Valid()
      ensures At(Idle) == Handle(NO_LOCK, Unlocked, Unlocked, Unlocked, Idle)
    {
      locktype, pending, reserved, shared := NO_LOCK, Unlocked, Unlocked, Unlocked;
    }

    /** winLockFile(): the kernel decides; `invalid` is ERROR_INVALID_HANDLE. */
    method LockFile(part: Part, mode: Mode, ghost start: Handle, ghost given: seq<Label>, ghost pc: Pc)
      returns (ok: bool, invalid: bool, ghost answers: seq<Label>)
      requires Issued(pc) == WinFile.LockFile(part, mode) && AfterAnswers(start, given) == Some(At(pc))
      modifies this`pending, this`reserved, this`shared
      ensures answers == given + [Call(ok, invalid)]
      ensures AfterAnswers(start, answers) == Some(AfterCall(old(At(pc)), ok, invalid))
      ensures At(pc) == Applied(old(At(pc)), ok)
    {
      ok, invalid := *, *;
      answers := given + [Call(ok, invalid)];
      OneMore(start, given, Call(ok, invalid));
      hide AfterCall, AfterAnswers;
      if ok {
        match part
        case PendingPart => pending := mode;
        case ReservedPart => reserved := mode;
        case SharedPart => shared := mode;
      }
    }

    /** winUnlockFile(): works, or finds nothing to unlock. */
    method UnlockFile(part: Part, ghost start: Handle, ghost given: seq<Label>, ghost pc: Pc)
      returns (ghost answers: seq<Label>)
      requires Issued(pc) == WinFile.UnlockFile(part) && AfterAnswers(start, given) == Some(At(pc))
      modifies this`pending, this`reserved, this`shared
      ensures answers == given + [Call(true, false)]
      ensures AfterAnswers(start, answers) == Some(AfterCall(old(At(pc)), true, false))
      ensures At(pc) == Applied(old(At(pc)), true)
    {
      answers := given + [Call(true, false)];
      OneMore(start, given, Call(true, false));
      hide AfterCall, AfterAnswers;
      match part
      case PendingPart => pending := Unlocked;
      case ReservedPart => reserved := Unlocked;
      case SharedPart => shared := Unlocked;
    }

    /** Up to three tries at the PENDING byte. */
    method LockPending(want: nat, ghost start: Handle) returns (res: bool, invalid: bool, ghost answers: seq<Label>)
      requires start == At(LkPending(want, 2))
      modifies this`pending, this`reserved, this`shared
      ensures locktype == start.level && reserved == start.reserved && shared == start.shared
      ensures pending == if res then WriteLock else start.pending
      ensures AfterAnswers(start, answers) ==
        Some(At(if !res then Idle else if want == SHARED_LOCK then LkRead else LkDropRead))
      ensures answers != [] && answers[|answers| - 1].Call? && answers[|answers| - 1].ok == res
      ensures invalid <==> !res && answers[|answers| - 1].invalid
      ensures !res ==> Lost(answers)
    {
      hide AfterAnswers;
      res, invalid := false, false;
      answers := [];
      NoAnswers(start);
      var cnt := 3;
      while cnt > 0
        invariant 0 <= cnt <= 3 && !res && !invalid
        invariant At(Idle) == start.(pc := Idle)
        invariant |answers| == 3 - cnt
        invariant forall i :: 0 <= i < |answers| ==> answers[i].Call? && !answers[i].ok && !answers[i].invalid
        invariant AfterAnswers(start, answers) == Some(if cnt == 0 then At(Idle) else At(LkPending(want, cnt - 1)))
      {
        cnt := cnt - 1;
        res, invalid, answers := LockFile(PendingPart, WriteLock, start, answers, LkPending(want, cnt));
        if res {
          invalid := false;
          return;
        }
        if invalid {
          return;
        }
      }
    }

    static lemma NoAnswers(h: Handle)
      ensures AfterAnswers(h, []) == Some(h)
    {
    }

    /** winLock(EXCLUSIVE_LOCK), the shared range: the read lock is dropped, and taken back if the range
    cannot be had alone. */
    method LockRange(ghost start: Handle, ghost given: seq<Label>) returns (res: bool, ghost answers: seq<Label>)
      requires AfterAnswers(start, given) == Some(At(LkDropRead))
      modifies this`pending, this`reserved, this`shared
      ensures AfterAnswers(start, answers) == Some(Done(At(Idle), if res then EXCLUSIVE_LOCK else PENDING_LOCK))
      ensures |answers| >= |given| && answers[..|given|] == given
    {
      var ok, bad;
      answers := UnlockFile(SharedPart, start, given, LkDropRead);
      res, bad, answers := LockFile(SharedPart, WriteLock, start, answers, LkExclusive);
      if !res {
        ok, bad, answers := LockFile(SharedPart, ReadLock, start, answers, LkReread);
      }
    }

    /** The body of winLock(). */
    method LockBody(want: nat) returns (rc: Rc, ghost answers: seq<Label>)
      requires MayLock(At(Idle), want)
      modifies this
      ensures AfterAnswers(LockEnter(old(At(Idle)), want), answers) == Some(At(Idle))
      ensures rc == Ok <==> locktype >= want
      ensures old(locktype) < want && want != RESERVED_LOCK && old(locktype) < PENDING_LOCK ==>
        (rc == IoErr <==> Lost(answers) && answers[|answers| - 1].invalid)
      ensures old(locktype) >= want || want == RESERVED_LOCK || old(locktype) == PENDING_LOCK ==> rc != IoErr
    {
      ghost var start := LockEnter(At(Idle), want);
      answers := [];
      NoAnswers(start);
      if locktype >= want {
        rc := Ok;
        return;
      }
      assert locktype != NO_LOCK || want == SHARED_LOCK;
      assert want != PENDING_LOCK;
      assert want == RESERVED_LOCK ==> locktype == SHARED_LOCK;
      var gotPending := false;
      ghost var tries: seq<Label> := [];
      var newLocktype := locktype;
      var res := true;
      if locktype == NO_LOCK || (want == EXCLUSIVE_LOCK && locktype <= RESERVED_LOCK) {
        var invalid;
        res, invalid, answers := LockPending(want, start);
        if invalid {
          rc := IoErr;
          return;
        }
        gotPending := res;
        tries := answers;
      }
      var bad;
      if want == SHARED_LOCK && res {
        res, bad, answers := LockFile(SharedPart, ReadLock, start, answers, LkRead);
        if res {
          newLocktype := SHARED_LOCK;
        }
      }
      if want == RESERVED_LOCK && res {
        res, bad, answers := LockFile(ReservedPart, WriteLock, start, answers, LkReserved);
        if res {
          newLocktype := RESERVED_LOCK;
        }
      }
      if want == EXCLUSIVE_LOCK && res {
        newLocktype := PENDING_LOCK;
        gotPending := false;
      }
      if want == EXCLUSIVE_LOCK && res {
        res, answers := LockRange(start, answers);
        if res {
          newLocktype := EXCLUSIVE_LOCK;
        }
      }
      if gotPending && want == SHARED_LOCK {
        answers := UnlockFile(PendingPart, start, answers, LkDropPending(res));
      }
      rc := if res then Ok else Busy;
      assert |answers| >= |tries| && answers[..|tries|] == tries;
      assert tries != [] ==> answers[|tries| - 1] == tries[|tries| - 1];
      locktype := newLocktype;
    }

    /** winLock(): the level reached stands for the locks held if and only if no reread was refused. */
    method Lock(want: nat) returns (rc: Rc, ghost answers: seq<Label>)
      requires Valid() && MayLock(At(Idle), want)
      modifies this
      ensures AfterAnswers(LockEnter(old(At(Idle)), want), answers) == Some(At(Idle))
      ensures LockOutcome(old(At(Idle)), want, answers, At(Idle))
      ensures rc == Ok <==> locktype >= want
      ensures old(locktype) < want && want != RESERVED_LOCK && old(locktype) < PENDING_LOCK ==>
        (rc == IoErr <==> Lost(answers) && answers[|answers| - 1].invalid)
      ensures old(locktype) >= want || want == RESERVED_LOCK || old(locktype) == PENDING_LOCK ==> rc != IoErr
      ensures NoRereadFailed(LockEnter(old(At(Idle)), want), answers) <==> Valid()
      ensures !Valid() ==> locktype >= SHARED_LOCK && shared == Unlocked
    {
      ghost var start := LockEnter(At(Idle), want);
      assert HandleInv(start) by { StepKeepsHandle(At(Idle), WinFile.Lock(want)); }
      hide HandleInv, AfterAnswers, NoRereadFailed, LockEnter, LockOutcome;
      ghost var was := At(Idle);
      rc, answers := LockBody(want);
      Verdict(start, answers);
      LockOutcomeIs(was, want, answers, At(Idle));
    }

    /** How many calls an unlock makes: one for each kind of lock that the level stands for and the target
    does not, and one to get the read lock back. */
    static function UnlockCalls(level: nat, target: nat): nat {
      (if level >= EXCLUSIVE_LOCK then if target == SHARED_LOCK then 2 else 1 else 0)
      + (if level >= RESERVED_LOCK then 1 else 0)
      + (if target == NO_LOCK && level >= SHARED_LOCK then 1 else 0)
      + (if level >= PENDING_LOCK then 1 else 0)
    }

    /** The body of winUnlock(). */
    method UnlockBody(target: nat) returns (rc: Rc, ghost answers: seq<Label>)
      requires MayUnlock(At(Idle), target) && locktype <= EXCLUSIVE_LOCK
      modifies this
      ensures AfterAnswers(UnlockEnter(old(At(Idle)), target), answers) == Some(At(Idle))
      ensures locktype == target && (target == NO_LOCK ==> rc == Ok)
      ensures |answers| == UnlockCalls(old(locktype), target)
      ensures rc != Ok <==>
        old(locktype) == EXCLUSIVE_LOCK && target == SHARED_LOCK && answers[1].Call? && !answers[1].ok
      ensures target == SHARED_LOCK ==>
        shared == if old(locktype) < EXCLUSIVE_LOCK then old(shared) else if rc == Ok then ReadLock else Unlocked
      ensures rc != IoErr ==> rc == Ok
    {
      ghost var start := UnlockEnter(At(Idle), target);
      hide AfterAnswers;
      answers := [];
      NoAnswers(start);
      rc := Ok;
      var kind := locktype;
      if kind >= EXCLUSIVE_LOCK {
        answers := UnlockFile(SharedPart, start, answers, UlExclusive(target));
        if target == SHARED_LOCK {
          var ok, bad;
          ok, bad, answers := LockFile(SharedPart, ReadLock, start, answers, UlReread(target));
          if !ok {
            rc := IoErr;
          }
        }
      }
      if kind >= RESERVED_LOCK {
        answers := UnlockFile(ReservedPart, start, answers, UlReserved(target));
      }
      if target == NO_LOCK && kind >= SHARED_LOCK {
        answers := UnlockFile(SharedPart, start, answers, UlRead);
      }
      if kind >= PENDING_LOCK {
        answers := UnlockFile(PendingPart, start, answers, UlPending(target));
      }
      locktype := target;
    }

    /** winUnlock(): the same, and the level it reports is the target either way. */
    method Unlock(target: nat) returns (rc: Rc, ghost answers: seq<Label>)
      requires Valid() && MayUnlock(At(Idle), target)
      modifies this
      ensures AfterAnswers(UnlockEnter(old(At(Idle)), target), answers) == Some(At(Idle))
      ensures locktype == target && (target == NO_LOCK ==> rc == Ok)
      ensures |answers| == UnlockCalls(old(locktype), target)
      ensures rc == Ok || rc == IoErr
      ensures rc == Ok <==> Valid()
      ensures NoRereadFailed(UnlockEnter(old(At(Idle)), target), answers) <==> Valid()
      ensures !Valid() ==> locktype == SHARED_LOCK && shared == Unlocked
    {
      ghost var start := UnlockEnter(At(Idle), target);
      assert HandleInv(start) by { StepKeepsHandle(At(Idle), WinFile.Unlock(target)); }
      assert locktype <= EXCLUSIVE_LOCK;
      assert SHARED_LOCK <= locktype < EXCLUSIVE_LOCK ==> shared == ReadLock;
      hide HandleInv, AfterAnswers, NoRereadFailed, UnlockEnter;
      rc, answers := UnlockBody(target);
      Verdict(start, answers);
    }

    lemma Verdict(start: Handle, answers: seq<Label>)
      requires HandleInv(start) && AfterAnswers(start, answers) == Some(At(Idle))
      ensures NoRereadFailed(start, answers) <==> HandleInv(At(Idle))
      ensures !NoRereadFailed(start, answers) ==> Broken(At(Idle))
    {
      if NoRereadFailed(start, answers) {
        AnswersKeepInv(start, answers);
      } else {
        AnswersBreak(start, answers);
        BrokenIsNoInv(At(Idle));
      }
    }
  }
}
