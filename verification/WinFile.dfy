/** winLock() and winUnlock() for one file handle, one LockFile() or UnlockFile() call at a time.

Windows locks belong to the handle, and a handle's own read lock blocks its own exclusive lock on the
same bytes; winLock() therefore drops the read lock before it asks for the whole shared range. */
module WinFile {
  import opened PosixOs
  import opened LockLevels

  /** The call in progress. */
  datatype Pc =
    | Idle
    | LkPending(want: nat, tries: nat)   // tries still to come after this one
    | LkRead
    | LkReserved
    | LkDropRead
    | LkExclusive
    | LkReread                           // winGetReadLock() after a refused EXCLUSIVE
    | LkDropPending(got: bool)
    | UlExclusive(target: nat)
    | UlReread(target: nat)              // winGetReadLock() in winUnlock()
    | UlReserved(target: nat)
    | UlRead
    | UlPending(target: nat)

  /** What the handle has locked; `level` is winFile.locktype. */
  datatype Handle = Handle(level: nat, pending: Mode, reserved: Mode, shared: Mode, pc: Pc)

  datatype Part = PendingPart | ReservedPart | SharedPart

  datatype Request = NoRequest | LockFile(part: Part, mode: Mode) | UnlockFile(part: Part)

  function Issued(pc: Pc): Request {
    match pc
    case Idle => NoRequest
    case LkPending(_, _) => LockFile(PendingPart, WriteLock)
    case LkRead => LockFile(SharedPart, ReadLock)
    case LkReserved => LockFile(ReservedPart, WriteLock)
    case LkDropRead => UnlockFile(SharedPart)
    case LkExclusive => LockFile(SharedPart, WriteLock)
    case LkReread => LockFile(SharedPart, ReadLock)
    case LkDropPending(_) => UnlockFile(PendingPart)
    case UlExclusive(_) => UnlockFile(SharedPart)
    case UlReread(_) => LockFile(SharedPart, ReadLock)
    case UlReserved(_) => UnlockFile(ReservedPart)
    case UlRead => UnlockFile(SharedPart)
    case UlPending(_) => UnlockFile(PendingPart)
  }

  function PartOf(h: Handle, part: Part): Mode {
    match part
    case PendingPart => h.pending
    case ReservedPart => h.reserved
    case SharedPart => h.shared
  }

  function SetPart(h: Handle, part: Part, m: Mode): Handle {
    match part
    case PendingPart => h.(pending := m)
    case ReservedPart => h.(reserved := m)
    case SharedPart => h.(shared := m)
  }

  /** The kernel's side of a call: unlocking always works, or finds nothing to unlock. */
  function Applied(h: Handle, ok: bool): Handle {
    match Issued(h.pc)
    case NoRequest => h
    case LockFile(part, m) => if ok then SetPart(h, part, m) else h
    case UnlockFile(part) => SetPart(h, part, Unlocked)
  }

  /** Exit of winLock() or winUnlock(). */
  function Done(h: Handle, level: nat): Handle {
    h.(level := level, pc := Idle)
  }

  /** winLock() up to its first call: a caller that lacks the lock must follow the order of levels, and
  never asks for PENDING. */
  predicate MayLock(h: Handle, want: nat) {
    h.pc.Idle? && want <= EXCLUSIVE_LOCK &&
    (h.level >= want || (want != PENDING_LOCK && (h.level != NO_LOCK || want == SHARED_LOCK)))
  }

  function LockEnter(h: Handle, want: nat): Handle {
    if h.level >= want then h
    else if h.level == NO_LOCK || (want == EXCLUSIVE_LOCK && h.level <= RESERVED_LOCK) then h.(pc := LkPending(want, 2))
    else if want == RESERVED_LOCK then h.(pc := LkReserved)
    else h.(pc := LkDropRead)
  }

  /** winUnlock(); the caller never unlocks upwards. */
  predicate MayUnlock(h: Handle, target: nat) {
    h.pc.Idle? && target <= SHARED_LOCK && target <= h.level
  }

  function AfterReserved(h: Handle, target: nat): Handle {
    if target == NO_LOCK && h.level >= SHARED_LOCK then h.(pc := UlRead)
    else AfterRead(h, target)
  }

  function AfterRead(h: Handle, target: nat): Handle {
    if h.level >= PENDING_LOCK then h.(pc := UlPending(target)) else Done(h, target)
  }

  function UnlockEnter(h: Handle, target: nat): Handle {
    if h.level >= EXCLUSIVE_LOCK then h.(pc := UlExclusive(target))
    else if h.level >= RESERVED_LOCK then h.(pc := UlReserved(target))
    else AfterReserved(h, target)
  }

  /** The code between the call at pc, which answered `ok`, and the next one; `invalid` is
  ERROR_INVALID_HANDLE, which ends the retries. */
  function AfterCall(h: Handle, ok: bool, invalid: bool): Handle
    requires !h.pc.Idle?
  {
    var k := Applied(h, ok);
    match h.pc
    case LkPending(want, tries) =>
      if ok then k.(pc := if want == SHARED_LOCK then LkRead else LkDropRead)
      else if invalid || tries == 0 then Done(k, h.level)
      else k.(pc := LkPending(want, tries - 1))
    case LkRead => k.(pc := LkDropPending(ok))
    case LkReserved => Done(k, if ok then RESERVED_LOCK else h.level)
    case LkDropRead => k.(pc := LkExclusive)
    case LkExclusive => if ok then Done(k, EXCLUSIVE_LOCK) else k.(pc := LkReread)
    case LkReread => Done(k, PENDING_LOCK)
    case LkDropPending(got) => Done(k, if got then SHARED_LOCK else NO_LOCK)
    case UlExclusive(target) => k.(pc := if target == SHARED_LOCK then UlReread(target) else UlReserved(target))
    case UlReread(target) => k.(pc := UlReserved(target))
    case UlReserved(target) => AfterReserved(k, target)
    case UlRead => AfterRead(k, NO_LOCK)
    case UlPending(target) => Done(k, target)
  }

  datatype Label = Lock(want: nat) | Unlock(target: nat) | Call(ok: bool, invalid: bool)

  predicate Enabled(h: Handle, l: Label) {
    match l
    case Lock(want) => MayLock(h, want)
    case Unlock(target) => MayUnlock(h, target)
    case Call(ok, _) => !h.pc.Idle? && (Issued(h.pc).UnlockFile? ==> ok)
  }

  function Step(h: Handle, l: Label): Handle
    requires Enabled(h, l)
  {
    match l
    case Lock(want) => LockEnter(h, want)
    case Unlock(target) => UnlockEnter(h, target)
    case Call(ok, invalid) => AfterCall(h, ok, invalid)
  }

  // ---------------------------------------------------------------- the handle's invariant

  predicate Releasing(h: Handle) {
    h.pc.UlExclusive? || h.pc.UlReread? || h.pc.UlReserved? || h.pc.UlRead? || h.pc.UlPending?
  }

  /** What a level stands for. */
  predicate LevelHolds(h: Handle) {
    && h.level <= EXCLUSIVE_LOCK
    && h.shared == (if h.level == NO_LOCK then Unlocked else if h.level == EXCLUSIVE_LOCK then WriteLock else ReadLock)
    && h.pending == (if h.level >= PENDING_LOCK then WriteLock else Unlocked)
    && (h.level == RESERVED_LOCK ==> h.reserved == WriteLock)
    && (h.level <= SHARED_LOCK ==> h.reserved == Unlocked)
    && h.reserved != ReadLock
  }

  /** PENDING is held, and the locks below it are those of a reader but for the shared range. */
  predicate HasPending(h: Handle, shared: Mode) {
    && h.pending == WriteLock && h.shared == shared && h.reserved != ReadLock
    && (h.level == RESERVED_LOCK ==> h.reserved == WriteLock)
    && (h.level <= SHARED_LOCK ==> h.reserved == Unlocked)
  }

  predicate HandleInv(h: Handle) {
    match h.pc
    case Idle => LevelHolds(h)
    case LkPending(want, _) =>
      LevelHolds(h) && ((want == SHARED_LOCK && h.level == NO_LOCK)
        || (want == EXCLUSIVE_LOCK && (h.level == SHARED_LOCK || h.level == RESERVED_LOCK)))
    case LkRead => h.level == NO_LOCK && HasPending(h, Unlocked)
    case LkReserved => LevelHolds(h) && h.level == SHARED_LOCK
    case LkDropRead => SHARED_LOCK <= h.level <= PENDING_LOCK && HasPending(h, ReadLock)
    case LkExclusive => SHARED_LOCK <= h.level <= PENDING_LOCK && HasPending(h, Unlocked)
    case LkReread => SHARED_LOCK <= h.level <= PENDING_LOCK && HasPending(h, Unlocked)
    case LkDropPending(got) => h.level == NO_LOCK && HasPending(h, if got then ReadLock else Unlocked)
    case UlExclusive(target) => LevelHolds(h) && h.level == EXCLUSIVE_LOCK && target <= SHARED_LOCK
    case UlReread(target) => h.level == EXCLUSIVE_LOCK && target == SHARED_LOCK && HasPending(h, Unlocked)
    case UlReserved(target) =>
      && RESERVED_LOCK <= h.level <= EXCLUSIVE_LOCK && target <= SHARED_LOCK && h.reserved != ReadLock
      && h.pending == (if h.level >= PENDING_LOCK then WriteLock else Unlocked)
      && h.shared == (if h.level == EXCLUSIVE_LOCK && target == NO_LOCK then Unlocked else ReadLock)
    case UlRead =>
      && SHARED_LOCK <= h.level <= EXCLUSIVE_LOCK && h.reserved == Unlocked && h.shared != WriteLock
      && h.pending == (if h.level >= PENDING_LOCK then WriteLock else Unlocked)
    case UlPending(target) =>
      && target <= SHARED_LOCK && h.pending == WriteLock && h.reserved == Unlocked
      && h.shared == (if target == SHARED_LOCK then ReadLock else Unlocked)
  }

  /** The calls that take back a read lock the handle had. */
  predicate Rereads(h: Handle) {
    h.pc.LkReread? || h.pc.UlReread?
  }

  /** Every step but a failing reread keeps the invariant. */
  lemma StepKeepsHandle(h: Handle, l: Label)
    requires HandleInv(h) && Enabled(h, l)
    requires Rereads(h) && l.Call? ==> l.ok
    ensures HandleInv(Step(h, l))
  {
    hide AfterCall;
    match l
    case Lock(want) =>
    case Unlock(target) =>
    case Call(ok, invalid) => CallKeepsHandle(h, ok, invalid);
  }

  lemma CallKeepsHandle(h: Handle, ok: bool, invalid: bool)
    requires HandleInv(h) && Enabled(h, Call(ok, invalid)) && (Rereads(h) ==> ok)
    ensures HandleInv(AfterCall(h, ok, invalid))
  {
    hide HandleInv, AfterCall, Issued;
    if Releasing(h) {
      UnlockCallKeeps(h, ok, invalid);
    } else if h.pc.LkPending? || h.pc.LkRead? || h.pc.LkReserved? {
      AcquireCallKeeps(h, ok, invalid);
    } else {
      UpgradeCallKeeps(h, ok, invalid);
    }
  }

  lemma UnlockCallKeeps(h: Handle, ok: bool, invalid: bool)
    requires HandleInv(h) && Enabled(h, Call(ok, invalid)) && (Rereads(h) ==> ok) && Releasing(h)
    ensures HandleInv(AfterCall(h, ok, invalid))
  {
  }

  lemma AcquireCallKeeps(h: Handle, ok: bool, invalid: bool)
    requires HandleInv(h) && Enabled(h, Call(ok, invalid)) && (h.pc.LkPending? || h.pc.LkRead? || h.pc.LkReserved?)
    ensures HandleInv(AfterCall(h, ok, invalid))
  {
  }

  lemma UpgradeCallKeeps(h: Handle, ok: bool, invalid: bool)
    requires HandleInv(h) && Enabled(h, Call(ok, invalid)) && (Rereads(h) ==> ok)
    requires h.pc.LkDropRead? || h.pc.LkExclusive? || h.pc.LkReread? || h.pc.LkDropPending?
    ensures HandleInv(AfterCall(h, ok, invalid))
  {
  }

  // ---------------------------------------------------------------- after a refused reread

  /** The handle reports, or is about to report, a level with a read lock that it does not have. */
  predicate Broken(h: Handle) {
    && h.shared == Unlocked
    && match h.pc
       case Idle => h.level >= SHARED_LOCK
       case UlReserved(target) => target == SHARED_LOCK
       case UlPending(target) => target == SHARED_LOCK
       case _ => false
  }

  lemma BrokenIsNoInv(h: Handle)
    requires Broken(h)
    ensures !HandleInv(h)
  {
  }

  /** A reread that is refused breaks the handle. */
  lemma RefusedRereadBreaks(h: Handle, invalid: bool)
    requires HandleInv(h) && Rereads(h)
    ensures Broken(AfterCall(h, false, invalid))
  {
  }

  /** No later call of the same winLock() or winUnlock() repairs it. */
  lemma CallKeepsBroken(h: Handle, ok: bool, invalid: bool)
    requires Broken(h) && Enabled(h, Call(ok, invalid))
    ensures Broken(AfterCall(h, ok, invalid))
  {
  }

  /** What a handle may be when rereads fail: as it should be, or so but for a missing read lock. */
  predicate Loose(h: Handle) {
    HandleInv(h) || (h.shared == Unlocked && HandleInv(h.(shared := ReadLock)))
  }

  lemma StepKeepsLoose(h: Handle, l: Label)
    requires Loose(h) && Enabled(h, l)
    ensures Loose(Step(h, l))
  {
    hide HandleInv, Step, Enabled;
    if HandleInv(h) && !(Rereads(h) && l.Call? && !l.ok) {
      StepKeepsHandle(h, l);
    } else if HandleInv(h) {
      RefusedRereadIsLoose(h, l.invalid);
    } else {
      StepWithoutReadLock(h, l);
    }
  }

  lemma RefusedRereadIsLoose(h: Handle, invalid: bool)
    requires HandleInv(h) && Rereads(h) && Enabled(h, Call(false, invalid))
    ensures Loose(Step(h, Call(false, invalid)))
  {
  }

  /** Without its read lock a handle does what it would do with it, until a call drops that lock. */
  lemma StepWithoutReadLock(h: Handle, l: Label)
    requires h.shared == Unlocked && HandleInv(h.(shared := ReadLock)) && Enabled(h, l)
    ensures Loose(Step(h, l))
  {
    var k := h.(shared := ReadLock);
    StepKeepsHandle(k, l);
    hide HandleInv;
    if h.pc.LkDropRead? || h.pc.UlRead? {
      assert Step(h, l) == Step(k, l);
    } else {
      SameButShared(h, l);
    }
  }

  lemma SameButShared(h: Handle, l: Label)
    requires h.shared == Unlocked && HandleInv(h.(shared := ReadLock)) && Enabled(h, l)
    requires !h.pc.LkDropRead? && !h.pc.UlRead?
    ensures Step(h, l) == Step(h.(shared := ReadLock), l).(shared := Unlocked)
      && Step(h.(shared := ReadLock), l).shared == ReadLock
  {
    assert !h.pc.LkRead? && !h.pc.LkExclusive? && !Rereads(h) && !h.pc.UlExclusive?;
  }

  /** Exclusive ownership of the shared range comes with the PENDING byte, whatever the handle is in
  the middle of. */
  lemma ExclusiveOwnsPending(h: Handle)
    requires HandleInv(h) && h.shared == WriteLock
    ensures h.pending == WriteLock && h.level == EXCLUSIVE_LOCK
  {
  }
}
