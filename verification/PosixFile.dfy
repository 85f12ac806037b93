/** One process's view of one database file: the inode record, the connections of that process and
its descriptor table, stepped one system call at a time.

A call of unixLock() or posixUnlock() runs under the process-wide mutex, so siblings never see it
half done, but other processes run between any two of its fcntl() calls.  `Pc` names the fcntl()
the process is about to issue; `AfterCall` is the straight-line code between that fcntl() and the
next one.  Every fcntl() may fail, for a conflict or for any other reason.
 */
module PosixFile {
  import opened PosixOs
  import opened LockLevels

  type Cid = nat
  type Fd = nat

  /** An entry of the inode's pUnused list. */
  datatype UnusedFd = UnusedFd(fd: Fd, flags: nat)

  /** Where a connection is with respect to posixUnlock() and unixClose(). */
  datatype Phase =
    | Ready
    | Unlocking(target: nat, closing: bool) // inside the mutex
    | Released(target: nat, closing: bool) // mutex dropped, eFileLock not yet written
    | Closing                               // unixClose() is past its unixUnlock(NO_LOCK)
    | Gone                                  // closed after an unlock that failed: still counted

  /** `level` is unixFile.eFileLock.  `eff` is the level the inode record accounts for; the two
  differ only while the connection is releasing. */
  datatype Conn = Conn(level: nat, eff: nat, phase: Phase, node: UnusedFd)

  /** Who is responsible for an open descriptor of the file. */
  datatype Owner = ByConn(c: Cid) | ByUnused | ByOpening(c: Cid)

  /** The fcntl() about to be issued, if any. */
  datatype Pc =
    | Idle
    | LkPendingRead(c: Cid)
    | LkSharedRead(c: Cid)
    | LkDropPending(c: Cid, got: bool)
    | LkPendingWrite(c: Cid)
    | LkReserved(c: Cid)
    | LkExclusive(c: Cid)
    | UlReadAll(c: Cid)
    | UlPendingReserved(c: Cid, target: nat)
    | UlWholeFile(c: Cid)

  datatype Proc = Proc(
    excl: bool,               // all connections carry UNIXFILE_EXCL
    il: nat,                  // unixInodeInfo.eFileLock
    nShared: int,
    nLock: int,
    processLock: bool,        // unixInodeInfo.bProcessLock
    nRef: int,
    unused: seq<UnusedFd>,    // unixInodeInfo.pUnused
    conns: map<Cid, Conn>,
    opening: map<Cid, UnusedFd>, // between findReusableFd() and findInodeInfo()
    fds: map<Fd, Owner>,      // open descriptors of the file
    closed: set<Fd>,          // descriptors closed so far
    pc: Pc)

  function FreshProc(excl: bool): Proc {
    Proc(excl, NO_LOCK, 0, 0, false, 0, [], map[], map[], map[], {}, Idle)
  }

  // ---------------------------------------------------------------- unixLock

  function SetConn(p: Proc, c: Cid, k: Conn): Proc {
    p.(conns := p.conns[c := k])
  }

  function SetLevel(p: Proc, c: Cid, level: nat): Proc
    requires c in p.conns
  {
    SetConn(p, c, p.conns[c].(level := level, eff := level)).(il := level, pc := Idle)
  }

  predicate MayLock(p: Proc, c: Cid, want: nat) {
    && p.pc == Idle
    && c in p.conns && p.conns[c].phase == Ready
    && p.conns[c].level < want <= EXCLUSIVE_LOCK
    && (p.conns[c].level != NO_LOCK || want == SHARED_LOCK)
    && want != PENDING_LOCK
    && (want == RESERVED_LOCK ==> p.conns[c].level == SHARED_LOCK)
  }

  /** unixLock() from taking the mutex to its first fcntl(). */
  function LockEnter(p: Proc, c: Cid, want: nat): Proc
    requires MayLock(p, c, want)
  {
    var k := p.conns[c];
    if k.level != p.il && (p.il >= PENDING_LOCK || want > SHARED_LOCK) then
      p
    else if want == SHARED_LOCK && (p.il == SHARED_LOCK || p.il == RESERVED_LOCK) then
      SetConn(p, c, k.(level := SHARED_LOCK, eff := SHARED_LOCK)).(nShared := p.nShared + 1, nLock := p.nLock + 1)
    else if want == SHARED_LOCK then
      p.(pc := LkPendingRead(c))
    else if want == EXCLUSIVE_LOCK && k.level < PENDING_LOCK then
      p.(pc := LkPendingWrite(c))
    else
      LockFinalRequest(p, c, want)
  }

  /** The part of unixLock() after the PENDING byte is dealt with, for RESERVED and EXCLUSIVE. */
  function LockFinalRequest(p: Proc, c: Cid, want: nat): Proc
    requires c in p.conns
  {
    if want == EXCLUSIVE_LOCK && p.nShared > 1 then
      SetLevel(p, c, PENDING_LOCK)
    else
      p.(pc := if want == RESERVED_LOCK then LkReserved(c) else LkExclusive(c))
  }

  // ---------------------------------------------------------------- posixUnlock

  predicate MayUnlock(p: Proc, c: Cid, target: nat, closing: bool) {
    && p.pc == Idle
    && c in p.conns && p.conns[c].phase == Ready
    && target <= SHARED_LOCK
    && (closing ==> target == NO_LOCK)
  }

  function Resume(k: Conn): Phase {
    if (k.phase.Unlocking? || k.phase.Released?) && k.phase.closing then Closing else Ready
  }

  /** posixUnlock() from its entry to its first fcntl(). */
  function UnlockEnter(p: Proc, c: Cid, target: nat, closing: bool): Proc
    requires MayUnlock(p, c, target, closing)
  {
    var k := p.conns[c];
    if k.level <= target then
      SetConn(p, c, k.(phase := if closing then Closing else Ready))
    else
      var q := SetConn(p, c, k.(phase := Unlocking(target, closing)));
      if k.level > SHARED_LOCK then
        q.(pc := if target == SHARED_LOCK then UlReadAll(c) else UlPendingReserved(c, target))
      else
        DropReader(q, c)
  }

  /** end_unlock with rc==SQLITE_OK: the mutex is dropped, eFileLock is still to be written. */
  function Returned(k: Conn, target: nat): Conn {
    k.(phase := Released(target, Resume(k) == Closing))
  }

  /** end_unlock with an error. */
  function Failed(k: Conn): Conn {
    k.(phase := Resume(k))
  }

  /** What posixUnlock(NO_LOCK) does about the reader, up to the F_UNLCK of the whole file, or to the end. */
  function DropReader(p: Proc, c: Cid): Proc
    requires c in p.conns
  {
    var k := p.conns[c].(eff := NO_LOCK);
    if p.nShared - 1 == 0 then
      SetConn(p, c, k).(nShared := 0, pc := UlWholeFile(c))
    else
      SetConn(p, c, Returned(k, NO_LOCK)).(nShared := p.nShared - 1, nLock := p.nLock - 1, pc := Idle)
  }

  // ---------------------------------------------------------------- closing descriptors

  function FdSet(unused: seq<UnusedFd>): set<Fd> {
    set i | 0 <= i < |unused| :: unused[i].fd
  }

  /** closePendingFds() */
  function ClosePending(p: Proc): Proc {
    p.(unused := [], fds := p.fds - FdSet(p.unused), closed := p.closed + FdSet(p.unused))
  }

  /** Closing any descriptor of a file drops every lock the process holds on it. */
  function HeldAfterClose(h: Held, closes: set<Fd>): Held {
    if closes == {} then h else NO_LOCKS
  }

  // ---------------------------------------------------------------- fcntl

  datatype Request = NoRequest | SetLk(range: Range, mode: Mode)

  /** unixFileLock(): the fcntl() really issued for the lock the caller asked for. */
  function UnixFileLock(p: Proc, wanted: Request): Request {
    if !p.excl then wanted
    else if !p.processLock then SetLk(SharedRange, WriteLock)
    else NoRequest
  }

  function Wanted(pc: Pc): Request {
    match pc
    case Idle => NoRequest
    case LkPendingRead(_) => SetLk(PendingByte, ReadLock)
    case LkSharedRead(_) => SetLk(SharedRange, ReadLock)
    case LkDropPending(_, _) => SetLk(PendingByte, Unlocked)
    case LkPendingWrite(_) => SetLk(PendingByte, WriteLock)
    case LkReserved(_) => SetLk(ReservedByte, WriteLock)
    case LkExclusive(_) => SetLk(SharedRange, WriteLock)
    case UlReadAll(_) => SetLk(SharedRange, ReadLock)
    case UlPendingReserved(_, _) => SetLk(PendingAndReserved, Unlocked)
    case UlWholeFile(_) => SetLk(WholeFile, Unlocked)
  }

  function Issued(p: Proc): Request {
    UnixFileLock(p, Wanted(p.pc))
  }

  /** The connection on whose behalf the call in progress runs. */
  predicate PcValid(p: Proc) {
    p.pc.Idle? || p.pc.c in p.conns
  }

  /** The code between the fcntl() at p.pc, which returned `ok`, and the next one. */
  function AfterCall(p: Proc, ok: bool): Proc
    requires !p.pc.Idle? && PcValid(p)
  {
    var q := if p.excl && !p.processLock && ok then p.(processLock := true, nLock := p.nLock + 1) else p;
    match p.pc
    case LkPendingRead(c) => q.(pc := if ok then LkSharedRead(c) else Idle)
    case LkSharedRead(c) => q.(pc := LkDropPending(c, ok))
    case LkDropPending(c, got) =>
      if ok && got then SetLevel(q, c, SHARED_LOCK).(nShared := 1, nLock := q.nLock + 1) else q.(pc := Idle)
    case LkPendingWrite(c) => if ok then LockFinalRequest(q, c, EXCLUSIVE_LOCK) else q.(pc := Idle)
    case LkReserved(c) => if ok then SetLevel(q, c, RESERVED_LOCK) else q.(pc := Idle)
    case LkExclusive(c) => SetLevel(q, c, if ok then EXCLUSIVE_LOCK else PENDING_LOCK)
    case UlReadAll(c) =>
      if ok then q.(pc := UlPendingReserved(c, SHARED_LOCK)) else SetConn(q, c, Failed(q.conns[c])).(pc := Idle)
    case UlPendingReserved(c, target) =>
      if !ok then
        SetConn(q, c, Failed(q.conns[c])).(pc := Idle)
      else
        var k := q.conns[c].(eff := SHARED_LOCK);
        if target == NO_LOCK then
          DropReader(SetConn(q, c, k).(il := SHARED_LOCK), c)
        else
          SetConn(q, c, Returned(k, target)).(il := SHARED_LOCK, pc := Idle)
    case UlWholeFile(c) =>
      var k := if ok then Returned(q.conns[c], NO_LOCK) else Failed(q.conns[c].(level := NO_LOCK));
      var r := SetConn(q, c, k).(il := NO_LOCK, nLock := q.nLock - 1, pc := Idle);
      if r.nLock == 0 then ClosePending(r) else r
  }

  // ---------------------------------------------------------------- steps of one process

  datatype Label =
    | Lock(c: Cid, want: nat)
    | Unlock(c: Cid, target: nat, closing: bool)
    | Call(ok: bool)                       // the fcntl() at pc returns
    | WriteLevel(c: Cid)                   // the connection records its level, after the mutex
    | CloseFile(c: Cid)                    // rest of unixClose()
    | TakeFd(c: Cid, flags: nat, reuse: bool, newFd: Fd) // findReusableFd(), else open(2)
    | Attach(c: Cid, ok: bool)             // findInodeInfo(); not ok: out of memory

  /** The first unused descriptor with the given flags, or |unused|. */
  function FirstMatch(unused: seq<UnusedFd>, flags: nat): (i: nat)
    ensures i <= |unused|
    ensures i < |unused| ==> unused[i].flags == flags
    ensures forall j :: 0 <= j < i ==> unused[j].flags != flags
  {
    if |unused| == 0 || unused[0].flags == flags then 0 else 1 + FirstMatch(unused[1..], flags)
  }

  predicate Enabled(p: Proc, l: Label) {
    match l
    case Lock(c, want) => MayLock(p, c, want)
    case Unlock(c, target, closing) => MayUnlock(p, c, target, closing)
    case Call(ok) => !p.pc.Idle? && PcValid(p) && (Issued(p).NoRequest? ==> ok)
    case WriteLevel(c) => c in p.conns && p.conns[c].phase.Released?
    case CloseFile(c) => p.pc == Idle && c in p.conns && p.conns[c].phase == Closing
    case TakeFd(c, flags, reuse, newFd) =>
      && p.pc == Idle && c !in p.conns && c !in p.opening
      && newFd !in p.fds && newFd !in p.closed
    case Attach(c, ok) => p.pc == Idle && c in p.opening && (ok || p.nRef == 0)
  }

  function StepProc(p: Proc, l: Label): Proc
    requires Enabled(p, l)
  {
    match l
    case Lock(c, want) => LockEnter(p, c, want)
    case Unlock(c, target, closing) => UnlockEnter(p, c, target, closing)
    case Call(ok) => AfterCall(p, ok)
    case WriteLevel(c) => SetConn(p, c, p.conns[c].(level := p.conns[c].phase.target, phase := Resume(p.conns[c])))
    case CloseFile(c) => CloseStep(p, c)
    case TakeFd(c, flags, reuse, newFd) => TakeStep(p, c, flags, reuse, newFd)
    case Attach(c, ok) => AttachStep(p, c, ok)
  }

  /** findReusableFd() if stat() worked and some unused descriptor has the flags, else open(2). */
  function TakeStep(p: Proc, c: Cid, flags: nat, reuse: bool, newFd: Fd): Proc {
    var i := FirstMatch(p.unused, flags);
    if reuse && i < |p.unused| then
      p.(unused := p.unused[..i] + p.unused[i + 1..],
         opening := p.opening[c := p.unused[i]],
         fds := p.fds[p.unused[i].fd := ByOpening(c)])
    else
      p.(opening := p.opening[c := UnusedFd(newFd, flags)], fds := p.fds[newFd := ByOpening(c)])
  }

  /** findInodeInfo() in fillInUnixFile(): the connection joins the inode record, or, when a new record
  cannot be allocated, its descriptor is closed. */
  function AttachStep(p: Proc, c: Cid, ok: bool): Proc
    requires c in p.opening
  {
    var node := p.opening[c];
    var q := p.(opening := p.opening - {c});
    if ok then
      SetConn(q, c, Conn(NO_LOCK, NO_LOCK, Ready, node)).(nRef := p.nRef + 1, fds := p.fds[node.fd := ByConn(c)])
    else
      q.(fds := p.fds - {node.fd}, closed := p.closed + {node.fd})
  }

  /** setPendingFd() if locks are outstanding, else close(2); and the decrement in releaseInodeInfo(). */
  function Release(p: Proc, c: Cid): Proc
    requires c in p.conns
  {
    var k := p.conns[c];
    var conns := if k.eff == NO_LOCK then p.conns - {c} else p.conns[c := k.(phase := Gone)];
    if p.nLock != 0 then
      p.(unused := [k.node] + p.unused, fds := p.fds[k.node.fd := ByUnused], nRef := p.nRef - 1, conns := conns)
    else
      p.(fds := p.fds - {k.node.fd}, closed := p.closed + {k.node.fd}, nRef := p.nRef - 1, conns := conns)
  }

  /** The inode record is freed; a later open starts from a zeroed one. */
  function FreeInode(p: Proc): Proc {
    ClosePending(p).(il := NO_LOCK, nShared := 0, nLock := 0, processLock := false, conns := map[])
  }

  /** unixClose() after unixUnlock(NO_LOCK): setPendingFd(), releaseInodeInfo(), closeUnixFile(). */
  function CloseStep(p: Proc, c: Cid): Proc
    requires c in p.conns
  {
    var q := Release(p, c);
    if q.nRef == 0 then FreeInode(q) else q
  }

  /** The locks the process holds after the step. */
  function StepHeld(p: Proc, h: Held, l: Label): Held
    requires Enabled(p, l)
  {
    var h1 := if l.Call? && l.ok && Issued(p).SetLk? then Apply(h, Issued(p).range, Issued(p).mode) else h;
    HeldAfterClose(h1, StepProc(p, l).closed - p.closed)
  }
}
