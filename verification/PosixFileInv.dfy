/** What every step of one process keeps, whatever the other processes do: the inode's counters,
the locks that back each level, and the ownership of descriptors. */
module PosixFileInv {
  import opened PosixOs
  import opened LockLevels
  import opened PosixFile

  /** The connections the inode record counts as readers. */
  ghost function Members(p: Proc): set<Cid> {
    set c | c in p.conns && p.conns[c].eff >= SHARED_LOCK
  }

  /** The connections that are open. */
  ghost function Live(p: Proc): set<Cid> {
    set c | c in p.conns && p.conns[c].phase != Gone
  }

  predicate UnlockPc(pc: Pc) {
    pc.UlReadAll? || pc.UlPendingReserved? || pc.UlWholeFile?
  }

  ghost predicate Counters(p: Proc) {
    && p.nShared == |Members(p)|
    && p.nLock == p.nShared + (if p.processLock then 1 else 0) + (if p.pc.UlWholeFile? then 1 else 0)
    && p.nRef == |Live(p)|
    && (p.nRef == 0 ==> p.conns == map[] && !p.processLock && p.pc == Idle)
  }

  /** Connection w accounts for the inode's level if that is above SHARED; nobody else is above SHARED. */
  ghost predicate WriterIs(p: Proc, w: Cid) {
    && (p.il > SHARED_LOCK ==> w in p.conns && p.conns[w].eff == p.il)
    && (forall c :: c in p.conns && (c != w || p.il <= SHARED_LOCK) ==>
      p.conns[c].eff <= SHARED_LOCK && p.conns[c].eff <= p.il)
  }

  /** The inode's level is the highest level accounted for, held by one connection if above SHARED. */
  ghost predicate Levels(p: Proc) {
    && p.il <= EXCLUSIVE_LOCK
    && (p.il == NO_LOCK || p.pc.UlWholeFile? <==> Members(p) == {})
    && (p.il == EXCLUSIVE_LOCK ==> p.nShared == 1)
    && (p.pc.UlWholeFile? ==> p.il == SHARED_LOCK)
    && exists w :: WriterIs(p, w)
  }

  /** A connection's eFileLock is what the inode accounts for, unless it is releasing. */
  ghost predicate PhaseOk(pc: Pc, c: Cid, k: Conn) {
    && k.level <= EXCLUSIVE_LOCK
    && (k.phase.Ready? || k.phase.Closing? || k.phase.Gone? ==> k.level == k.eff)
    && (k.phase.Gone? ==> k.eff >= SHARED_LOCK)
    && (k.phase.Unlocking? <==> UnlockPc(pc) && pc.c == c)
    && (k.phase.Unlocking? ==>
      k.phase.target <= SHARED_LOCK && k.phase.target < k.level && (k.phase.closing ==> k.phase.target == NO_LOCK))
    && (k.phase.Released? ==>
      k.phase.target == k.eff <= SHARED_LOCK && k.phase.target < k.level
      && (k.phase.closing ==> k.phase.target == NO_LOCK))
  }

  ghost predicate Phases(p: Proc) {
    forall c :: c in p.conns ==> PhaseOk(p.pc, c, p.conns[c])
  }

  /** What the code between two fcntl() calls of one unixLock() or posixUnlock() may rely on. */
  ghost predicate PcOk(p: Proc) {
    match p.pc
    case Idle => true
    case LkPendingRead(c) => c in p.conns && p.conns[c].phase == Ready && p.il == NO_LOCK
    case LkSharedRead(c) => c in p.conns && p.conns[c].phase == Ready && p.il == NO_LOCK
    case LkDropPending(c, got) => c in p.conns && p.conns[c].phase == Ready && p.il == NO_LOCK
    case LkPendingWrite(c) => LkUpgrade(p, c) && p.il <= RESERVED_LOCK
    case LkReserved(c) => LkUpgrade(p, c) && p.il == SHARED_LOCK
    case LkExclusive(c) => LkUpgrade(p, c) && p.nShared == 1
    case UlReadAll(c) =>
      c in p.conns && p.conns[c].level == p.conns[c].eff == p.il > SHARED_LOCK && p.conns[c].phase.Unlocking?
        && p.conns[c].phase.target == SHARED_LOCK
    case UlPendingReserved(c, target) =>
      c in p.conns && p.conns[c].level == p.conns[c].eff == p.il > SHARED_LOCK && p.conns[c].phase.Unlocking?
        && p.conns[c].phase.target == target
    case UlWholeFile(c) =>
      c in p.conns && p.conns[c].eff == NO_LOCK && p.conns[c].phase.Unlocking? && p.conns[c].phase.target == NO_LOCK
  }

  ghost predicate LkUpgrade(p: Proc, c: Cid) {
    c in p.conns && p.conns[c].phase == Ready && p.conns[c].level == p.il && SHARED_LOCK <= p.il < EXCLUSIVE_LOCK
  }

  /** The kernel locks behind each level. */
  ghost predicate Backed(p: Proc, h: Held) {
    if p.excl then
      && (p.processLock ==> h.head == WriteLock && h.tail == WriteLock)
      && (p.il > NO_LOCK ==> p.processLock)
      && (p.pc.LkSharedRead? || p.pc.LkDropPending? ==> p.processLock)
    else
      && !p.processLock
      && (p.nShared > 0 ==> h.head != Unlocked && h.tail != Unlocked)
      && (p.il == RESERVED_LOCK ==> h.reserved == WriteLock)
      && (p.il >= PENDING_LOCK ==> h.pending == WriteLock)
      && (p.pc.LkSharedRead? ==> h.pending != Unlocked)
      && (p.pc.LkDropPending? ==> h.pending != Unlocked)
      && (p.pc.LkDropPending? && p.pc.got ==> h.head != Unlocked && h.tail != Unlocked)
      && (p.pc.LkExclusive? ==> h.pending == WriteLock)
  }

  /** No descriptor is on the list twice. */
  predicate DistinctFds(unused: seq<UnusedFd>) {
    forall i, j :: 0 <= i < j < |unused| ==> unused[i].fd != unused[j].fd
  }

  /** Connections, opens in progress and the unused list own open descriptors, each its own. */
  ghost predicate OwnersHold(p: Proc) {
    && (forall c :: c in p.conns && p.conns[c].phase != Gone ==>
          p.conns[c].node.fd in p.fds && p.fds[p.conns[c].node.fd] == ByConn(c))
    && (forall c :: c in p.opening ==> p.opening[c].fd in p.fds && p.fds[p.opening[c].fd] == ByOpening(c))
    && (forall f :: f in FdSet(p.unused) ==> f in p.fds && p.fds[f] == ByUnused)
  }

  /** The recorded owner of an open descriptor really has it. */
  ghost predicate OwnerHas(p: Proc, f: Fd)
    requires f in p.fds
  {
    match p.fds[f]
    case ByConn(c) => c in p.conns && p.conns[c].phase != Gone && p.conns[c].node.fd == f
    case ByOpening(c) => c in p.opening && p.opening[c].fd == f
    case ByUnused => f in FdSet(p.unused)
  }

  /** Each open descriptor has exactly one owner, and no closed descriptor is open. */
  ghost predicate Descriptors(p: Proc, h: Held) {
    && p.fds.Keys !! p.closed
    && OwnersHold(p)
    && (forall f :: f in p.fds ==> OwnerHas(p, f))
    && DistinctFds(p.unused)
    && (p.unused != [] ==> p.nLock > 0)
    && (p.nRef == 0 ==> h == NO_LOCKS)
    && p.opening.Keys !! p.conns.Keys
  }

  ghost predicate ProcInv(p: Proc, h: Held) {
    Counters(p) && Levels(p) && Phases(p) && PcOk(p) && Backed(p, h) && Descriptors(p, h)
  }
}
