/** How a second staged downgrade lets a waiting writer have EXCLUSIVE beside a RESERVED connection. */
module NfsScenario {
  import opened PosixOs
  import opened LockLevels
  import opened PosixFile
  import opened PosixFileInv
  import opened NfsProcess
  import opened NfsSystem
  import opened NfsTheorems
  import PosixTheorems

  lemma ReachNext(s: Sys, e: Event)
    requires Reachable(s) && CanStep(s, e)
    ensures Reachable(Next(s, e))
  {
    hide CanStep, Init;
    var tr, es :| Run(tr, es) && tr[|es|] == s;
    var longer, more := tr + [Next(s, e)], es + [e];
    assert Run(longer, more) by {
      forall i | 0 <= i < |more|
        ensures CanStep(longer[i], more[i]) && longer[i + 1] == Next(longer[i], more[i])
      {
        if i < |es| {
          assert CanStep(tr[i], es[i]) && tr[i + 1] == Next(tr[i], es[i]);
        }
      }
    }
    assert longer[|more|] == Next(s, e);
  }

  /** Process p takes one step, which makes it n. */
  lemma Moves(s: Sys, p: Pid, l: Label, n: NfsProc) returns (t: Sys)
    requires Reachable(s) && p in s.procs && NfsEnabled(s.procs[p], l) && NfsStep(s.procs[p], l) == n
    requires l == Call(true) ==> Granted(s, p, NfsIssued(s.procs[p]))
    ensures Reachable(t) && t == Sys(s.procs[p := n])
  {
    hide NfsEnabled, NfsStep, NfsIssued, Granted;
    ReachNext(s, Event(p, l));
    t := Next(s, Event(p, l));
  }

  // ---------------------------------------------------------------- taking the window

  /** p has started a downgrade without the last byte, q waits at PENDING as the only reader of its
  process, and no third process has anything on the shared range. */
  ghost predicate Exposed(s: Sys, p: Pid, q: Pid, d: Cid) {
    && p in s.procs && q in s.procs && p != q
    && (var n := s.procs[p]; Staging(n) && n.stage == 0 && n.cut && !n.p.excl)
    && (var m := s.procs[q];
        && m.p.pc == Idle && !m.p.excl && m.p.nShared == 1
        && d in m.p.conns && m.p.conns[d].phase == Ready && m.p.conns[d].level == PENDING_LOCK)
    && (forall r :: r in s.procs && r != p && r != q ==> s.procs[r].held.head == s.procs[r].held.tail == Unlocked)
  }

  /** The first call of such a downgrade succeeds, and the second fails. */
  lemma WindowSteps(n: NfsProc)
    requires NfsInv(n) && Staging(n) && n.stage == 0 && n.cut && !n.p.excl
    ensures PcValid(n.p) && NfsEnabled(n, Call(true)) && NfsIssued(n) == SetLk(SharedHead, Unlocked)
    ensures NfsStep(n, Call(true)) == n.(stage := 1, held := n.held.(head := Unlocked))
    ensures var open := n.(stage := 1, held := n.held.(head := Unlocked));
      && open.held.head == open.held.tail == Unlocked
      && NfsEnabled(open, Call(false))
      && var c := n.p.pc.c;
      var t := NfsStep(open, Call(false));
      c in t.p.conns && t.p.conns[c].phase == Ready && t.p.conns[c].level == n.p.conns[c].level > SHARED_LOCK
  {
    DowngradeFacts(n.p, n.asif);
    assert PhaseOk(n.p.pc, n.p.pc.c, n.p.conns[n.p.pc.c]);
    assert PcOk(n.p);
    hide ProcInv;
  }

  /** The waiting writer asks again and is served. */
  lemma ServedSteps(m: NfsProc, d: Cid)
    requires NfsInv(m) && m.p.pc == Idle && !m.p.excl && m.p.nShared == 1
    requires d in m.p.conns && m.p.conns[d].phase == Ready && m.p.conns[d].level == PENDING_LOCK
    ensures NfsEnabled(m, Lock(d, EXCLUSIVE_LOCK))
      && NfsStep(m, Lock(d, EXCLUSIVE_LOCK)) == m.(p := m.p.(pc := LkExclusive(d)), stage := 0)
    ensures var asking := m.(p := m.p.(pc := LkExclusive(d)), stage := 0);
      && NfsEnabled(asking, Call(true)) && NfsIssued(asking) == SetLk(SharedRange, WriteLock)
      && var t := NfsStep(asking, Call(true));
      d in t.p.conns && t.p.conns[d].phase == Ready && t.p.conns[d].level == EXCLUSIVE_LOCK
  {
    PosixTheorems.AskingProc(m.p, m.asif, d);
    PosixTheorems.ServedProc(m.p.(pc := LkExclusive(d)), d);
    hide ProcInv, StepProc;
  }

  /** From every reachable state of this kind the waiting writer can get EXCLUSIVE, while the downgrade
  fails and its connection stays where it was: above SHARED. */
  lemma WriterTakesTheWindow(s: Sys, p: Pid, q: Pid, d: Cid) returns (t: Sys)
    requires Reachable(s) && Exposed(s, p, q, d) && s.procs[p].p.pc.c in s.procs[p].p.conns
    ensures Reachable(t) && Settled(t, q, d) && LevelOf(t, q, d) == EXCLUSIVE_LOCK
    ensures var c := s.procs[p].p.pc.c;
      Settled(t, p, c) && LevelOf(t, p, c) == s.procs[p].p.conns[c].level > SHARED_LOCK
  {
    hide NfsInv, NfsStep, NfsIssued, NfsEnabled, Reachable, Granted;
    BothInv(s, p, q);
    var n, m := s.procs[p], s.procs[q];
    WindowSteps(n);
    ServedSteps(m, d);
    var open, asking := n.(stage := 1, held := n.held.(head := Unlocked)),
      m.(p := m.p.(pc := LkExclusive(d)), stage := 0);
    UnlockIsGranted(s, p, SharedHead);
    var s1 := Moves(s, p, Call(true), open);
    var s2 := Moves(s1, q, Lock(d, EXCLUSIVE_LOCK), asking);
    FreeRangeIsGranted(s2, q);
    var served := NfsStep(asking, Call(true));
    var s3 := Moves(s2, q, Call(true), served);
    t := Moves(s3, p, Call(false), NfsStep(open, Call(false)));
    assert t.procs[q] == served;
  }

  lemma BothInv(s: Sys, p: Pid, q: Pid)
    requires Reachable(s) && p in s.procs && q in s.procs
    ensures NfsInv(s.procs[p]) && NfsInv(s.procs[q])
  {
    ReachableInv(s);
    Two(s, p, q);
  }

  lemma UnlockIsGranted(s: Sys, p: Pid, r: Range)
    ensures Granted(s, p, SetLk(r, Unlocked))
  {
  }

  lemma FreeRangeIsGranted(s: Sys, p: Pid)
    requires forall q :: q in s.procs && q != p ==> s.procs[q].held.head == s.procs[q].held.tail == Unlocked
    ensures Granted(s, p, SetLk(SharedRange, WriteLock))
  {
  }

  // ---------------------------------------------------------------- exclusive mode in the window

  /** p has started a downgrade without the last byte, q is an exclusive-mode process without its process
  lock in which connection d is between calls, and no third process has anything on the shared range. */
  ghost predicate ExposedToExcl(s: Sys, p: Pid, q: Pid, d: Cid) {
    && p in s.procs && q in s.procs && p != q
    && (var n := s.procs[p]; Staging(n) && n.stage == 0 && n.cut && !n.p.excl && PcValid(n.p))
    && (var m := s.procs[q];
        && m.p.pc == Idle && m.p.excl && !m.p.processLock && m.p.il == NO_LOCK
        && d in m.p.conns && m.p.conns[d].phase == Ready && m.p.conns[d].level == NO_LOCK)
    && (forall r :: r in s.procs && r != p && r != q ==> s.procs[r].held.head == s.procs[r].held.tail == Unlocked)
  }

  /** The exclusive-mode process with its process lock, at that point of the code for d. */
  function WithRange(m: NfsProc, pc: Pc): NfsProc {
    var held := m.held.(head := WriteLock, tail := WriteLock);
    m.(p := m.p.(processLock := true, nLock := m.p.nLock + 1, pc := pc), held := held, asif := held)
  }

  function Reading(m: NfsProc, d: Cid, level: nat): NfsProc
    requires d in m.p.conns
  {
    m.(p := SetLevel(m.p, d, level).(nShared := 1, nLock := m.p.nLock + 1))
  }

  /** The first lock call takes the process lock. */
  lemma TakesRange(m: NfsProc, d: Cid)
    requires m.p.pc == Idle && m.p.excl && !m.p.processLock && m.p.il == NO_LOCK && m.held == m.asif && !m.cut
    requires d in m.p.conns && m.p.conns[d].phase == Ready && m.p.conns[d].level == NO_LOCK
    ensures NfsEnabled(m, Lock(d, SHARED_LOCK))
    ensures NfsStep(m, Lock(d, SHARED_LOCK)) == m.(p := m.p.(pc := LkPendingRead(d)))
    ensures var asking := m.(p := m.p.(pc := LkPendingRead(d)));
      && NfsEnabled(asking, Call(true)) && NfsIssued(asking) == SetLk(SharedRange, WriteLock)
      && NfsStep(asking, Call(true)) == WithRange(m, LkSharedRead(d))
  {
  }

  /** The others make no call. */
  lemma ReadsWithoutCalls(m: NfsProc, d: Cid)
    requires m.p.excl && m.p.processLock && !m.cut && m.p.pc == LkSharedRead(d) && d in m.p.conns
    ensures NfsEnabled(m, Call(true)) && NfsIssued(m) == NoRequest
    ensures NfsStep(m, Call(true)) == m.(p := m.p.(pc := LkDropPending(d, true)))
    ensures var dropping := m.(p := m.p.(pc := LkDropPending(d, true)));
      && NfsEnabled(dropping, Call(true)) && NfsIssued(dropping) == NoRequest
      && NfsStep(dropping, Call(true)) == Reading(m, d, SHARED_LOCK)
  {
  }

  lemma ReservesWithoutCalls(m: NfsProc, d: Cid)
    requires m.p.excl && m.p.processLock && !m.cut && m.p.pc == Idle && m.p.il == SHARED_LOCK
    requires d in m.p.conns && m.p.conns[d].phase == Ready && m.p.conns[d].level == SHARED_LOCK
    ensures NfsEnabled(m, Lock(d, RESERVED_LOCK))
    ensures NfsStep(m, Lock(d, RESERVED_LOCK)) == m.(p := m.p.(pc := LkReserved(d)))
    ensures var asking := m.(p := m.p.(pc := LkReserved(d)));
      && NfsEnabled(asking, Call(true)) && NfsIssued(asking) == NoRequest
      && NfsStep(asking, Call(true)) == m.(p := SetLevel(m.p, d, RESERVED_LOCK))
  {
  }

  /** The process takes the range in the window and reads. */
  lemma ReadsInWindow(s: Sys, q: Pid, d: Cid) returns (t: Sys)
    requires Reachable(s) && q in s.procs
    requires var m := s.procs[q];
      && m.p.pc == Idle && m.p.excl && !m.p.processLock && m.p.il == NO_LOCK && m.held == m.asif && !m.cut
      && d in m.p.conns && m.p.conns[d].phase == Ready && m.p.conns[d].level == NO_LOCK
    requires forall r :: r in s.procs && r != q ==> s.procs[r].held.head == s.procs[r].held.tail == Unlocked
    ensures Reachable(t)
    ensures t == Sys(s.procs[q := Reading(WithRange(s.procs[q], LkSharedRead(d)), d, SHARED_LOCK)])
  {
    hide NfsStep, NfsIssued, NfsEnabled, Reachable, Granted;
    var m := s.procs[q];
    TakesRange(m, d);
    t := Moves(s, q, Lock(d, SHARED_LOCK), m.(p := m.p.(pc := LkPendingRead(d))));
    FreeRangeIsGranted(t, q);
    var taken := WithRange(m, LkSharedRead(d));
    t := Moves(t, q, Call(true), taken);
    ReadsWithoutCalls(taken, d);
    NothingIsGranted(t, q);
    t := Moves(t, q, Call(true), taken.(p := taken.p.(pc := LkDropPending(d, true))));
    NothingIsGranted(t, q);
    t := Moves(t, q, Call(true), Reading(taken, d, SHARED_LOCK));
  }

  lemma NothingIsGranted(s: Sys, p: Pid)
    ensures Granted(s, p, NoRequest)
  {
  }

  /** From every reachable state of this kind the exclusive-mode process can get its first reader in the
  middle of p's downgrade, whatever bytes p has, and go on to RESERVED, while the downgrade fails and its
  connection stays where it was. */
  lemma ExclusiveModeTakesTheWindow(s: Sys, p: Pid, q: Pid, d: Cid) returns (m: Sys, t: Sys)
    requires Reachable(s) && ExposedToExcl(s, p, q, d)
    ensures Reachable(m) && p in m.procs && q in m.procs && s.procs[q].p.nShared == 0 && m.procs[q].p.nShared == 1
    ensures Staging(m.procs[p]) && m.procs[p].held.pending == s.procs[p].held.pending
    ensures Reachable(t) && Settled(t, q, d) && LevelOf(t, q, d) == RESERVED_LOCK
    ensures var c := s.procs[p].p.pc.c;
      Settled(t, p, c) && LevelOf(t, p, c) == s.procs[p].p.conns[c].level > SHARED_LOCK
  {
    hide NfsInv, NfsStep, NfsIssued, NfsEnabled, Reachable, Granted;
    BothInv(s, p, q);
    var n, k := s.procs[p], s.procs[q];
    WindowSteps(n);
    UnusedExcl(k);
    UnlockIsGranted(s, p, SharedHead);
    var open := n.(stage := 1, held := n.held.(head := Unlocked));
    m := Moves(s, p, Call(true), open);
    m := ReadsInWindow(m, q, d);
    var reader := m.procs[q];
    ReservesWithoutCalls(reader, d);
    t := Moves(m, q, Lock(d, RESERVED_LOCK), reader.(p := reader.p.(pc := LkReserved(d))));
    NothingIsGranted(t, q);
    var writer := reader.(p := SetLevel(reader.p, d, RESERVED_LOCK));
    t := Moves(t, q, Call(true), writer);
    t := Moves(t, p, Call(false), NfsStep(open, Call(false)));
    assert t.procs[q] == writer;
  }

  lemma UnusedExcl(n: NfsProc)
    requires NfsInv(n) && n.p.excl && n.p.il == NO_LOCK && n.p.pc == Idle
    ensures n.held == n.asif && !n.cut && n.p.nShared == 0
  {
  }

  // ---------------------------------------------------------------- how it comes to that

  /** A process with one connection, at that point of its code. */
  function One(level: nat, phase: Phase, pc: Pc, stage: nat, held: Held, asif: Held, cut: bool): NfsProc {
    var n := if level == NO_LOCK then 0 else 1;
    var fds: map<Fd, Owner> := map[7 := ByConn(0)];
    var conns := map[0 := Conn(level, level, phase, UnusedFd(7, 0))];
    NfsProc(Proc(false, level, n, n, false, 1, [], conns, map[], fds, {}, pc), stage, held, asif, cut)
  }

  function Rest(level: nat, held: Held, asif: Held, cut: bool): NfsProc {
    One(level, Ready, Idle, 0, held, asif, cut)
  }

  const READS := Held(Unlocked, Unlocked, ReadLock, ReadLock)
  const WRITES := Held(WriteLock, Unlocked, WriteLock, WriteLock)
  const HALF := Held(Unlocked, Unlocked, ReadLock, Unlocked)

  /** A process with one connection at NO_LOCK. */
  function Opened(excl: bool): NfsProc {
    var n := Rest(NO_LOCK, NO_LOCKS, NO_LOCKS, false);
    n.(p := n.p.(excl := excl))
  }

  lemma Opens(s: Sys, p: Pid, excl: bool) returns (t: Sys)
    requires Reachable(s) && p in s.procs && s.procs[p] == FreshNfs(excl)
    ensures Reachable(t) && t == Sys(s.procs[p := Opened(excl)])
  {
    hide Reachable;
    var fds: map<Fd, Owner> := map[7 := ByOpening(0)];
    var opening := FreshNfs(excl).(p := FreshProc(excl).(opening := map[0 := UnusedFd(7, 0)], fds := fds));
    t := Moves(s, p, TakeFd(0, 0, false, 7), opening);
    assert map[0 := UnusedFd(7, 0)] - {0} == map[];
    t := Moves(t, p, Attach(0, true), Opened(excl));
  }

  /** The others hold nothing, or read. */
  ghost predicate OthersRead(s: Sys, p: Pid) {
    forall q :: q in s.procs && q != p ==> s.procs[q].held == NO_LOCKS || s.procs[q].held == HALF
  }

  lemma StartsReading(s: Sys, p: Pid) returns (t: Sys)
    requires Reachable(s) && p in s.procs && s.procs[p] == Rest(NO_LOCK, NO_LOCKS, NO_LOCKS, false) && OthersRead(s, p)
    ensures Reachable(t) && t == Sys(s.procs[p := Rest(SHARED_LOCK, READS, READS, false)])
  {
    hide Reachable;
    t := AsksForShared(s, p);
    var both := READS.(pending := ReadLock);
    t := Moves(t, p, Call(true), One(NO_LOCK, Ready, LkDropPending(0, true), 0, both, both, false));
    t := Moves(t, p, Call(true), Rest(SHARED_LOCK, READS, READS, false));
  }

  /** The PENDING byte is read-locked for the time being. */
  lemma AsksForShared(s: Sys, p: Pid) returns (t: Sys)
    requires Reachable(s) && p in s.procs && s.procs[p] == Rest(NO_LOCK, NO_LOCKS, NO_LOCKS, false) && OthersRead(s, p)
    ensures var pend := NO_LOCKS.(pending := ReadLock);
      Reachable(t) && t == Sys(s.procs[p := One(NO_LOCK, Ready, LkSharedRead(0), 0, pend, pend, false)])
  {
    hide Reachable;
    var pend := NO_LOCKS.(pending := ReadLock);
    t := Moves(s, p, Lock(0, SHARED_LOCK), One(NO_LOCK, Ready, LkPendingRead(0), 0, NO_LOCKS, NO_LOCKS, false));
    t := Moves(t, p, Call(true), One(NO_LOCK, Ready, LkSharedRead(0), 0, pend, pend, false));
  }

  lemma GetsExclusive(s: Sys, p: Pid) returns (t: Sys)
    requires Reachable(s) && p in s.procs && s.procs[p] == Rest(SHARED_LOCK, READS, READS, false)
    requires forall q :: q in s.procs && q != p ==> s.procs[q].held == NO_LOCKS
    ensures Reachable(t) && t == Sys(s.procs[p := Rest(EXCLUSIVE_LOCK, WRITES, WRITES, false)])
  {
    hide Reachable;
    var pend := READS.(pending := WriteLock);
    t := Moves(s, p, Lock(0, EXCLUSIVE_LOCK), One(SHARED_LOCK, Ready, LkPendingWrite(0), 0, READS, READS, false));
    t := Moves(t, p, Call(true), One(SHARED_LOCK, Ready, LkExclusive(0), 0, pend, pend, false));
    t := Moves(t, p, Call(true), Rest(EXCLUSIVE_LOCK, WRITES, WRITES, false));
  }

  /** The first downgrade; nothing is wrong with it. */
  lemma ComesDown(s: Sys, p: Pid) returns (t: Sys)
    requires Reachable(s) && p in s.procs && s.procs[p] == Rest(EXCLUSIVE_LOCK, WRITES, WRITES, false)
    requires forall q :: q in s.procs && q != p ==> s.procs[q].held == NO_LOCKS
    ensures Reachable(t) && t == Sys(s.procs[p := Rest(SHARED_LOCK, HALF, READS, true)])
  {
    hide Reachable, Rest;
    var inside, low := Unlocking(SHARED_LOCK, false), UlPendingReserved(0, SHARED_LOCK);
    var full, read := UlReadAll(0), READS.(pending := WriteLock);
    t := StartsDown(s, p, EXCLUSIVE_LOCK, WRITES, WRITES, false);
    t := Moves(t, p, Call(true), One(EXCLUSIVE_LOCK, inside, full, 1, WRITES.(head := Unlocked), WRITES, false));
    t := Moves(t, p, Call(true), One(EXCLUSIVE_LOCK, inside, full, 2, WRITES.(head := ReadLock), WRITES, false));
    t := Moves(t, p, Call(true), One(EXCLUSIVE_LOCK, inside, low, 0, HALF.(pending := WriteLock), read, true));
    t := Finishes(t, p);
  }

  lemma StartsDown(s: Sys, p: Pid, level: nat, held: Held, asif: Held, cut: bool) returns (t: Sys)
    requires Reachable(s) && p in s.procs && s.procs[p] == Rest(level, held, asif, cut) && SHARED_LOCK < level
    ensures Reachable(t)
    ensures t == Sys(s.procs[p := One(level, Unlocking(SHARED_LOCK, false), UlReadAll(0), 0, held, asif, cut)])
  {
    hide Reachable;
    t := Moves(s, p, Unlock(0, SHARED_LOCK, false),
      One(level, Unlocking(SHARED_LOCK, false), UlReadAll(0), 0, held, asif, cut));
  }

  /** The fourth call, and the level written after the mutex. */
  lemma Finishes(s: Sys, p: Pid) returns (t: Sys)
    requires Reachable(s) && p in s.procs
    requires s.procs[p] == One(EXCLUSIVE_LOCK, Unlocking(SHARED_LOCK, false), UlPendingReserved(0, SHARED_LOCK), 0,
      HALF.(pending := WriteLock), READS.(pending := WriteLock), true)
    ensures Reachable(t) && t == Sys(s.procs[p := Rest(SHARED_LOCK, HALF, READS, true)])
  {
    hide Reachable;
    var n := Rest(SHARED_LOCK, HALF, READS, true);
    var k := Conn(EXCLUSIVE_LOCK, SHARED_LOCK, Released(SHARED_LOCK, false), UnusedFd(7, 0));
    var released := n.(p := n.p.(conns := map[0 := k]));
    t := Moves(s, p, Call(true), released);
    t := Moves(t, p, WriteLevel(0), n);
  }

  lemma GetsReserved(s: Sys, p: Pid) returns (t: Sys)
    requires Reachable(s) && p in s.procs && s.procs[p] == Rest(SHARED_LOCK, HALF, READS, true)
    requires forall q :: q in s.procs && q != p ==> s.procs[q].held.reserved == Unlocked
    ensures Reachable(t)
    ensures t == Sys(s.procs[p :=
      Rest(RESERVED_LOCK, HALF.(reserved := WriteLock), READS.(reserved := WriteLock), true)])
  {
    hide Reachable;
    t := Moves(s, p, Lock(0, RESERVED_LOCK), One(SHARED_LOCK, Ready, LkReserved(0), 0, HALF, READS, true));
    t := Moves(t, p, Call(true),
      Rest(RESERVED_LOCK, HALF.(reserved := WriteLock), READS.(reserved := WriteLock), true));
  }

  /** A request for EXCLUSIVE that wins the PENDING byte and is refused the shared range. */
  lemma WaitsAtPending(s: Sys, p: Pid, held: Held, asif: Held, cut: bool) returns (t: Sys)
    requires Reachable(s) && p in s.procs && s.procs[p] == Rest(SHARED_LOCK, held, asif, cut)
    requires forall q :: q in s.procs && q != p ==> s.procs[q].held.pending == Unlocked
    ensures Reachable(t)
    ensures t == Sys(s.procs[p := Rest(PENDING_LOCK, held.(pending := WriteLock), asif.(pending := WriteLock), cut)])
  {
    hide Reachable;
    var pend, asPend := held.(pending := WriteLock), asif.(pending := WriteLock);
    t := Moves(s, p, Lock(0, EXCLUSIVE_LOCK), One(SHARED_LOCK, Ready, LkPendingWrite(0), 0, held, asif, cut));
    t := Moves(t, p, Call(true), One(SHARED_LOCK, Ready, LkExclusive(0), 0, pend, asPend, cut));
    t := Moves(t, p, Call(false), Rest(PENDING_LOCK, pend, asPend, cut));
  }

  /** Two processes, the second perhaps in exclusive mode. */
  function Start(excl: bool): Sys {
    Sys(map[0 := FreshNfs(false), 1 := FreshNfs(excl)])
  }

  lemma StartIsReachable(excl: bool)
    ensures Reachable(Start(excl))
  {
    var es: seq<Event> := [];
    assert Run([Start(excl)], es) && [Start(excl)][|es|] == Start(excl);
  }

  /** Connection 0 of process 0 goes to EXCLUSIVE and is downgraded once. */
  lemma DowngradedOnce(excl: bool) returns (s: Sys)
    ensures Reachable(s)
    ensures s == Sys(map[0 := Rest(SHARED_LOCK, HALF, READS, true), 1 := Opened(excl)])
  {
    hide Reachable;
    StartIsReachable(excl);
    s := Opens(Start(excl), 0, false);
    s := Opens(s, 1, excl);
    s := StartsReading(s, 0);
    s := GetsExclusive(s, 0);
    s := ComesDown(s, 0);
  }

  /** Then process 1 reads, process 0 takes RESERVED, process 1 waits at PENDING, and process 0 starts its
  second downgrade. */
  lemma SecondDowngradeIsExposed() returns (s: Sys)
    ensures Reachable(s) && Exposed(s, 0, 1, 0) && s.procs[0].p.pc == UlReadAll(0)
    ensures 0 in s.procs[0].p.conns && s.procs[0].p.conns[0].level == RESERVED_LOCK
  {
    hide Reachable;
    s := DowngradedOnce(false);
    s := StartsReading(s, 1);
    s := GetsReserved(s, 0);
    s := WaitsAtPending(s, 1, READS, READS, false);
    s := StartsDown(s, 0, RESERVED_LOCK, HALF.(reserved := WriteLock), READS.(reserved := WriteLock), true);
  }

  /** So EXCLUSIVE and RESERVED are held at the same time. */
  lemma SecondDowngradeBreaksExclusion() returns (s: Sys)
    ensures Reachable(s) && Settled(s, 1, 0) && LevelOf(s, 1, 0) == EXCLUSIVE_LOCK
    ensures Settled(s, 0, 0) && LevelOf(s, 0, 0) == RESERVED_LOCK
  {
    s := SecondDowngradeIsExposed();
    hide Reachable, Exposed;
    s := WriterTakesTheWindow(s, 0, 1, 0);
  }

  /** The second downgrade of process 0, from RESERVED or from PENDING, beside an exclusive-mode process. */
  lemma DowngradesBesideExcl(level: nat) returns (s: Sys)
    requires level == RESERVED_LOCK || level == PENDING_LOCK
    ensures Reachable(s) && ExposedToExcl(s, 0, 1, 0) && s.procs[0].p.pc == UlReadAll(0)
    ensures s.procs[0].p.conns[0].level == level
    ensures level == PENDING_LOCK ==> s.procs[0].held.pending == WriteLock
  {
    hide Reachable;
    s := DowngradedOnce(true);
    if level == RESERVED_LOCK {
      s := GetsReserved(s, 0);
      s := StartsDown(s, 0, level, HALF.(reserved := WriteLock), READS.(reserved := WriteLock), true);
    } else {
      s := WaitsAtPending(s, 0, HALF, READS, true);
      s := StartsDown(s, 0, level, HALF.(pending := WriteLock), READS.(pending := WriteLock), true);
    }
  }

  /** So with an exclusive-mode process RESERVED can be held twice. */
  lemma TwoReserved() returns (s: Sys)
    ensures Reachable(s) && Settled(s, 0, 0) && LevelOf(s, 0, 0) == RESERVED_LOCK
    ensures Settled(s, 1, 0) && LevelOf(s, 1, 0) == RESERVED_LOCK
  {
    s := DowngradesBesideExcl(RESERVED_LOCK);
    hide Reachable, ExposedToExcl;
    var m;
    m, s := ExclusiveModeTakesTheWindow(s, 0, 1, 0);
  }

  /** And an exclusive-mode process can get its first reader past the PENDING byte of a downgrading one. */
  lemma ReaderPassesPending() returns (s: Sys, t: Sys)
    ensures Reachable(s) && Reachable(t) && 0 in s.procs && 1 in s.procs && 0 in t.procs && 1 in t.procs
    ensures Staging(s.procs[0]) && s.procs[0].held.pending == WriteLock && s.procs[1].p.nShared == 0
    ensures Staging(t.procs[0]) && t.procs[0].held.pending == WriteLock && t.procs[1].p.nShared == 1
  {
    s := DowngradesBesideExcl(PENDING_LOCK);
    hide Reachable;
    var last;
    t, last := ExclusiveModeTakesTheWindow(s, 0, 1, 0);
  }
}
