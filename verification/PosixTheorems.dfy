/** What the lock protocol guarantees in every reachable state, that is, after any interleaving of
the fcntl() calls of any number of processes and connections, failing calls included. */
module PosixTheorems {
  import opened PosixOs
  import opened LockLevels
  import opened PosixFile
  import opened PosixFileInv
  import opened PosixSystem

  /** An open connection that is not inside, or still finishing, an unlock. */
  predicate Settled(s: Sys, p: Pid, c: Cid) {
    p in s.procs && c in s.procs[p].conns
      && (s.procs[p].conns[c].phase == Ready || s.procs[p].conns[c].phase == Closing)
  }

  function LevelOf(s: Sys, p: Pid, c: Cid): nat
    requires Settled(s, p, c)
  {
    s.procs[p].conns[c].level
  }

  /** What a settled connection's level says about its process. */
  lemma ConnFacts(p: Proc, h: Held, c: Cid)
    requires ProcInv(p, h) && c in p.conns && (p.conns[c].phase == Ready || p.conns[c].phase == Closing)
    ensures p.conns[c].eff == p.conns[c].level <= p.il
    ensures p.conns[c].level > SHARED_LOCK ==> p.il == p.conns[c].level
    ensures p.conns[c].level >= SHARED_LOCK ==> h.head != Unlocked && h.tail != Unlocked
    ensures p.conns[c].level == RESERVED_LOCK ==> h.reserved == WriteLock || p.excl
    ensures p.conns[c].level >= PENDING_LOCK ==> h.pending == WriteLock || p.excl
    ensures p.excl && p.conns[c].level >= SHARED_LOCK ==> h.head == WriteLock && h.tail == WriteLock
  {
    assert PhaseOk(p.pc, c, p.conns[c]);
    var w :| WriterIs(p, w);
    if p.conns[c].level >= SHARED_LOCK {
      assert c in Members(p);
    }
  }

  /** Two connections of one process: only one is above SHARED, and none beside EXCLUSIVE. */
  lemma SiblingFacts(p: Proc, h: Held, c: Cid, d: Cid)
    requires ProcInv(p, h) && c in p.conns && d in p.conns && c != d
    requires p.conns[c].eff > SHARED_LOCK
    ensures p.conns[d].eff <= SHARED_LOCK
    ensures p.conns[c].eff == EXCLUSIVE_LOCK ==> p.conns[d].eff == NO_LOCK
  {
    var w :| WriterIs(p, w);
    if p.conns[c].eff == EXCLUSIVE_LOCK {
      assert c in Members(p);
      assert |Members(p) - {c}| == 0;
      assert d !in Members(p) - {c};
    }
  }

  /** A connection at EXCLUSIVE excludes every other connection of every process. */
  lemma ExclusiveExcludes(s: Sys, p: Pid, c: Cid, q: Pid, d: Cid)
    requires Reachable(s) && Settled(s, p, c) && Settled(s, q, d) && (p != q || c != d)
    requires LevelOf(s, p, c) == EXCLUSIVE_LOCK
    ensures LevelOf(s, q, d) == NO_LOCK
  {
    ReachableInv(s);
    ConnFacts(s.procs[p], s.held[p], c);
    ConnFacts(s.procs[q], s.held[q], d);
    if p == q {
      SiblingFacts(s.procs[p], s.held[p], c, d);
    } else {
      assert ShutOut(s, p, q);
    }
  }

  /** At most one connection anywhere is at PENDING or EXCLUSIVE. */
  lemma OnePendingOrExclusive(s: Sys, p: Pid, c: Cid, q: Pid, d: Cid)
    requires Reachable(s) && Settled(s, p, c) && Settled(s, q, d) && (p != q || c != d)
    requires LevelOf(s, p, c) >= PENDING_LOCK
    ensures LevelOf(s, q, d) <= RESERVED_LOCK
  {
    ReachableInv(s);
    ConnFacts(s.procs[p], s.held[p], c);
    ConnFacts(s.procs[q], s.held[q], d);
    assert p != q ==> Compatible(s.held[p], s.held[q]);
    if p == q {
      SiblingFacts(s.procs[p], s.held[p], c, d);
    }
  }

  /** At most one connection anywhere is at RESERVED. */
  lemma OneReserved(s: Sys, p: Pid, c: Cid, q: Pid, d: Cid)
    requires Reachable(s) && Settled(s, p, c) && Settled(s, q, d) && (p != q || c != d)
    requires LevelOf(s, p, c) == RESERVED_LOCK
    ensures LevelOf(s, q, d) != RESERVED_LOCK
  {
    ReachableInv(s);
    ConnFacts(s.procs[p], s.held[p], c);
    ConnFacts(s.procs[q], s.held[q], d);
    assert p != q ==> Compatible(s.held[p], s.held[q]);
    if p == q {
      SiblingFacts(s.procs[p], s.held[p], c, d);
    }
  }

  // ---------------------------------------------------------------- the inode record

  /** The connections a caller would count: open, and at SHARED or above. */
  ghost function Holders(p: Proc): set<Cid> {
    set c | c in p.conns && p.conns[c].phase != Gone && p.conns[c].level >= SHARED_LOCK
  }

  lemma CountersBetweenCalls(p: Proc)
    requires Counters(p) && Phases(p) && p.pc == Idle
    requires forall c :: c in p.conns ==> p.conns[c].phase == Ready
    ensures p.nShared == |Holders(p)| && Holders(p) == Members(p) && p.nRef == |p.conns|
    ensures p.nLock == p.nShared + (if p.processLock then 1 else 0)
  {
    assert forall c :: c in p.conns ==> PhaseOk(p.pc, c, p.conns[c]);
    assert Holders(p) == Members(p);
    assert Live(p) == p.conns.Keys;
  }

  lemma LevelBetweenCalls(p: Proc)
    requires Levels(p) && Phases(p) && p.pc == Idle && Holders(p) == Members(p)
    requires forall c :: c in p.conns ==> p.conns[c].phase == Ready
    ensures forall c :: c in p.conns ==> p.conns[c].level <= p.il
    ensures p.il > NO_LOCK ==> exists c :: c in p.conns && p.conns[c].level == p.il
  {
  }

  /** Between calls, and while no unlock has failed, the inode record counts exactly the connections
  that hold a lock and its level is the highest of theirs. */
  lemma Accounting(s: Sys, p: Pid)
    requires Reachable(s) && p in s.procs && s.procs[p].pc == Idle
    requires forall c :: c in s.procs[p].conns ==> s.procs[p].conns[c].phase == Ready
    ensures var i := s.procs[p];
      && i.nShared == |Holders(i)|
      && i.nLock == i.nShared + (if i.processLock then 1 else 0)
      && i.nRef == |i.conns|
      && (forall c :: c in i.conns ==> i.conns[c].level <= i.il)
      && (i.il > NO_LOCK ==> exists c :: c in i.conns && i.conns[c].level == i.il)
      && (i.il == EXCLUSIVE_LOCK ==> i.nShared == 1)
  {
    ReachableInv(s);
    var i := s.procs[p];
    assert ProcInv(i, s.held[p]);
    CountersBetweenCalls(i);
    LevelBetweenCalls(i);
  }

  // ---------------------------------------------------------------- writer starvation

  /** Connection d of process q goes from NO_LOCK to a lock in this step. */
  ghost predicate NewReader(s: Sys, q: Pid, l: Label, d: Cid)
    requires CanStep(s, q, l)
  {
    var t := StepProc(s.procs[q], l);
    d in s.procs[q].conns && s.procs[q].conns[d].level == NO_LOCK && d in t.conns && t.conns[d].level >= SHARED_LOCK
  }

  /** An fcntl() other than the last one of a fresh SHARED lock brings nobody from NO_LOCK. */
  lemma CallsThatAdmitNobody(p: Proc, ok: bool, d: Cid)
    requires Phases(p) && PcOk(p) && !p.pc.Idle? && d in p.conns && p.conns[d].level == NO_LOCK
    requires !p.pc.LkDropPending?
    ensures var t := AfterCall(p, ok); d in t.conns ==> t.conns[d].level == NO_LOCK
  {
    assert PhaseOk(p.pc, p.pc.c, p.conns[p.pc.c]);
  }

  lemma LockThatAdmits(p: Proc, c: Cid, want: nat, d: Cid)
    requires MayLock(p, c, want) && d in p.conns && p.conns[d].level == NO_LOCK
    requires LockEnter(p, c, want).conns[d].level >= SHARED_LOCK
    ensures c == d && want == SHARED_LOCK && (p.il == SHARED_LOCK || p.il == RESERVED_LOCK)
  {
  }

  lemma OthersThatAdmitNobody(p: Proc, l: Label, d: Cid)
    requires Phases(p) && Enabled(p, l) && d in p.conns && p.conns[d].level == NO_LOCK && !l.Call? && !l.Lock?
    ensures var t := StepProc(p, l); d in t.conns ==> t.conns[d].level == NO_LOCK
  {
    hide AfterCall, LockEnter;
    assert PhaseOk(p.pc, d, p.conns[d]);
  }

  /** A connection leaves NO_LOCK by joining a sibling, or at the end of a fresh SHARED lock. */
  lemma HowReadersStart(p: Proc, l: Label, d: Cid)
    requires Phases(p) && PcOk(p) && Enabled(p, l) && d in p.conns && p.conns[d].level == NO_LOCK
    requires var t := StepProc(p, l); d in t.conns && t.conns[d].level >= SHARED_LOCK
    ensures (l == Lock(d, SHARED_LOCK) && (p.il == SHARED_LOCK || p.il == RESERVED_LOCK))
         || (l == Call(true) && p.pc.LkDropPending? && p.pc.got)
  {
    match l
    case Call(ok) =>
      if !p.pc.LkDropPending? {
        CallsThatAdmitNobody(p, ok, d);
      }
    case Lock(c, want) => LockThatAdmits(p, c, want, d);
    case _ => OthersThatAdmitNobody(p, l, d);
  }

  /** While some connection is at PENDING, the only way for a connection to go from NO_LOCK to a lock
  is to join a sibling: its process's inode already counts a reader, so unixLock() increments
  nShared without asking the kernel. */
  lemma NewReadersJoinSiblings(s: Sys, p: Pid, c: Cid, q: Pid, l: Label, d: Cid)
    requires Reachable(s) && Settled(s, p, c) && LevelOf(s, p, c) >= PENDING_LOCK
    requires CanStep(s, q, l) && d in s.procs[q].conns && s.procs[q].conns[d].level == NO_LOCK
    ensures NewReader(s, q, l, d) <==>
            l == Lock(d, SHARED_LOCK) && (s.procs[q].il == SHARED_LOCK || s.procs[q].il == RESERVED_LOCK)
  {
    hide SysInv, StepProc, StepHeld, Enabled;
    ReachableInv(s);
    At(s, q);
    if NewReader(s, q, l, d) {
      HowReadersStart(s.procs[q], l, d);
      if l.Call? {
        NoFreshReader(s, p, c, q);
      }
    } else if l == Lock(d, SHARED_LOCK) && (s.procs[q].il == SHARED_LOCK || s.procs[q].il == RESERVED_LOCK) {
      JoiningReads(s.procs[q], d);
    }
  }

  /** A SHARED request beside a reader of the same process needs no call. */
  lemma JoiningReads(p: Proc, d: Cid)
    requires Enabled(p, Lock(d, SHARED_LOCK)) && d in p.conns && p.conns[d].level == NO_LOCK
    requires p.il == SHARED_LOCK || p.il == RESERVED_LOCK
    ensures var t := StepProc(p, Lock(d, SHARED_LOCK)); d in t.conns && t.conns[d].level == SHARED_LOCK
  {
  }

  /** The last fcntl() of a fresh SHARED lock is out of reach while another connection is at PENDING. */
  lemma NoFreshReader(s: Sys, p: Pid, c: Cid, q: Pid)
    requires SysInv(s) && Settled(s, p, c) && LevelOf(s, p, c) >= PENDING_LOCK && q in s.procs
    ensures !(s.procs[q].pc.LkDropPending? && s.procs[q].pc.got)
  {
    ConnFacts(s.procs[p], s.held[p], c);
    assert p != q ==> Compatible(s.held[p], s.held[q]);
    assert ProcInv(s.procs[q], s.held[q]);
    hide Counters, Levels, Phases, Descriptors;
  }

  /** A process's first reader comes from the last fcntl() of a fresh SHARED lock. */
  lemma HowReadingStarts(p: Proc, h: Held, l: Label)
    requires ProcInv(p, h) && Enabled(p, l) && p.nShared == 0 && StepProc(p, l).nShared > 0
    ensures l == Call(true) && p.pc.LkDropPending? && p.pc.got
  {
    assert p.pc.UlWholeFile? || p.il == NO_LOCK;
    assert PcOk(p);
    hide Counters, Levels, Phases, Descriptors, Backed;
    if l.Call? {
      FirstReaderCall(p, l.ok);
    } else {
      hide AfterCall;
    }
  }

  lemma UnlockAddsNoReader(p: Proc, ok: bool)
    requires UnlockPc(p.pc) && PcValid(p) && p.nShared == 0
    ensures AfterCall(p, ok).nShared <= 0
  {
  }

  lemma FirstReaderCall(p: Proc, ok: bool)
    requires !p.pc.Idle? && PcValid(p) && p.nShared == 0 && AfterCall(p, ok).nShared > 0
    ensures ok && p.pc.LkDropPending? && p.pc.got
  {
    if UnlockPc(p.pc) {
      UnlockAddsNoReader(p, ok);
    }
  }

  /** So no process that has no reader gets one: the set of reading processes only shrinks. */
  lemma ReadingProcessesShrink(s: Sys, p: Pid, c: Cid, q: Pid, l: Label)
    requires Reachable(s) && Settled(s, p, c) && LevelOf(s, p, c) >= PENDING_LOCK
    requires CanStep(s, q, l) && s.procs[q].nShared == 0
    ensures Next(s, q, l).procs[q].nShared == 0
  {
    ReachableInv(s);
    assert ProcInv(s.procs[q], s.held[q]);
    StepKeepsSysInv(s, q, l);
    var t := Next(s, q, l);
    assert ProcInv(t.procs[q], t.held[q]);
    assert t.procs[q].nShared >= 0;
    if t.procs[q].nShared > 0 {
      HowReadingStarts(s.procs[q], s.held[q], l);
      NoFreshReader(s, p, c, q);
    }
  }

  // ---------------------------------------------------------------- the waiting writer gets through

  /** c waits at PENDING as the only reader of its process, and no other process holds anything, not
  even a leaked lock, on the shared range. */
  ghost predicate Unopposed(s: Sys, p: Pid, c: Cid) {
    && Settled(s, p, c) && s.procs[p].conns[c].phase == Ready
    && LevelOf(s, p, c) == PENDING_LOCK && s.procs[p].nShared == 1
    && (forall q :: q in s.held && q != p ==> s.held[q].head == Unlocked && s.held[q].tail == Unlocked)
  }

  /** A step of some process other than p. */
  ghost predicate OtherStep(s: Sys, t: Sys, p: Pid) {
    exists q, l :: q != p && CanStep(s, q, l) && t == Next(s, q, l)
  }

  ghost predicate OthersRun(tr: seq<Sys>, p: Pid) {
    |tr| > 0 && forall i :: 0 <= i < |tr| - 1 ==> OtherStep(tr[i], tr[i + 1], p)
  }

  lemma UnopposedGuards(s: Sys, p: Pid, c: Cid)
    requires SysInv(s) && Unopposed(s, p, c)
    ensures p in s.held && Guards(s.held[p])
  {
    At(s, p);
    hide SysInv;
    ConnFacts(s.procs[p], s.held[p], c);
  }

  lemma UnopposedAfter(s: Sys, p: Pid, c: Cid, q: Pid, t: Sys)
    requires Unopposed(s, p, c) && q != p && q in s.held && q in s.procs
    requires q in t.procs && q in t.held && t.procs == s.procs[q := t.procs[q]] && t.held == s.held[q := t.held[q]]
    requires t.held[q].head == Unlocked && t.held[q].tail == Unlocked
    ensures Unopposed(t, p, c) && t.procs[p] == s.procs[p]
  {
  }

  lemma StillUnopposed(s: Sys, t: Sys, p: Pid, c: Cid)
    requires SysInv(s) && Unopposed(s, p, c) && OtherStep(s, t, p)
    ensures SysInv(t) && Unopposed(t, p, c) && t.procs[p] == s.procs[p]
  {
    hide SysInv, StepHeld, StepProc, Issued, Enabled, ProcInv, Granted, Compatible, Guards;
    var q, l :| q != p && CanStep(s, q, l) && t == Next(s, q, l);
    UnopposedGuards(s, p, c);
    At(s, q);
    Pair(s, p, q);
    StepKeepsSysInv(s, q, l);
    GuardedRangeStaysFree(s, p, q, l);
    UnopposedAfter(s, p, c, q, t);
  }

  lemma {:induction false} StaysUnopposed(tr: seq<Sys>, p: Pid, c: Cid)
    requires OthersRun(tr, p) && SysInv(tr[0]) && Unopposed(tr[0], p, c)
    ensures var t := tr[|tr| - 1]; SysInv(t) && Unopposed(t, p, c) && t.procs[p] == tr[0].procs[p]
  {
    hide SysInv, Unopposed, OtherStep;
    if |tr| == 1 {
    } else {
      var front := tr[..|tr| - 1];
      assert OthersRun(front, p) by {
        forall i | 0 <= i < |front| - 1
          ensures OtherStep(front[i], front[i + 1], p)
        {
          assert OtherStep(tr[i], tr[i + 1], p);
        }
      }
      StaysUnopposed(front, p, c);
      assert OtherStep(tr[|tr| - 2], tr[|tr| - 2 + 1], p);
      StillUnopposed(tr[|tr| - 2], tr[|tr| - 1], p, c);
    }
  }

  lemma AskingProc(p: Proc, h: Held, c: Cid)
    requires ProcInv(p, h) && p.pc == Idle && c in p.conns && p.conns[c].phase == Ready
    requires p.conns[c].level == PENDING_LOCK && p.nShared == 1
    ensures var l := Lock(c, EXCLUSIVE_LOCK);
      Enabled(p, l) && StepProc(p, l) == p.(pc := LkExclusive(c)) && StepHeld(p, h, l) == h
  {
  }

  lemma ServedProc(p: Proc, c: Cid)
    requires p.pc == LkExclusive(c) && c in p.conns && p.conns[c].phase == Ready
    ensures Enabled(p, Call(true))
    ensures Issued(p).NoRequest? || Issued(p) == SetLk(SharedRange, WriteLock)
    ensures var t := StepProc(p, Call(true));
      c in t.conns && t.conns[c].phase == Ready && t.conns[c].level == EXCLUSIVE_LOCK
  {
  }

  /** An unopposed writer asks again for EXCLUSIVE: the request goes straight to its one fcntl(). */
  lemma AsksAgain(s: Sys, p: Pid, c: Cid)
    requires SysInv(s) && Unopposed(s, p, c) && s.procs[p].pc == Idle
    ensures var l := Lock(c, EXCLUSIVE_LOCK);
      CanStep(s, p, l) && Next(s, p, l) == s.(procs := s.procs[p := s.procs[p].(pc := LkExclusive(c))])
    ensures Unopposed(s.(procs := s.procs[p := s.procs[p].(pc := LkExclusive(c))]), p, c)
  {
    hide SysInv, ProcInv, StepHeld, StepProc, Enabled;
    At(s, p);
    AskingProc(s.procs[p], s.held[p], c);
    assert s.held[p := s.held[p]] == s.held;
  }

  lemma FreeRangeIsGranted(t: Sys, p: Pid)
    requires forall q :: q in t.held && q != p ==> t.held[q].head == Unlocked && t.held[q].tail == Unlocked
    ensures Granted(t, p, SetLk(SharedRange, WriteLock)) && Granted(t, p, NoRequest)
  {
  }

  lemma ServedAtLast(t: Sys, p: Pid, c: Cid)
    requires SysInv(t) && Unopposed(t, p, c) && t.procs[p].pc == LkExclusive(c)
    ensures CanStep(t, p, Call(true))
    ensures var u := Next(t, p, Call(true)); Settled(u, p, c) && LevelOf(u, p, c) == EXCLUSIVE_LOCK
  {
    hide ProcInv, SysInv, StepHeld, StepProc, Enabled, Issued, Granted;
    At(t, p);
    ServedProc(t.procs[p], c);
    FreeRangeIsGranted(t, p);
    assert CanStep(t, p, Call(true));
  }

  /** Whatever the other processes do before that fcntl() is served, the kernel has no reason to
  refuse it, and the writer then holds EXCLUSIVE. */
  lemma ExclusiveGetsThrough(s: Sys, p: Pid, c: Cid, tr: seq<Sys>)
    requires Reachable(s) && Unopposed(s, p, c) && s.procs[p].pc == Idle
    requires OthersRun(tr, p) && tr[0] == s.(procs := s.procs[p := s.procs[p].(pc := LkExclusive(c))])
    ensures CanStep(s, p, Lock(c, EXCLUSIVE_LOCK)) && tr[0] == Next(s, p, Lock(c, EXCLUSIVE_LOCK))
    ensures CanStep(tr[|tr| - 1], p, Call(true))
    ensures var u := Next(tr[|tr| - 1], p, Call(true)); Settled(u, p, c) && LevelOf(u, p, c) == EXCLUSIVE_LOCK
  {
    ReachableInv(s);
    AsksAgain(s, p, c);
    hide SysInv, Unopposed, CanStep, OthersRun;
    StepKeepsSysInv(s, p, Lock(c, EXCLUSIVE_LOCK));
    StaysUnopposed(tr, p, c);
    ServedAtLast(tr[|tr| - 1], p, c);
  }
}
