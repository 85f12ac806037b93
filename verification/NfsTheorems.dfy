/** What staged downgrades leave of the lock protocol: without condition, at most one connection is at
RESERVED and at most one at PENDING or above; and EXCLUSIVE excludes every other connection as long as
no downgrade starts without the last byte of the shared range. */
module NfsTheorems {
  import opened PosixOs
  import opened LockLevels
  import opened PosixFile
  import opened PosixFileInv
  import opened NfsDowngrade
  import opened NfsProcess
  import opened NfsSystem
  import PosixSystem
  import PosixTheorems

  /** An open connection that is not inside, or still finishing, an unlock. */
  predicate Settled(s: Sys, p: Pid, c: Cid) {
    && p in s.procs && c in s.procs[p].p.conns
    && (s.procs[p].p.conns[c].phase == Ready || s.procs[p].p.conns[c].phase == Closing)
  }

  function LevelOf(s: Sys, p: Pid, c: Cid): nat
    requires Settled(s, p, c)
  {
    s.procs[p].p.conns[c].level
  }

  lemma Two(s: Sys, p: Pid, q: Pid)
    requires SysInv(s) && p in s.procs && q in s.procs
    ensures NfsInv(s.procs[p]) && NfsInv(s.procs[q])
    ensures p != q ==> Compatible(s.procs[p].held, s.procs[q].held)
  {
  }

  /** Two settled connections at the given levels would both own a byte that only one process can own. */
  lemma WriterBytes(m: NfsProc, n: NfsProc, c: Cid, d: Cid)
    requires NfsInv(m) && NfsInv(n) && Compatible(m.held, n.held)
    requires c in m.p.conns && (m.p.conns[c].phase == Ready || m.p.conns[c].phase == Closing)
    requires d in n.p.conns && (n.p.conns[d].phase == Ready || n.p.conns[d].phase == Closing)
    requires !m.p.excl && !n.p.excl
    ensures m.p.conns[c].level == RESERVED_LOCK ==> n.p.conns[d].level != RESERVED_LOCK
    ensures m.p.conns[c].level >= PENDING_LOCK ==> n.p.conns[d].level < PENDING_LOCK
  {
    PosixTheorems.ConnFacts(m.p, m.asif, c);
    PosixTheorems.ConnFacts(n.p, n.asif, d);
    hide ProcInv;
  }

  /** At most one connection anywhere is at RESERVED, and at most one at PENDING or EXCLUSIVE, however the
  downgrades went. */
  lemma OneWriter(s: Sys, p: Pid, c: Cid, q: Pid, d: Cid)
    requires Reachable(s) && Settled(s, p, c) && Settled(s, q, d) && (p != q || c != d)
    requires !s.procs[p].p.excl && !s.procs[q].p.excl
    ensures LevelOf(s, p, c) == RESERVED_LOCK ==> LevelOf(s, q, d) != RESERVED_LOCK
    ensures LevelOf(s, p, c) >= PENDING_LOCK ==> LevelOf(s, q, d) < PENDING_LOCK
  {
    ReachableInv(s);
    Two(s, p, q);
    hide SysInv, Reachable, Compatible;
    if p == q {
      var i := s.procs[p];
      PosixTheorems.ConnFacts(i.p, i.asif, c);
      PosixTheorems.ConnFacts(i.p, i.asif, d);
      if i.p.conns[c].eff > SHARED_LOCK {
        PosixTheorems.SiblingFacts(i.p, i.asif, c, d);
      }
      hide ProcInv;
    } else {
      hide NfsInv;
      WriterBytes(s.procs[p], s.procs[q], c, d);
    }
  }

  // ---------------------------------------------------------------- readers during a downgrade

  /** A process gets its first reader while another holds the PENDING byte only in exclusive mode. */
  lemma FirstReaderNeedsPending(n: NfsProc, l: Label)
    requires NfsInv(n) && NfsEnabled(n, l) && n.p.nShared == 0 && NfsStep(n, l).p.nShared != 0
    ensures if n.p.excl then n.held.head == n.held.tail == WriteLock else n.held.pending != Unlocked
  {
    NfsStepKeeps(n, l);
    if l.Call? && Staging(n) {
      DowngradeFacts(n.p, n.asif);
    } else {
      SharedNeverNegative(NfsStep(n, l));
      PosixTheorems.HowReadingStarts(n.p, n.asif, l);
    }
    hide Counters, Levels, Phases, PcOk, Descriptors, StepProc, StepHeld, AfterCall;
  }

  lemma SharedNeverNegative(n: NfsProc)
    requires NfsInv(n)
    ensures n.p.nShared >= 0
  {
  }

  /** While a process holds the PENDING byte, in the middle of a downgrade or not, no step of another
  process gives a process without readers its first one, outside exclusive mode. */
  lemma NoNewReadingProcess(s: Sys, p: Pid, e: Event)
    requires Reachable(s) && p in s.procs && s.procs[p].held.pending == WriteLock
    requires CanStep(s, e) && e.pid != p && s.procs[e.pid].p.nShared == 0 && !s.procs[e.pid].p.excl
    ensures Next(s, e).procs[e.pid].p.nShared == 0
  {
    ReachableInv(s);
    Two(s, p, e.pid);
    hide NfsInv, NfsStep, NfsEnabled, SysInv, Reachable;
    if NfsStep(s.procs[e.pid], e.act).p.nShared != 0 {
      FirstReaderNeedsPending(s.procs[e.pid], e.act);
    }
  }

  /** In the middle of a downgrade to SHARED. */
  predicate InDowngrade(n: NfsProc) {
    Staging(n) || Dropping(n)
  }

  /** A process that downgrades from PENDING or above keeps new readers of other processes out with each
  of its calls, until the fourth succeeds. */
  lemma OwnCallsKeepReadersOut(n: NfsProc, ok: bool)
    requires NfsInv(n) && InDowngrade(n) && !n.p.excl && n.held.pending == WriteLock && NfsEnabled(n, Call(ok))
    ensures AdmitsReader(NfsStep(n, Call(ok)).held) <==> Dropping(n) && ok
  {
    hide NfsInv, NfsStep, NfsEnabled;
    if Staging(n) {
      StagedCallHeld(n, ok);
    } else {
      FourthCallHeld(n, ok);
    }
  }

  lemma StagedCallHeld(n: NfsProc, ok: bool)
    requires NfsInv(n) && Staging(n) && !n.p.excl && NfsEnabled(n, Call(ok))
    ensures NfsStep(n, Call(ok)).held.pending == n.held.pending
  {
    hide ProcInv, AfterCall, StepHeld;
  }

  lemma FourthCallHeld(n: NfsProc, ok: bool)
    requires NfsInv(n) && Dropping(n) && !n.p.excl && NfsEnabled(n, Call(ok))
    ensures NfsStep(n, Call(ok)).held == if ok then Held(Unlocked, Unlocked, ReadLock, Unlocked) else n.held
  {
    assert AfterCall(n.p, ok).closed == n.p.closed by {
      DroppingClosesNothing(n.p, ok);
    }
    hide ProcInv, AfterCall;
  }

  // ---------------------------------------------------------------- exclusion

  /** The step does not start a downgrade that opens a window. */
  ghost predicate Careful(s: Sys, e: Event)
    requires CanStep(s, e)
  {
    !(e.act == Call(true) && Staging(s.procs[e.pid]) && s.procs[e.pid].stage == 0 && s.procs[e.pid].cut)
  }

  ghost predicate CarefulRun(tr: seq<Sys>, es: seq<Event>) {
    Run(tr, es) && forall i :: 0 <= i < |es| ==> CanStep(tr[i], es[i]) && Careful(tr[i], es[i])
  }

  ghost predicate CarefullyReachable(s: Sys) {
    exists tr, es :: CarefulRun(tr, es) && tr[|es|] == s
  }

  /** While the last byte is given up, the rest of the range is locked. */
  predicate Covered(n: NfsProc) {
    n.cut ==> n.held.head != Unlocked && n.stage == 0
  }

  lemma StagedKeepsCovered(n: NfsProc, ok: bool)
    requires NfsInv(n) && Covered(n) && Staging(n) && NfsEnabled(n, Call(ok)) && !(ok && n.stage == 0 && n.cut)
    ensures Covered(StagedCall(n, ok))
  {
    DowngradeFacts(n.p, n.asif);
    ReadAllFrame(n.p);
    hide ProcInv, AfterCall, StepHeld;
  }

  /** Only a step that deals with the whole range changes the lock on its first part. */
  lemma HeadStays(p: Proc, h: Held, l: Label)
    requires Enabled(p, l) && !ResetsRange(p, l)
    ensures StepHeld(p, h, l).head == h.head
  {
    hide StepProc, Enabled;
  }

  lemma KeepsCovered(n: NfsProc, l: Label)
    requires NfsInv(n) && Covered(n) && NfsEnabled(n, l) && !(l == Call(true) && Staging(n) && n.stage == 0 && n.cut)
    ensures Covered(NfsStep(n, l))
  {
    if l.Call? && Staging(n) {
      StagedKeepsCovered(n, l.ok);
    } else if !ResetsRange(n.p, l) {
      HeadStays(n.p, n.held, l);
      hide StepHeld, StepProc, ResetsRange, Enabled;
    }
  }

  /** A process with a reader has a lock on some part of the shared range. */
  lemma ReaderHolds(n: NfsProc)
    requires NfsInv(n) && Covered(n) && n.p.nShared > 0
    ensures n.held.head != Unlocked || n.held.tail != Unlocked
  {
    PosixSystem.ProcFacts(n.p, n.asif);
    hide ProcInv;
  }

  /** p reads, and has the PENDING byte or the whole shared range to itself. */
  predicate Guards(h: Held) {
    && (h.head != Unlocked || h.tail != Unlocked)
    && (h.pending == WriteLock || (h.head == WriteLock && h.tail == WriteLock))
  }

  lemma ExclusiveGuards(n: NfsProc)
    requires NfsInv(n) && Covered(n) && n.p.il == EXCLUSIVE_LOCK
    ensures Guards(n.held)
  {
    PosixSystem.ProcFacts(n.p, n.asif);
    ReaderHolds(n);
  }

  /** What a process without a lock on the shared range may ask for on it. */
  lemma AskingForRange(n: NfsProc)
    requires NfsInv(n) && Covered(n) && NfsEnabled(n, Call(true)) && n.held.head == n.held.tail == Unlocked
    ensures !Staging(n)
    ensures var r := NfsIssued(n);
      r.SetLk? && r.mode != Unlocked && Obeyed(n.held, r) != n.held ==>
        || r.range == PendingByte || r.range == ReservedByte
        || (r.range == SharedRange && (r.mode == WriteLock || n.held.pending != Unlocked))
  {
    if Staging(n) {
      DowngradeFacts(n.p, n.asif);
      ReaderHolds(n);
    }
    assert Backed(n.p, n.asif);
    hide Counters, Levels, Phases, PcOk, Descriptors;
  }

  /** Another process cannot get onto the shared range while p guards it. */
  lemma GuardedRangeStaysFree(s: Sys, p: Pid, e: Event)
    requires CanStep(s, e) && p in s.procs && p != e.pid && Guards(s.procs[p].held)
    requires NfsInv(s.procs[e.pid]) && Covered(s.procs[e.pid]) && Compatible(s.procs[p].held, s.procs[e.pid].held)
    requires s.procs[e.pid].held.head == s.procs[e.pid].held.tail == Unlocked
    ensures var h := NfsStep(s.procs[e.pid], e.act).held; h.head == h.tail == Unlocked
  {
    var n := s.procs[e.pid];
    HeldCases(n, e.act);
    if e.act == Call(true) {
      AskingForRange(n);
    }
    hide NfsStep, NfsIssued, NfsEnabled, NfsInv, Covered;
  }

  /** While p's inode is at EXCLUSIVE, q holds nothing on the shared range. */
  ghost predicate ShutOut(m: NfsProc, n: NfsProc) {
    m.p.il == EXCLUSIVE_LOCK ==> n.held.head == n.held.tail == Unlocked
  }

  lemma BecomesExclusive(n: NfsProc, l: Label)
    requires NfsInv(n) && NfsEnabled(n, l) && n.p.il != EXCLUSIVE_LOCK && NfsStep(n, l).p.il == EXCLUSIVE_LOCK
    ensures l == Call(true)
    ensures NfsIssued(n) == SetLk(SharedRange, WriteLock) || (n.held.head == WriteLock && n.held.tail == WriteLock)
  {
    if l.Call? && Staging(n) {
      DowngradeFacts(n.p, n.asif);
      PosixSystem.OtherCallsStayBelow(n.p, l.ok);
    } else {
      PosixSystem.BecomesExclusive(n.p, n.asif, l);
      PosixSystem.OnlyLkExclusive(n.p, l);
      PosixSystem.ProcFacts(n.p, n.asif);
    }
    assert Backed(n.p, n.asif);
    hide Counters, Levels, Phases, PcOk, Descriptors, StepProc, AfterCall;
  }

  lemma ShutOutNew(s: Sys, e: Event, q: Pid)
    requires CanStep(s, e) && q in s.procs && q != e.pid && NfsInv(s.procs[e.pid])
    requires Compatible(s.procs[e.pid].held, s.procs[q].held)
    requires s.procs[e.pid].p.il != EXCLUSIVE_LOCK
    ensures ShutOut(NfsStep(s.procs[e.pid], e.act), s.procs[q])
  {
    if NfsStep(s.procs[e.pid], e.act).p.il == EXCLUSIVE_LOCK {
      BecomesExclusive(s.procs[e.pid], e.act);
    }
    hide NfsStep, NfsEnabled, NfsIssued, NfsInv;
  }

  ghost predicate CarefulInv(s: Sys) {
    && SysInv(s)
    && (forall p :: p in s.procs ==> Covered(s.procs[p]))
    && (forall p, q :: p in s.procs && q in s.procs && p != q ==> ShutOut(s.procs[p], s.procs[q]))
  }

  lemma PairKeeps(s: Sys, e: Event, q: Pid)
    requires CarefulInv(s) && CanStep(s, e) && q in s.procs && q != e.pid
    ensures var n := NfsStep(s.procs[e.pid], e.act); ShutOut(n, s.procs[q]) && ShutOut(s.procs[q], n)
  {
    hide NfsStep, NfsEnabled, NfsIssued, NfsInv, Covered, Compatible, Guards, Granted;
    Two(s, q, e.pid);
    CompatibleSymmetric(s.procs[e.pid].held, s.procs[q].held);
    assert Covered(s.procs[e.pid]) && Covered(s.procs[q]);
    if s.procs[q].p.il == EXCLUSIVE_LOCK {
      assert ShutOut(s.procs[q], s.procs[e.pid]);
      ExclusiveGuards(s.procs[q]);
      GuardedRangeStaysFree(s, q, e);
    }
    if s.procs[e.pid].p.il == EXCLUSIVE_LOCK {
      assert ShutOut(s.procs[e.pid], s.procs[q]);
    } else {
      ShutOutNew(s, e, q);
    }
  }

  lemma StepKeepsCarefulInv(s: Sys, e: Event)
    requires CarefulInv(s) && CanStep(s, e) && Careful(s, e)
    ensures CarefulInv(Next(s, e))
  {
    hide NfsStep, NfsEnabled, NfsIssued, NfsInv, Covered, Compatible, Granted;
    StepKeepsSysInv(s, e);
    Two(s, e.pid, e.pid);
    KeepsCovered(s.procs[e.pid], e.act);
    forall q | q in s.procs && q != e.pid
      ensures var n := NfsStep(s.procs[e.pid], e.act); ShutOut(n, s.procs[q]) && ShutOut(s.procs[q], n)
    {
      PairKeeps(s, e, q);
    }
    hide SysInv, ShutOut;
  }

  lemma {:induction false} CarefulRunInv(tr: seq<Sys>, es: seq<Event>)
    requires CarefulRun(tr, es)
    ensures CarefulInv(tr[|es|])
  {
    if es == [] {
      InitInv(tr[0]);
      hide SysInv;
    } else {
      var n := |es| - 1;
      Front(tr, es);
      assert CarefulRun(tr[..|es|], es[..n]) by {
        hide Run;
        forall i | 0 <= i < n
          ensures CanStep(tr[..|es|][i], es[..n][i]) && Careful(tr[..|es|][i], es[..n][i])
        {
          assert CanStep(tr[i], es[i]) && Careful(tr[i], es[i]);
        }
      }
      hide CarefulInv, Run;
      CarefulRunInv(tr[..|es|], es[..n]);
      assert CanStep(tr[n], es[n]) && Careful(tr[n], es[n]);
      StepKeepsCarefulInv(tr[n], es[n]);
    }
  }

  /** As long as no downgrade starts without the last byte, a connection at EXCLUSIVE excludes every other
  connection of every process. */
  lemma ExclusiveExcludes(s: Sys, p: Pid, c: Cid, q: Pid, d: Cid)
    requires CarefullyReachable(s) && Settled(s, p, c) && Settled(s, q, d) && (p != q || c != d)
    requires LevelOf(s, p, c) == EXCLUSIVE_LOCK
    ensures LevelOf(s, q, d) == NO_LOCK
  {
    var tr, es :| CarefulRun(tr, es) && tr[|es|] == s;
    CarefulRunInv(tr, es);
    hide CarefulRun, Compatible;
    Two(s, p, q);
    var m, n := s.procs[p], s.procs[q];
    PosixTheorems.ConnFacts(m.p, m.asif, c);
    if p == q {
      PosixTheorems.ConnFacts(n.p, n.asif, d);
      PosixTheorems.SiblingFacts(m.p, m.asif, c, d);
    } else {
      assert ShutOut(m, n) && Covered(n);
      ReadingConnection(n, d);
    }
  }

  lemma ReadingConnection(n: NfsProc, d: Cid)
    requires NfsInv(n) && Covered(n) && d in n.p.conns
    requires n.p.conns[d].phase == Ready || n.p.conns[d].phase == Closing
    ensures n.p.conns[d].level >= SHARED_LOCK ==> n.held.head != Unlocked || n.held.tail != Unlocked
  {
    PosixTheorems.ConnFacts(n.p, n.asif, d);
    if n.p.conns[d].level >= SHARED_LOCK {
      assert d in Members(n.p);
      ReaderHolds(n);
    }
  }

  lemma CarefulStates(s: Sys)
    requires CarefullyReachable(s)
    ensures CarefulInv(s) && Reachable(s)
  {
    var tr, es :| CarefulRun(tr, es) && tr[|es|] == s;
    CarefulRunInv(tr, es);
  }

  /** In such runs at most one connection anywhere is at RESERVED, and at most one at PENDING or EXCLUSIVE,
  in exclusive mode or not. */
  lemma OneWriterCarefully(s: Sys, p: Pid, c: Cid, q: Pid, d: Cid)
    requires CarefullyReachable(s) && Settled(s, p, c) && Settled(s, q, d) && (p != q || c != d)
    ensures LevelOf(s, p, c) == RESERVED_LOCK ==> LevelOf(s, q, d) != RESERVED_LOCK
    ensures LevelOf(s, p, c) >= PENDING_LOCK ==> LevelOf(s, q, d) < PENDING_LOCK
  {
    CarefulStates(s);
    Two(s, p, q);
    var m, n := s.procs[p], s.procs[q];
    assert Covered(m) && Covered(n);
    hide CarefulInv, CarefullyReachable, SysInv, Reachable;
    if p == q {
      OneOfSiblings(m, c, d);
    } else {
      hide NfsInv;
      WritersApart(m, n, c, d);
    }
  }

  lemma OneOfSiblings(n: NfsProc, c: Cid, d: Cid)
    requires NfsInv(n) && c in n.p.conns && d in n.p.conns && c != d
    requires n.p.conns[c].phase == Ready || n.p.conns[c].phase == Closing
    requires n.p.conns[d].phase == Ready || n.p.conns[d].phase == Closing
    ensures n.p.conns[c].level > SHARED_LOCK ==> n.p.conns[d].level <= SHARED_LOCK
  {
    PosixTheorems.ConnFacts(n.p, n.asif, c);
    PosixTheorems.ConnFacts(n.p, n.asif, d);
    if n.p.conns[c].eff > SHARED_LOCK {
      PosixTheorems.SiblingFacts(n.p, n.asif, c, d);
    }
    hide ProcInv;
  }

  /** A reader in exclusive mode has the whole range to itself. */
  lemma ExclusiveModeHolds(n: NfsProc, c: Cid)
    requires NfsInv(n) && n.p.excl && c in n.p.conns
    requires n.p.conns[c].phase == Ready || n.p.conns[c].phase == Closing
    ensures n.p.conns[c].level >= SHARED_LOCK ==> n.held.head == n.held.tail == WriteLock
  {
    PosixTheorems.ConnFacts(n.p, n.asif, c);
    hide ProcInv;
  }

  lemma WritersApart(m: NfsProc, n: NfsProc, c: Cid, d: Cid)
    requires NfsInv(m) && NfsInv(n) && Covered(m) && Covered(n) && Compatible(m.held, n.held)
    requires c in m.p.conns && (m.p.conns[c].phase == Ready || m.p.conns[c].phase == Closing)
    requires d in n.p.conns && (n.p.conns[d].phase == Ready || n.p.conns[d].phase == Closing)
    ensures m.p.conns[c].level == RESERVED_LOCK ==> n.p.conns[d].level != RESERVED_LOCK
    ensures m.p.conns[c].level >= PENDING_LOCK ==> n.p.conns[d].level < PENDING_LOCK
  {
    hide NfsInv;
    if !m.p.excl && !n.p.excl {
      WriterBytes(m, n, c, d);
    } else {
      ReadingConnection(m, c);
      ReadingConnection(n, d);
      if m.p.excl {
        ExclusiveModeHolds(m, c);
      } else {
        ExclusiveModeHolds(n, d);
      }
    }
  }

  /** In such runs a downgrade from PENDING or above keeps out every process without readers. */
  lemma NoNewReadingProcessCarefully(s: Sys, p: Pid, e: Event)
    requires CarefullyReachable(s) && p in s.procs && InDowngrade(s.procs[p]) && s.procs[p].held.pending == WriteLock
    requires CanStep(s, e) && e.pid != p && s.procs[e.pid].p.nShared == 0
    ensures Next(s, e).procs[e.pid].p.nShared == 0
  {
    CarefulStates(s);
    Two(s, p, e.pid);
    var m, n := s.procs[p], s.procs[e.pid];
    assert Covered(m);
    hide CarefulInv, CarefullyReachable, SysInv, Reachable, NfsStep, NfsEnabled;
    DowngradingReads(m);
    hide NfsInv;
    ReaderHolds(m);
    if NfsStep(n, e.act).p.nShared != 0 {
      FirstReaderNeedsPending(n, e.act);
    }
  }

  lemma DowngradingReads(n: NfsProc)
    requires NfsInv(n) && InDowngrade(n)
    ensures n.p.nShared > 0
  {
    PosixSystem.ProcFacts(n.p, n.asif);
    assert PcOk(n.p);
  }
}
