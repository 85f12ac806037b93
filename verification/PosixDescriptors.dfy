/** Closing any descriptor of a file drops every lock the process holds on it.  So the VFS must not
close one while a connection of the process holds a lock, and must not lose or close one twice. */
module PosixDescriptors {
  import opened PosixOs
  import opened LockLevels
  import opened PosixFile
  import opened PosixFileInv
  import opened PosixFileClose
  import opened PosixSystem
  import opened PosixTheorems

  /** The connection that the step closes, if any. */
  predicate Closes(l: Label, c: Cid) {
    l.CloseFile? && l.c == c
  }

  /** The descriptors a step closes. */
  function ClosedBy(p: Proc, l: Label): set<Fd>
    requires Enabled(p, l)
  {
    StepProc(p, l).closed - p.closed
  }

  /** A call closes descriptors only as the last reader leaves, and then the whole unused list. */
  lemma CallCloses(p: Proc, ok: bool)
    requires !p.pc.Idle? && PcValid(p)
    ensures AfterCall(p, ok).closed == p.closed
      || (p.pc.UlWholeFile? && AfterCall(p, ok).closed == p.closed + FdSet(p.unused))
  {
    hide AfterCall;
    if UnlockPc(p.pc) {
      UnlockCallCloses(p, ok);
    } else {
      LockCallCloses(p, ok);
    }
  }

  lemma UnlockCallCloses(p: Proc, ok: bool)
    requires UnlockPc(p.pc) && PcValid(p)
    ensures AfterCall(p, ok).closed == p.closed
      || (p.pc.UlWholeFile? && AfterCall(p, ok).closed == p.closed + FdSet(p.unused))
  {
    hide FdSet;
  }

  lemma LockCallCloses(p: Proc, ok: bool)
    requires !p.pc.Idle? && !UnlockPc(p.pc) && PcValid(p)
    ensures AfterCall(p, ok).closed == p.closed
  {
  }

  /** Only three kinds of step close descriptors. */
  lemma WhoCloses(p: Proc, l: Label)
    requires Enabled(p, l) && ClosedBy(p, l) != {}
    ensures || (l.Call? && p.pc.UlWholeFile?)
            || (l.CloseFile? && (p.nLock == 0 || p.nRef == 1))
            || (l.Attach? && p.nRef == 0)
  {
    if l.Call? {
      CallCloses(p, l.ok);
    }
    hide AfterCall;
  }

  lemma OneLive(p: Proc, c: Cid)
    requires p.nRef == |Live(p)| && c in Live(p)
    ensures p.nRef == 1 ==> Live(p) == {c}
  {
    if p.nRef == 1 {
      assert |Live(p) - {c}| == 0;
    }
  }

  lemma AllUnlocked(p: Proc, h: Held, l: Label, d: Cid)
    requires ProcInv(p, h) && Enabled(p, l) && ClosedBy(p, l) != {}
    requires d in p.conns && p.conns[d].phase != Gone && !Closes(l, d)
    ensures p.conns[d].eff == NO_LOCK
    ensures p.conns[d].phase == Ready || p.conns[d].phase == Closing ==> p.conns[d].level == NO_LOCK
  {
    WhoCloses(p, l);
    hide StepProc;
    assert PhaseOk(p.pc, d, p.conns[d]);
    if l.CloseFile? {
      OneLive(p, l.c);
    }
    assert d in Live(p);
    assert d in Members(p) <==> p.conns[d].eff >= SHARED_LOCK;
  }

  /** A step closes a descriptor only when no other connection of that process that is still open, at
  any point of any call, has a lock behind it; a connection between calls is then at NO_LOCK. */
  lemma ClosedOnlyWhenUnlocked(s: Sys, p: Pid, l: Label, d: Cid)
    requires Reachable(s) && CanStep(s, p, l) && ClosedBy(s.procs[p], l) != {}
    requires d in s.procs[p].conns && s.procs[p].conns[d].phase != Gone && !Closes(l, d)
    ensures s.procs[p].conns[d].eff == NO_LOCK
    ensures Settled(s, p, d) ==> LevelOf(s, p, d) == NO_LOCK
  {
    ReachableInv(s);
    At(s, p);
    AllUnlocked(s.procs[p], s.held[p], l, d);
  }

  /** Who has descriptor f. */
  ghost predicate Has(p: Proc, o: Owner, f: Fd) {
    match o
    case ByConn(c) => c in p.conns && p.conns[c].phase != Gone && p.conns[c].node.fd == f
    case ByOpening(c) => c in p.opening && p.opening[c].fd == f
    case ByUnused => f in FdSet(p.unused)
  }

  /** Every descriptor that was ever opened is either closed or with exactly one owner. */
  lemma OneOwnerOrClosed(s: Sys, p: Pid, f: Fd)
    requires Reachable(s) && p in s.procs
    ensures f in s.procs[p].fds ==>
      && f !in s.procs[p].closed && Has(s.procs[p], s.procs[p].fds[f], f)
      && forall o :: Has(s.procs[p], o, f) ==> o == s.procs[p].fds[f]
    ensures f !in s.procs[p].fds ==> forall o :: !Has(s.procs[p], o, f)
  {
    ReachableInv(s);
    At(s, p);
    OneOwner(s.procs[p], s.held[p], f);
  }

  lemma OneOwner(p: Proc, h: Held, f: Fd)
    requires Descriptors(p, h)
    ensures f in p.fds ==> f !in p.closed && Has(p, p.fds[f], f) && forall o :: Has(p, o, f) ==> o == p.fds[f]
    ensures f !in p.fds ==> forall o :: !Has(p, o, f)
  {
  }

  /** A closed descriptor stays closed, is never opened again, and is not closed again: whatever a
  step closes was open before it. */
  lemma ClosedOnce(s: Sys, p: Pid, l: Label)
    requires Reachable(s) && CanStep(s, p, l)
    ensures ClosedBy(s.procs[p], l) <= s.procs[p].fds.Keys
    ensures s.procs[p].closed <= StepProc(s.procs[p], l).closed
    ensures StepProc(s.procs[p], l).closed !! StepProc(s.procs[p], l).fds.Keys
  {
    ReachableInv(s);
    At(s, p);
    StepKeeps(s.procs[p], s.held[p], l);
    hide SysInv, Counters, Levels, Phases, PcOk, Backed;
    ClosesOpenOnes(s.procs[p], s.held[p], l);
  }

  lemma ClosesOpenOnes(p: Proc, h: Held, l: Label)
    requires Descriptors(p, h) && Enabled(p, l)
    ensures ClosedBy(p, l) <= p.fds.Keys && p.closed <= StepProc(p, l).closed
  {
    hide AfterCall, CloseStep;
    match l
    case Call(ok) => CallCloses(p, ok);
    case CloseFile(c) => ReleaseClosesOpenOnes(p, h, c);
    case _ =>
  }

  lemma ReleaseClosesOpenOnes(p: Proc, h: Held, c: Cid)
    requires Descriptors(p, h) && c in p.conns && p.conns[c].phase == Closing
    ensures CloseStep(p, c).closed - p.closed <= p.fds.Keys && p.closed <= CloseStep(p, c).closed
  {
    ConsFdSet(p.conns[c].node, p.unused);
  }
}
