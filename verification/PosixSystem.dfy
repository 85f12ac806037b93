/** Any number of processes, each with any number of connections, over one kernel lock table. */
module PosixSystem {
  import opened PosixOs
  import opened LockLevels
  import opened PosixFile
  import opened PosixFileInv
  import opened PosixFileClose

  type Pid = nat

  datatype Sys = Sys(procs: map<Pid, Proc>, held: map<Pid, Held>)

  ghost predicate Init(s: Sys) {
    && s.procs.Keys == s.held.Keys
    && (forall p :: p in s.procs ==> s.procs[p] == FreshProc(s.procs[p].excl) && s.held[p] == NO_LOCKS)
  }

  /** The kernel refuses a lock that clashes with another process; anything else may also fail. */
  ghost predicate Granted(s: Sys, p: Pid, r: Request) {
    r.SetLk? ==> forall q :: q in s.held && q != p ==> !Blocks(s.held[q], r.range, r.mode)
  }

  ghost predicate CanStep(s: Sys, p: Pid, l: Label) {
    && p in s.procs && p in s.held
    && Enabled(s.procs[p], l)
    && (l.Call? && l.ok ==> Granted(s, p, Issued(s.procs[p])))
  }

  ghost function Next(s: Sys, p: Pid, l: Label): Sys
    requires CanStep(s, p, l)
  {
    Sys(s.procs[p := StepProc(s.procs[p], l)], s.held[p := StepHeld(s.procs[p], s.held[p], l)])
  }

  ghost predicate Step(s: Sys, t: Sys) {
    exists p, l :: CanStep(s, p, l) && t == Next(s, p, l)
  }

  ghost predicate Run(tr: seq<Sys>) {
    |tr| > 0 && Init(tr[0]) && forall i :: 0 <= i < |tr| - 1 ==> Step(tr[i], tr[i + 1])
  }

  ghost predicate Reachable(s: Sys) {
    exists tr :: Run(tr) && tr[|tr| - 1] == s
  }

  // ---------------------------------------------------------------- the system invariant

  /** While p's inode is at EXCLUSIVE, process q holds nothing on the shared range.  This also covers
  the states a failed downgrade leaves, where p itself only read-locks the range. */
  ghost predicate ShutOut(s: Sys, p: Pid, q: Pid)
    requires p in s.procs && q in s.held
  {
    s.procs[p].il == EXCLUSIVE_LOCK ==> s.held[q].head == Unlocked && s.held[q].tail == Unlocked
  }

  ghost predicate SysInv(s: Sys) {
    && s.procs.Keys == s.held.Keys
    && (forall p :: p in s.procs ==> ProcInv(s.procs[p], s.held[p]))
    && (forall p, q :: p in s.procs && q in s.procs && p != q ==> Compatible(s.held[p], s.held[q]))
    && (forall p, q :: p in s.procs && q in s.procs && p != q ==> ShutOut(s, p, q))
  }

  lemma At(s: Sys, p: Pid)
    requires SysInv(s) && p in s.procs
    ensures p in s.held && ProcInv(s.procs[p], s.held[p])
  {
  }

  lemma Pair(s: Sys, p: Pid, q: Pid)
    requires SysInv(s) && p in s.procs && q in s.procs && p != q
    ensures p in s.held && q in s.held && Compatible(s.held[p], s.held[q])
  {
  }

  /** The facts about one process that the cross-process argument needs. */
  lemma ProcFacts(p: Proc, h: Held)
    requires ProcInv(p, h)
    ensures p.nShared > 0 ==> h.head != Unlocked && h.tail != Unlocked
    ensures p.il == EXCLUSIVE_LOCK ==> h.pending == WriteLock || (h.head == WriteLock && h.tail == WriteLock)
    ensures p.il > NO_LOCK && !p.pc.UlWholeFile? ==> p.nShared > 0
    ensures p.excl && p.il > NO_LOCK ==> h.head == WriteLock && h.tail == WriteLock
    ensures p.il == EXCLUSIVE_LOCK ==> Guards(h)
  {
  }

  /** A process that acquires a lock on the shared range either already holds one on it, or holds the
  PENDING byte, or asks for the whole range for itself. */
  lemma AcquiringShared(p: Proc, h: Held)
    requires ProcInv(p, h) && !p.pc.Idle? && Issued(p).SetLk? && Issued(p).mode != Unlocked
      && Issued(p).range == SharedRange
    ensures h.head != Unlocked || h.pending != Unlocked || Issued(p).mode == WriteLock
  {
  }

  /** How one step changes what a process holds. */
  lemma HeldCases(p: Proc, h: Held, l: Label)
    requires Enabled(p, l)
    ensures var h' := StepHeld(p, h, l);
      || h' == h
      || h' == NO_LOCKS
      || (l == Call(true) && Issued(p).SetLk? && h' == Apply(h, Issued(p).range, Issued(p).mode))
  {
  }

  /** A step gives a process something new on the shared range only through such an fcntl(). */
  lemma SharedGrows(p: Proc, h: Held, l: Label)
    requires Enabled(p, l) && h.head == h.tail == Unlocked
    requires var h' := StepHeld(p, h, l); h'.head != Unlocked || h'.tail != Unlocked
    ensures l == Call(true) && Issued(p).SetLk? && Issued(p).mode != Unlocked && Issued(p).range == SharedRange
  {
  }

  lemma CompatibleAfter(s: Sys, p: Pid, l: Label, q: Pid)
    requires CanStep(s, p, l) && q in s.held && q != p && Compatible(s.held[p], s.held[q])
    ensures Compatible(StepHeld(s.procs[p], s.held[p], l), s.held[q])
  {
    HeldCases(s.procs[p], s.held[p], l);
    hide StepHeld, StepProc, Issued, Enabled;
    if l == Call(true) && Issued(s.procs[p]).SetLk? {
      ApplyCompatible(s.held[p], s.held[q], Issued(s.procs[p]).range, Issued(s.procs[p]).mode);
    }
  }

  /** p reads, and has the PENDING byte or the whole shared range to itself. */
  predicate Guards(h: Held) {
    h.head != Unlocked && h.tail != Unlocked && (h.pending == WriteLock || (h.head == WriteLock && h.tail == WriteLock))
  }

  /** Another process cannot get onto the shared range while p guards it. */
  lemma GuardedRangeStaysFree(s: Sys, p: Pid, q: Pid, l: Label)
    requires CanStep(s, q, l) && p in s.held && p != q && Guards(s.held[p])
    requires ProcInv(s.procs[q], s.held[q]) && Compatible(s.held[p], s.held[q])
    requires s.held[q].head == Unlocked && s.held[q].tail == Unlocked
    ensures var h := StepHeld(s.procs[q], s.held[q], l); h.head == Unlocked && h.tail == Unlocked
  {
    var h := StepHeld(s.procs[q], s.held[q], l);
    if h.head != Unlocked || h.tail != Unlocked {
      SharedGrows(s.procs[q], s.held[q], l);
      AcquiringShared(s.procs[q], s.held[q]);
      hide StepHeld, StepProc, Issued, Enabled, ProcInv;
      assert false;
    }
  }

  /** A call other than the one at LkExclusive leaves the inode below EXCLUSIVE. */
  lemma OtherCallsStayBelow(p: Proc, ok: bool)
    requires !p.pc.Idle? && PcValid(p) && p.il != EXCLUSIVE_LOCK && !(p.pc.LkExclusive? && ok)
    ensures AfterCall(p, ok).il != EXCLUSIVE_LOCK
  {
    hide AfterCall;
    if UnlockPc(p.pc) {
      UnlockCallsStayBelow(p, ok);
    } else {
      LockCallsStayBelow(p, ok);
    }
  }

  lemma UnlockCallsStayBelow(p: Proc, ok: bool)
    requires UnlockPc(p.pc) && PcValid(p) && p.il != EXCLUSIVE_LOCK
    ensures AfterCall(p, ok).il != EXCLUSIVE_LOCK
  {
  }

  lemma LockCallsStayBelow(p: Proc, ok: bool)
    requires !p.pc.Idle? && !UnlockPc(p.pc) && PcValid(p) && p.il != EXCLUSIVE_LOCK && !(p.pc.LkExclusive? && ok)
    ensures AfterCall(p, ok).il != EXCLUSIVE_LOCK
  {
  }

  lemma OtherStepsStayBelow(p: Proc, l: Label)
    requires Enabled(p, l) && !l.Call? && p.il != EXCLUSIVE_LOCK
    ensures StepProc(p, l).il != EXCLUSIVE_LOCK
  {
    hide AfterCall;
  }

  lemma OnlyLkExclusive(p: Proc, l: Label)
    requires Enabled(p, l) && p.il != EXCLUSIVE_LOCK && StepProc(p, l).il == EXCLUSIVE_LOCK
    ensures l == Call(true) && p.pc.LkExclusive?
  {
    hide AfterCall;
    if !l.Call? {
      OtherStepsStayBelow(p, l);
    } else if !(p.pc.LkExclusive? && l.ok) {
      OtherCallsStayBelow(p, l.ok);
    }
    hide LockEnter, UnlockEnter, CloseStep, TakeStep, AttachStep;
  }

  /** What a process that just came to EXCLUSIVE asked for, or already had. */
  lemma BecomesExclusive(p: Proc, h: Held, l: Label)
    requires ProcInv(p, h) && Enabled(p, l) && p.il != EXCLUSIVE_LOCK && StepProc(p, l).il == EXCLUSIVE_LOCK
    ensures l == Call(true)
    ensures Issued(p) == SetLk(SharedRange, WriteLock) || (h.head == WriteLock && h.tail == WriteLock)
  {
    OnlyLkExclusive(p, l);
    hide StepProc;
    ProcFacts(p, h);
  }

  /** The step that brings p to EXCLUSIVE finds nobody else on the shared range. */
  lemma ShutOutNew(s: Sys, p: Pid, l: Label, q: Pid)
    requires CanStep(s, p, l) && q in s.procs && q in s.held && q != p
    requires ProcInv(s.procs[p], s.held[p]) && Compatible(s.held[p], s.held[q])
    requires s.procs[p].il != EXCLUSIVE_LOCK && StepProc(s.procs[p], l).il == EXCLUSIVE_LOCK
    ensures s.held[q].head == Unlocked && s.held[q].tail == Unlocked
  {
    BecomesExclusive(s.procs[p], s.held[p], l);
    hide StepHeld, StepProc, Issued, Enabled, ProcInv;
  }

  lemma PairKeeps(s: Sys, p: Pid, l: Label, q: Pid)
    requires SysInv(s) && CanStep(s, p, l) && q in s.procs && q != p
    ensures var t := Next(s, p, l); Compatible(t.held[p], t.held[q]) && ShutOut(t, p, q) && ShutOut(t, q, p)
  {
    hide StepHeld, StepProc, Issued, Enabled, ProcInv, Compatible;
    var t := Next(s, p, l);
    CompatibleAfter(s, p, l, q);
    assert ShutOut(s, p, q) && ShutOut(s, q, p);
    if s.procs[q].il == EXCLUSIVE_LOCK {
      ProcFacts(s.procs[q], s.held[q]);
      GuardedRangeStaysFree(s, q, p, l);
    }
    if t.procs[p].il == EXCLUSIVE_LOCK && s.procs[p].il != EXCLUSIVE_LOCK {
      ShutOutNew(s, p, l, q);
    }
  }

  lemma CompatibleSymmetric(a: Held, b: Held)
    ensures Compatible(a, b) <==> Compatible(b, a)
  {
  }

  lemma StepKeepsSysInv(s: Sys, p: Pid, l: Label)
    requires SysInv(s) && CanStep(s, p, l)
    ensures SysInv(Next(s, p, l))
  {
    hide StepHeld, StepProc, Issued, Enabled, ProcInv, Compatible, Granted;
    var t := Next(s, p, l);
    StepKeeps(s.procs[p], s.held[p], l);
    forall q | q in s.procs && q != p
      ensures Compatible(t.held[p], t.held[q]) && Compatible(t.held[q], t.held[p]) && ShutOut(t, p, q)
        && ShutOut(t, q, p)
    {
      PairKeeps(s, p, l, q);
      CompatibleSymmetric(t.held[p], t.held[q]);
    }
    forall q, r | q in s.procs && r in s.procs && q != r && q != p && r != p
      ensures ShutOut(t, q, r)
    {
      assert ShutOut(s, q, r);
    }
  }

  /** Every reachable state satisfies the invariant. */
  lemma ReachableInv(s: Sys)
    requires Reachable(s)
    ensures SysInv(s)
  {
    var tr :| Run(tr) && tr[|tr| - 1] == s;
    RunInv(tr);
  }

  lemma {:induction false} RunInv(tr: seq<Sys>)
    requires Run(tr)
    ensures SysInv(tr[|tr| - 1])
  {
    if |tr| == 1 {
      forall p | p in tr[0].procs
        ensures ProcInv(tr[0].procs[p], tr[0].held[p])
      {
        FreshProcInv(tr[0].procs[p].excl);
      }
      hide ProcInv;
      assert SysInv(tr[0]);
    } else {
      var front := tr[..|tr| - 1];
      assert Run(front) by {
        forall i | 0 <= i < |front| - 1
          ensures Step(front[i], front[i + 1])
        {
          assert Step(tr[i], tr[i + 1]);
        }
      }
      RunInv(front);
      assert Step(tr[|tr| - 2], tr[|tr| - 2 + 1]);
      var p, l :| CanStep(tr[|tr| - 2], p, l) && tr[|tr| - 1] == Next(tr[|tr| - 2], p, l);
      StepKeepsSysInv(tr[|tr| - 2], p, l);
    }
  }
}
