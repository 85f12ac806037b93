/** Any number of processes with staged downgrades over one kernel lock table. */
module NfsSystem {
  import opened PosixOs
  import opened PosixFile
  import opened PosixFileInv
  import opened NfsDowngrade
  import opened NfsProcess
  import PosixSystem

  type Pid = nat

  datatype Sys = Sys(procs: map<Pid, NfsProc>)

  datatype Event = Event(pid: Pid, act: Label)

  ghost predicate Init(s: Sys) {
    forall p :: p in s.procs ==> s.procs[p] == FreshNfs(s.procs[p].p.excl)
  }

  /** The kernel refuses a lock that clashes with another process; anything else may also fail. */
  ghost predicate Granted(s: Sys, p: Pid, r: Request) {
    r.SetLk? ==> forall q :: q in s.procs && q != p ==> !Blocks(s.procs[q].held, r.range, r.mode)
  }

  ghost predicate CanStep(s: Sys, e: Event) {
    && e.pid in s.procs
    && NfsEnabled(s.procs[e.pid], e.act)
    && (e.act == Call(true) ==> Granted(s, e.pid, NfsIssued(s.procs[e.pid])))
  }

  ghost function Next(s: Sys, e: Event): Sys
    requires CanStep(s, e)
  {
    Sys(s.procs[e.pid := NfsStep(s.procs[e.pid], e.act)])
  }

  /** The states of a run, and the steps between them. */
  ghost predicate Run(tr: seq<Sys>, es: seq<Event>) {
    && |tr| == |es| + 1 && Init(tr[0])
    && forall i :: 0 <= i < |es| ==> CanStep(tr[i], es[i]) && tr[i + 1] == Next(tr[i], es[i])
  }

  ghost predicate Reachable(s: Sys) {
    exists tr, es :: Run(tr, es) && tr[|es|] == s
  }

  // ---------------------------------------------------------------- every run

  ghost predicate SysInv(s: Sys) {
    && (forall p :: p in s.procs ==> NfsInv(s.procs[p]))
    && (forall p, q :: p in s.procs && q in s.procs && p != q ==> Compatible(s.procs[p].held, s.procs[q].held))
  }

  /** A step changes what a process holds by obeying one request that was granted, or by dropping all. */
  lemma HeldCases(n: NfsProc, l: Label)
    requires NfsEnabled(n, l)
    ensures var h := NfsStep(n, l).held;
      h == n.held || h == NO_LOCKS || (l == Call(true) && h == Obeyed(n.held, NfsIssued(n)))
  {
    if !(l.Call? && Staging(n)) {
      PosixSystem.HeldCases(n.p, n.held, l);
    }
    hide StepProc, Enabled, StepHeld, AfterCall;
  }

  lemma CompatibleAfter(s: Sys, e: Event, q: Pid)
    requires CanStep(s, e) && q in s.procs && q != e.pid && Compatible(s.procs[e.pid].held, s.procs[q].held)
    ensures Compatible(NfsStep(s.procs[e.pid], e.act).held, s.procs[q].held)
  {
    HeldCases(s.procs[e.pid], e.act);
    hide NfsStep, NfsIssued, NfsEnabled;
    var r := NfsIssued(s.procs[e.pid]);
    if e.act == Call(true) && r.SetLk? {
      ApplyCompatible(s.procs[e.pid].held, s.procs[q].held, r.range, r.mode);
    }
  }

  lemma CompatibleSymmetric(a: Held, b: Held)
    ensures Compatible(a, b) <==> Compatible(b, a)
  {
  }

  lemma StepKeepsSysInv(s: Sys, e: Event)
    requires SysInv(s) && CanStep(s, e)
    ensures SysInv(Next(s, e))
  {
    hide NfsStep, NfsEnabled, NfsIssued, NfsInv, Compatible, Granted;
    NfsStepKeeps(s.procs[e.pid], e.act);
    forall q | q in s.procs && q != e.pid
      ensures Compatible(Next(s, e).procs[e.pid].held, s.procs[q].held)
      ensures Compatible(s.procs[q].held, Next(s, e).procs[e.pid].held)
    {
      CompatibleAfter(s, e, q);
      CompatibleSymmetric(Next(s, e).procs[e.pid].held, s.procs[q].held);
    }
  }

  lemma InitInv(s: Sys)
    requires Init(s)
    ensures SysInv(s)
  {
    forall p | p in s.procs
      ensures NfsInv(s.procs[p]) && s.procs[p].held == NO_LOCKS
    {
      FreshNfsInv(s.procs[p].p.excl);
    }
    hide NfsInv;
  }

  lemma Front(tr: seq<Sys>, es: seq<Event>)
    requires Run(tr, es) && es != []
    ensures Run(tr[..|es|], es[..|es| - 1])
    ensures CanStep(tr[|es| - 1], es[|es| - 1]) && tr[|es|] == Next(tr[|es| - 1], es[|es| - 1])
  {
    var n := |es| - 1;
    assert CanStep(tr[n], es[n]) && tr[n + 1] == Next(tr[n], es[n]);
    forall i | 0 <= i < n
      ensures CanStep(tr[..|es|][i], es[..n][i]) && tr[..|es|][i + 1] == Next(tr[..|es|][i], es[..n][i])
    {
      assert CanStep(tr[i], es[i]) && tr[i + 1] == Next(tr[i], es[i]);
    }
  }

  lemma {:induction false} RunInv(tr: seq<Sys>, es: seq<Event>)
    requires Run(tr, es)
    ensures SysInv(tr[|es|])
  {
    if es == [] {
      InitInv(tr[0]);
    } else {
      Front(tr, es);
      hide SysInv, Init, CanStep;
      RunInv(tr[..|es|], es[..|es| - 1]);
      StepKeepsSysInv(tr[|es| - 1], es[|es| - 1]);
    }
  }

  /** In every reachable state each process is one that `PosixFileInv` allows, but for the shared range. */
  lemma ReachableInv(s: Sys)
    requires Reachable(s)
    ensures SysInv(s)
  {
    var tr, es :| Run(tr, es) && tr[|es|] == s;
    RunInv(tr, es);
  }

  // ---------------------------------------------------------------- when a downgrade opens a window

  /** The third call of a staged downgrade of p succeeds: the last byte of the range is given up. */
  ghost predicate ThirdCall(s: Sys, e: Event, p: Pid) {
    CanStep(s, e) && e == Event(p, Call(true)) && Staging(s.procs[p]) && s.procs[p].stage == 2
  }

  /** p locks or unlocks the whole shared range at once, or loses all its locks by closing a descriptor. */
  ghost predicate WholeRange(s: Sys, e: Event, p: Pid) {
    CanStep(s, e) && e.pid == p && !(e.act.Call? && Staging(s.procs[p])) && ResetsRange(s.procs[p].p, e.act)
  }

  /** Step i was such a third call, and no later one dealt with the whole range. */
  ghost predicate LastCut(tr: seq<Sys>, es: seq<Event>, p: Pid, i: int)
    requires |tr| == |es| + 1
  {
    0 <= i < |es| && ThirdCall(tr[i], es[i], p) && forall j :: i < j < |es| ==> !WholeRange(tr[j], es[j], p)
  }

  /** In the run so far, p went through the third call of a downgrade after it last dealt with the whole
  range. */
  ghost predicate DowngradedSince(tr: seq<Sys>, es: seq<Event>, p: Pid)
    requires |tr| == |es| + 1
  {
    exists i :: LastCut(tr, es, p, i)
  }

  lemma CutAfterStep(n: NfsProc, l: Label)
    requires NfsInv(n) && NfsEnabled(n, l) && !n.p.excl
    ensures NfsStep(n, l).cut <==>
      || (l == Call(true) && Staging(n) && n.stage == 2)
      || (n.cut && ((l.Call? && Staging(n)) || !ResetsRange(n.p, l)))
  {
    if l.Call? && Staging(n) {
      DowngradeFacts(n.p, n.asif);
    }
    hide ResetsRange, ProcInv, StepProc, StepHeld;
  }

  lemma ExclStays(n: NfsProc, l: Label)
    requires NfsInv(n) && NfsEnabled(n, l)
    ensures NfsStep(n, l).p.excl == n.p.excl
  {
    if l.Call? && Staging(n) {
      DowngradeFacts(n.p, n.asif);
      ReadAllFrame(n.p);
    } else {
      StepKeepsExcl(n.p, l);
    }
    hide StepProc, ProcInv, AfterCall, Enabled;
  }

  /** `cut` records what happened in the run. */
  lemma {:induction false} CutIffDowngradedSince(tr: seq<Sys>, es: seq<Event>, p: Pid)
    requires Run(tr, es) && p in tr[|es|].procs && !tr[|es|].procs[p].p.excl
    ensures tr[|es|].procs[p].cut <==> DowngradedSince(tr, es, p)
  {
    hide NfsStep, NfsEnabled, NfsInv, NfsIssued, Granted, ResetsRange;
    if es == [] {
      assert tr[0].procs[p] == FreshNfs(false);
    } else {
      var n := |es| - 1;
      var before, s, e := tr[..|es|], tr[n], es[n];
      Front(tr, es);
      RunInv(before, es[..n]);
      assert before[n] == s;
      if e.pid == p {
        ExclStays(s.procs[p], e.act);
        CutAfterStep(s.procs[p], e.act);
      }
      CutIffDowngradedSince(before, es[..n], p);
      SinceOneMore(tr, es, p);
    }
  }

  /** One more step at the end of a run. */
  lemma LastCutOneMore(tr: seq<Sys>, es: seq<Event>, p: Pid, i: int)
    requires |tr| == |es| + 1 && es != [] && i < |es| - 1
    ensures var n := |es| - 1;
      LastCut(tr, es, p, i) <==> LastCut(tr[..|es|], es[..n], p, i) && !WholeRange(tr[n], es[n], p)
  {
    hide ThirdCall, WholeRange;
    var n := |es| - 1;
    var before, steps := tr[..|es|], es[..n];
    assert forall k :: 0 <= k < n ==> before[k] == tr[k] && steps[k] == es[k];
    if LastCut(before, steps, p, i) && !WholeRange(tr[n], es[n], p) {
      forall j | i < j < |es|
        ensures !WholeRange(tr[j], es[j], p)
      {
        assert j < n ==> !WholeRange(before[j], steps[j], p);
      }
    }
  }

  lemma SinceOneMore(tr: seq<Sys>, es: seq<Event>, p: Pid)
    requires |tr| == |es| + 1 && es != []
    ensures var n := |es| - 1;
      DowngradedSince(tr, es, p) <==>
        ThirdCall(tr[n], es[n], p) || (DowngradedSince(tr[..|es|], es[..n], p) && !WholeRange(tr[n], es[n], p))
  {
    hide ThirdCall, WholeRange;
    var n := |es| - 1;
    forall i | i < n
      ensures LastCut(tr, es, p, i) <==> LastCut(tr[..|es|], es[..n], p, i) && !WholeRange(tr[n], es[n], p)
    {
      LastCutOneMore(tr, es, p, i);
    }
    assert LastCut(tr, es, p, n) <==> ThirdCall(tr[n], es[n], p);
  }

  /** At any time in any run: a downgrade that starts now lets no other process write-lock the range, at
  whichever of its calls it stops, exactly when no earlier downgrade of this process got past its third
  call since the process last locked the whole range. */
  lemma WindowFreeIff(tr: seq<Sys>, es: seq<Event>, p: Pid)
    requires Run(tr, es) && p in tr[|es|].procs
    requires var n := tr[|es|].procs[p]; Staging(n) && n.stage == 0 && !n.p.excl
    ensures (forall k: nat :: k <= 4 ==> !Window(HeldAfter(tr[|es|].procs[p].held, k))) <==> !DowngradedSince(tr, es, p)
  {
    RunInv(tr, es);
    CutIffDowngradedSince(tr, es, p);
    hide NfsInv, DowngradedSince, Window, HeldAfter, Run;
    WindowFreeIffUncut(tr[|es|].procs[p]);
  }
}
