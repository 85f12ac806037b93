/** The home-grown recursive mutex, stepped at each read and write of its two volatile fields.

Enter tests "Refs && Owner==self" without holding the underlying mutex; the two reads may see values
that other threads are changing in between. */
module RecursiveMutex {

  /** A thread; zero is the null owner. */
  type Tid = nat

  datatype Raw = Open | LockedBy(t: Tid)

  /** mutex.Refs, mutex.Owner and mutex.Mutex. */
  datatype Fields = Fields(refs: int, owner: Tid, raw: Raw)

  /** Where a thread is; `try` tells MutexTryEnter() from MutexEnter(), `reg` is a value just read. */
  datatype Pc =
    | Idle
    | TestRefs(try: bool)
    | TestOwner(try: bool)
    | ReadToAdd
    | WriteAdded(reg: int)
    | LockRaw(try: bool)
    | SetOwner
    | SetRefs
    | ReadToDrop
    | WriteDropped(reg: int)
    | TestLast
    | ClearOwner
    | TestUnlock
    | UnlockRaw

  /** `depth` counts the thread's completed enters that it has not completely left. */
  datatype Thread = Thread(pc: Pc, depth: nat)

  datatype Sys = Sys(m: Fields, threads: map<Tid, Thread>)

  datatype Label = Enter | TryEnter | Leave | Go

  /** Enter and Leave start calls; a thread leaves only what it has entered.  `Go` is the next read or
  write; pthread_mutex_lock() waits while the mutex is locked. */
  predicate Enabled(m: Fields, h: Thread, l: Label) {
    match l
    case Enter => h.pc.Idle?
    case TryEnter => h.pc.Idle?
    case Leave => h.pc.Idle? && h.depth > 0
    case Go => !h.pc.Idle? && (h.pc == LockRaw(false) ==> m.raw.Open?)
  }

  function Next(m: Fields, h: Thread, t: Tid, l: Label): (Fields, Thread)
    requires Enabled(m, h, l)
  {
    match l
    case Enter => (m, h.(pc := TestRefs(false)))
    case TryEnter => (m, h.(pc := TestRefs(true)))
    case Leave => (m, h.(pc := ReadToDrop))
    case Go =>
      match h.pc
      case TestRefs(try) => (m, h.(pc := if m.refs != 0 then TestOwner(try) else LockRaw(try)))
      case TestOwner(try) => (m, h.(pc := if m.owner == t then ReadToAdd else LockRaw(try)))
      case ReadToAdd => (m, h.(pc := WriteAdded(m.refs)))
      case WriteAdded(reg) => (m.(refs := reg + 1), Thread(Idle, h.depth + 1))
      case LockRaw(try) =>
        if m.raw.Open? then (m.(raw := LockedBy(t)), h.(pc := SetOwner)) else (m, h.(pc := Idle))
      case SetOwner => (m.(owner := t), h.(pc := SetRefs))
      case SetRefs => (m.(refs := 1), Thread(Idle, h.depth + 1))
      case ReadToDrop => (m, h.(pc := WriteDropped(m.refs)))
      case WriteDropped(reg) => (m.(refs := reg - 1), h.(pc := TestLast))
      case TestLast => (m, h.(pc := if m.refs == 0 then ClearOwner else TestUnlock))
      case ClearOwner => (m.(owner := 0), h.(pc := TestUnlock))
      case TestUnlock =>
        if m.refs == 0 then (m, h.(pc := UnlockRaw)) else (m, Thread(Idle, if h.depth > 0 then h.depth - 1 else 0))
      case UnlockRaw => (m.(raw := Open), Thread(Idle, if h.depth > 0 then h.depth - 1 else 0))
  }

  ghost predicate CanStep(s: Sys, t: Tid, l: Label) {
    t in s.threads && Enabled(s.m, s.threads[t], l)
  }

  ghost function StepSys(s: Sys, t: Tid, l: Label): Sys
    requires CanStep(s, t, l)
  {
    var (m, h) := Next(s.m, s.threads[t], t, l);
    Sys(m, s.threads[t := h])
  }

  ghost predicate Init(s: Sys) {
    && s.m == Fields(0, 0, Open)
    && 0 !in s.threads
    && forall t :: t in s.threads ==> s.threads[t] == Thread(Idle, 0)
  }

  ghost predicate Run(tr: seq<Sys>) {
    && |tr| > 0 && Init(tr[0])
    && forall k :: 0 <= k < |tr| - 1 ==> exists t, l :: CanStep(tr[k], t, l) && tr[k + 1] == StepSys(tr[k], t, l)
  }

  ghost predicate Reachable(s: Sys) {
    exists tr :: Run(tr) && tr[|tr| - 1] == s
  }

  // ---------------------------------------------------------------- the invariant

  /** A thread that does not hold the underlying mutex has entered nothing and is at most testing. */
  predicate Outside(h: Thread) {
    h.depth == 0 && (h.pc.Idle? || h.pc.TestRefs? || h.pc.TestOwner? || h.pc.LockRaw?)
  }

  /** What the fields are while thread t holds the underlying mutex. */
  predicate Inside(m: Fields, h: Thread, t: Tid) {
    match h.pc
    case Idle => h.depth > 0 && m.refs == h.depth && m.owner == t
    case TestRefs(_) => h.depth > 0 && m.refs == h.depth && m.owner == t
    case TestOwner(_) => h.depth > 0 && m.refs == h.depth && m.owner == t
    case ReadToAdd => h.depth > 0 && m.refs == h.depth && m.owner == t
    case WriteAdded(reg) => h.depth > 0 && reg == m.refs == h.depth && m.owner == t
    case LockRaw(_) => false
    case SetOwner => h.depth == 0 && m.refs == 0 && m.owner == 0
    case SetRefs => h.depth == 0 && m.refs == 0 && m.owner == t
    case ReadToDrop => h.depth > 0 && m.refs == h.depth && m.owner == t
    case WriteDropped(reg) => h.depth > 0 && reg == m.refs == h.depth && m.owner == t
    case TestLast => h.depth > 0 && m.refs == h.depth - 1 && m.owner == t
    case ClearOwner => h.depth == 1 && m.refs == 0 && m.owner == t
    case TestUnlock => h.depth > 0 && m.refs == h.depth - 1 && m.owner == (if m.refs == 0 then 0 else t)
    case UnlockRaw => h.depth == 1 && m.refs == 0 && m.owner == 0
  }

  ghost predicate Inv(s: Sys) {
    && 0 !in s.threads
    && (s.m.raw.Open? ==> s.m.refs == 0 && s.m.owner == 0)
    && (s.m.raw.LockedBy? ==> s.m.raw.t in s.threads && Inside(s.m, s.threads[s.m.raw.t], s.m.raw.t))
    && forall t :: t in s.threads && s.m.raw != LockedBy(t) ==> Outside(s.threads[t])
  }

  /** A thread outside sees an owner that is not itself, so it changes nothing but, once, the lock. */
  lemma OutsideStep(m: Fields, h: Thread, t: Tid, l: Label)
    requires Outside(h) && Enabled(m, h, l) && m.raw != LockedBy(t) && m.owner != t
    ensures var (n, k) := Next(m, h, t, l);
      (n == m && Outside(k)) || (m.raw.Open? && n == m.(raw := LockedBy(t)) && k == Thread(SetOwner, 0))
  {
  }

  lemma InsideStep(m: Fields, h: Thread, t: Tid, l: Label)
    requires Inside(m, h, t) && Enabled(m, h, l) && m.raw == LockedBy(t)
    ensures var (n, k) := Next(m, h, t, l);
      (n.raw == LockedBy(t) && Inside(n, k, t)) || (n == Fields(0, 0, Open) && Outside(k))
  {
  }

  lemma StepKeepsInv(s: Sys, t: Tid, l: Label)
    requires Inv(s) && CanStep(s, t, l)
    ensures Inv(StepSys(s, t, l))
  {
    if s.m.raw == LockedBy(t) {
      InsideStep(s.m, s.threads[t], t, l);
      hide Next, Outside, Enabled, Inside;
    } else {
      OwnerInside(s, t);
      OutsideStep(s.m, s.threads[t], t, l);
      assert s.m.raw.Open? ==> Inside(s.m.(raw := LockedBy(t)), Thread(SetOwner, 0), t);
      hide Next, Outside, Enabled;
    }
  }

  lemma OwnerInside(s: Sys, t: Tid)
    requires Inv(s) && t in s.threads && s.m.raw != LockedBy(t)
    ensures s.m.owner != t
  {
  }

  lemma {:induction false} RunInv(tr: seq<Sys>, k: nat)
    requires Run(tr) && k < |tr|
    ensures Inv(tr[k])
  {
    if k == 0 {
    } else {
      RunInv(tr, k - 1);
      hide Inv, CanStep, StepSys;
      assert tr[k - 1 + 1] == tr[k];
      var t, l :| CanStep(tr[k - 1], t, l) && tr[k] == StepSys(tr[k - 1], t, l);
      StepKeepsInv(tr[k - 1], t, l);
    }
  }

  lemma ReachableInv(s: Sys)
    requires Reachable(s)
    ensures Inv(s)
  {
    var tr :| Run(tr) && tr[|tr| - 1] == s;
    RunInv(tr, |tr| - 1);
    hide Inv;
  }

  // ---------------------------------------------------------------- theorems

  /** No two threads have entered at once. */
  lemma MutualExclusion(s: Sys, t: Tid, u: Tid)
    requires Reachable(s) && t in s.threads && u in s.threads && s.threads[t].depth > 0 && s.threads[u].depth > 0
    ensures t == u
  {
    ReachableInv(s);
    assert t != u ==> s.m.raw != LockedBy(t) || s.m.raw != LockedBy(u);
  }

  /** The unsynchronised test comes out true exactly for a thread that has entered: a thread that has
  goes through both reads to the increment, one that has not ends at the underlying lock. */
  lemma TestIsExact(s: Sys, t: Tid)
    requires Reachable(s) && CanStep(s, t, Go)
    ensures s.threads[t].pc.TestRefs? && s.threads[t].depth > 0 ==> StepSys(s, t, Go).threads[t].pc.TestOwner?
    ensures s.threads[t].pc.TestOwner? ==> (StepSys(s, t, Go).threads[t].pc == ReadToAdd <==> s.threads[t].depth > 0)
    ensures s.threads[t].pc == ReadToAdd ==> s.threads[t].depth > 0
    ensures s.threads[t].pc.LockRaw? ==> s.threads[t].depth == 0
  {
    ReachableInv(s);
    if s.m.raw != LockedBy(t) {
      OwnerInside(s, t);
      assert Outside(s.threads[t]);
    }
  }

  /** Outside its own calls, the thread that has entered owns the mutex and Refs is its depth; when
  nobody has, and nobody is in the middle of a call that does, Refs is zero. */
  lemma RefsIsDepth(s: Sys, t: Tid)
    requires Reachable(s) && t in s.threads && s.threads[t].pc.Idle? && s.threads[t].depth > 0
    ensures s.m == Fields(s.threads[t].depth, t, LockedBy(t))
  {
    ReachableInv(s);
    assert s.m.raw != LockedBy(t) ==> Outside(s.threads[t]);
  }

  lemma FreeMeansZero(s: Sys)
    requires Reachable(s) && forall t :: t in s.threads ==> s.threads[t] == Thread(Idle, 0)
    ensures s.m == Fields(0, 0, Open)
  {
    ReachableInv(s);
  }

  /** Once the underlying lock is taken the count is zero, as the code asserts. */
  lemma NoRefsAfterLock(s: Sys, t: Tid)
    requires Reachable(s) && t in s.threads && s.threads[t].pc == SetOwner
    ensures s.m.refs == 0 && s.m.raw == LockedBy(t)
  {
    ReachableInv(s);
    assert s.m.raw != LockedBy(t) ==> Outside(s.threads[t]);
  }

  /** Nobody waits for, or is turned away by, a lock it holds itself. */
  lemma NeverWaitsForItself(s: Sys, t: Tid)
    requires Reachable(s) && t in s.threads && s.threads[t].pc.LockRaw? && s.m.raw.LockedBy?
    ensures s.m.raw.t != t
  {
    ReachableInv(s);
  }
}
