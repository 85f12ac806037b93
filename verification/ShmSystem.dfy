/** All processes sharing one wal-index: unixShmLock() against one flat table of reader/writer
locks, over every run. */
module ShmSystem {
  import opened PosixOs
  import opened ShmMask
  import opened ShmLocks

  type Pid = nat

  datatype Sys = Sys(procs: map<Pid, Conns>, os: map<Pid, Slots>)

  /** Another process's lock makes the kernel refuse the call. */
  ghost predicate KernelRefuses(s: Sys, p: Pid, r: Request, m: Mode) {
    exists q, i: Slot :: q in s.os && q != p && Covers(r, i) && Clash(s.os[q][i], m)
  }

  /** One call of unixShmLock(); `fault` is an fcntl() failing for some other reason. */
  ghost predicate Succeeds(s: Sys, p: Pid, c: Cid, r: Request, fault: bool)
    requires p in s.procs && InSlotRange(r)
  {
    match LocalAnswer(s.procs[p], c, r)
    case Refused => false
    case NoCall => true
    case Fcntl(m) => !fault && !KernelRefuses(s, p, r, m)
  }

  ghost predicate HasConn(s: Sys, p: Pid, c: Cid) {
    p in s.procs && p in s.os && c in s.procs[p]
  }

  ghost function After(s: Sys, p: Pid, c: Cid, r: Request, fault: bool): Sys
    requires HasConn(s, p, c) && InSlotRange(r)
  {
    if Succeeds(s, p, c, r, fault) then
      Sys(s.procs[p := Grant(s.procs[p], c, r)], s.os[p := SlotsAfter(s.procs[p], s.os[p], c, r)])
    else s
  }

  // ---------------------------------------------------------------- the flat specification

  /** What connection d of process q holds on slot i, in one table over all connections. */
  ghost function Flat(s: Sys, q: Pid, d: Cid, i: Slot): Mode {
    if q !in s.procs then Unlocked
    else if HasExcl(s.procs[q], d, i) then WriteLock
    else if HasShared(s.procs[q], d, i) then ReadLock
    else Unlocked
  }

  /** A shared lock needs that nobody holds a slot exclusively, an exclusive lock that nobody holds it
  at all, and an unlock always works. */
  ghost predicate FlatAllows(s: Sys, r: Request) {
    match r
    case LockShared(_) => forall q, d, i: Slot :: Covers(r, i) ==> Flat(s, q, d, i) != WriteLock
    case LockExclusive(_, _) => forall q, d, i: Slot :: Covers(r, i) ==> Flat(s, q, d, i) == Unlocked
    case Unlock(_, _) => true
  }

  function Wanted(r: Request): Mode {
    match r
    case LockShared(_) => ReadLock
    case LockExclusive(_, _) => WriteLock
    case Unlock(_, _) => Unlocked
  }

  // ---------------------------------------------------------------- runs

  /** unixShmLock(), unixOpenSharedMemory() and unixShmUnmap(), as far as locks go. */
  datatype Event =
    | Lock(p: Pid, c: Cid, r: Request, fault: bool)
    | Open(p: Pid, c: Cid)
    | Unmap(p: Pid, c: Cid)

  /** The WAL layer asks within the slots, unlocks what it holds, and unmaps when it holds nothing. */
  ghost predicate CanStep(s: Sys, e: Event) {
    match e
    case Lock(p, c, r, _) => HasConn(s, p, c) && InSlotRange(r) && HeldByCaller(s.procs[p], c, r)
    case Open(p, c) => p in s.procs ==> c !in s.procs[p]
    case Unmap(p, c) => HasConn(s, p, c) && s.procs[p][c] == Shm(0, 0)
  }

  ghost function Next(s: Sys, e: Event): Sys
    requires CanStep(s, e)
  {
    match e
    case Lock(p, c, r, fault) => After(s, p, c, r, fault)
    case Open(p, c) =>
      if p in s.procs then s.(procs := s.procs[p := Added(s.procs[p], c)])
      else Sys(s.procs[p := Added(map[], c)], s.os[p := NO_SLOTS])
    case Unmap(p, c) => s.(procs := s.procs[p := Dropped(s.procs[p], c)])
  }

  ghost predicate Init(s: Sys) {
    s == Sys(map[], map[])
  }

  ghost predicate Step(s: Sys, t: Sys) {
    exists e :: CanStep(s, e) && t == Next(s, e)
  }

  ghost predicate Run(tr: seq<Sys>) {
    |tr| > 0 && Init(tr[0]) && forall k :: 0 <= k < |tr| - 1 ==> Step(tr[k], tr[k + 1])
  }

  ghost predicate Reachable(s: Sys) {
    exists tr :: Run(tr) && tr[|tr| - 1] == s
  }

  // ---------------------------------------------------------------- the invariant

  predicate SlotsCompatible(a: Slots, b: Slots) {
    forall i: Slot :: !Clash(a[i], b[i])
  }

  ghost predicate SysInv(s: Sys) {
    && s.procs.Keys == s.os.Keys
    && (forall p :: p in s.procs ==> NodeInv(s.procs[p], s.os[p]))
    && (forall p, q :: p in s.procs && q in s.procs && p != q ==> SlotsCompatible(s.os[p], s.os[q]))
  }

  /** A granted fcntl() keeps the process compatible with another one. */
  lemma SlotsStayCompatible(s: Sys, p: Pid, c: Cid, r: Request, fault: bool, q: Pid)
    requires HasConn(s, p, c) && q in s.os && q != p && InSlotRange(r) && Succeeds(s, p, c, r, fault)
    requires SlotsCompatible(s.os[p], s.os[q])
    ensures SlotsCompatible(SlotsAfter(s.procs[p], s.os[p], c, r), s.os[q])
    ensures SlotsCompatible(s.os[q], SlotsAfter(s.procs[p], s.os[p], c, r))
  {
  }

  /** Replacing one process by one that satisfies its invariant and clashes with nobody. */
  lemma ReplaceProc(s: Sys, t: Sys, p: Pid)
    requires SysInv(s) && p in t.procs && p in t.os
    requires t.procs == s.procs[p := t.procs[p]] && t.os == s.os[p := t.os[p]]
    requires NodeInv(t.procs[p], t.os[p])
    requires forall q :: q in s.os && q != p ==> SlotsCompatible(t.os[p], s.os[q]) && SlotsCompatible(s.os[q], t.os[p])
    ensures SysInv(t)
  {
  }

  lemma LockKeepsInv(s: Sys, p: Pid, c: Cid, r: Request, fault: bool)
    requires SysInv(s) && HasConn(s, p, c) && InSlotRange(r) && HeldByCaller(s.procs[p], c, r)
    ensures SysInv(After(s, p, c, r, fault))
  {
    if Succeeds(s, p, c, r, fault) {
      assert NodeInv(s.procs[p], s.os[p]);
      GrantKeepsNode(s.procs[p], s.os[p], c, r);
      forall q | q in s.os && q != p
        ensures SlotsCompatible(SlotsAfter(s.procs[p], s.os[p], c, r), s.os[q])
        ensures SlotsCompatible(s.os[q], SlotsAfter(s.procs[p], s.os[p], c, r))
      {
        hide NodeInv, SlotsAfter, LocalAnswer, SlotsCompatible, Succeeds;
        SlotsStayCompatible(s, p, c, r, fault, q);
      }
      hide NodeInv, Grant, SlotsAfter, LocalAnswer, SlotsCompatible, HeldByCaller, Succeeds, SysInv;
      ReplaceProc(s, After(s, p, c, r, fault), p);
    }
  }

  lemma FreshNode(c: Cid)
    ensures NodeInv(Added(map[], c), NO_SLOTS)
  {
  }

  lemma NoSlotsCompatible()
    ensures forall o: Slots :: SlotsCompatible(NO_SLOTS, o) && SlotsCompatible(o, NO_SLOTS)
  {
  }

  lemma OpenKeepsInv(s: Sys, p: Pid, c: Cid)
    requires SysInv(s) && CanStep(s, Open(p, c))
    ensures SysInv(Next(s, Open(p, c)))
  {
    hide NodeInv, SlotsCompatible;
    if p in s.procs {
      IdleConn(s.procs[p], Added(s.procs[p], c), c, s.os[p]);
      ReplaceProc(s, Next(s, Open(p, c)), p);
    } else {
      FreshNode(c);
      NoSlotsCompatible();
      ReplaceProc(s, Next(s, Open(p, c)), p);
    }
  }

  lemma UnmapKeepsInv(s: Sys, p: Pid, c: Cid)
    requires SysInv(s) && CanStep(s, Unmap(p, c))
    ensures SysInv(Next(s, Unmap(p, c)))
  {
    hide NodeInv, SlotsCompatible;
    IdleConn(s.procs[p], Dropped(s.procs[p], c), c, s.os[p]);
    ReplaceProc(s, Next(s, Unmap(p, c)), p);
  }

  lemma StepKeepsInv(s: Sys, e: Event)
    requires SysInv(s) && CanStep(s, e)
    ensures SysInv(Next(s, e))
  {
    match e
    case Lock(p, c, r, fault) => LockKeepsInv(s, p, c, r, fault);
    case Open(p, c) => OpenKeepsInv(s, p, c);
    case Unmap(p, c) => UnmapKeepsInv(s, p, c);
  }

  lemma {:induction false} RunInv(tr: seq<Sys>, k: nat)
    requires Run(tr) && k < |tr|
    ensures SysInv(tr[k])
  {
    hide Next, CanStep;
    if k == 0 {
    } else {
      RunInv(tr, k - 1);
      hide SysInv;
      assert Step(tr[k - 1], tr[k - 1 + 1]);
      var e :| CanStep(tr[k - 1], e) && tr[k] == Next(tr[k - 1], e);
      StepKeepsInv(tr[k - 1], e);
    }
  }

  lemma ReachableInv(s: Sys)
    requires Reachable(s)
    ensures SysInv(s)
  {
    var tr :| Run(tr) && tr[|tr| - 1] == s;
    RunInv(tr, |tr| - 1);
    hide SysInv;
  }

  // ---------------------------------------------------------------- the refinement

  /** The kernel's lock of a process on each slot is the join of its connections' masks. */
  lemma KernelHoldsTheJoin(s: Sys, p: Pid, i: Slot)
    requires Reachable(s) && p in s.procs
    ensures p in s.os
    ensures s.os[p][i] == WriteLock <==> exists c :: Flat(s, p, c, i) == WriteLock
    ensures s.os[p][i] == ReadLock <==>
      (exists c :: Flat(s, p, c, i) == ReadLock) && !exists c :: Flat(s, p, c, i) == WriteLock
  {
    ReachableInv(s);
    JoinAt(s, p, i);
  }

  lemma JoinAt(s: Sys, p: Pid, i: Slot)
    requires SysInv(s) && p in s.procs
    ensures p in s.os
    ensures s.os[p][i] == WriteLock <==> exists c :: Flat(s, p, c, i) == WriteLock
    ensures s.os[p][i] == ReadLock <==>
      (exists c :: Flat(s, p, c, i) == ReadLock) && !exists c :: Flat(s, p, c, i) == WriteLock
    ensures forall c :: Flat(s, p, c, i) != Unlocked ==> s.os[p][i] == Flat(s, p, c, i)
  {
    assert NodeInv(s.procs[p], s.os[p]);
    assert Joined(s.procs[p], s.os[p]) && SlotExclusive(s.procs[p], i);
    hide NodeInv, HasShared, HasExcl, SysInv;
    assert s.os[p][i] == JoinMode(s.procs[p], i);
    var cs := s.procs[p];
    forall c
      ensures Flat(s, p, c, i) ==
        if HasExcl(cs, c, i) then WriteLock else if HasShared(cs, c, i) then ReadLock else Unlocked
    {
    }
  }

  /** In every reachable state an exclusive holder is alone on its slot, across all processes. */
  lemma ExclusiveIsAlone(s: Sys, p: Pid, c: Cid, q: Pid, d: Cid, i: Slot)
    requires Reachable(s) && Flat(s, p, c, i) == WriteLock && (p, c) != (q, d)
    ensures Flat(s, q, d, i) == Unlocked
  {
    ReachableInv(s);
    if p == q {
      assert NodeInv(s.procs[p], s.os[p]);
      assert SlotExclusive(s.procs[p], i);
    } else if q in s.procs {
      JoinAt(s, p, i);
      JoinAt(s, q, i);
      assert SlotsCompatible(s.os[p], s.os[q]);
      assert !Clash(s.os[p][i], s.os[q][i]);
    }
  }

  /** Absent fcntl() faults a request is granted exactly when the flat table allows it. */
  lemma GrantedIffFlatAllows(s: Sys, p: Pid, c: Cid, r: Request)
    requires Reachable(s) && HasConn(s, p, c) && InSlotRange(r)
    ensures Succeeds(s, p, c, r, false) <==> FlatAllows(s, r)
  {
    ReachableInv(s);
    match r
    case LockShared(ofst) => SharedIff(s, p, c, ofst);
    case LockExclusive(ofst, n) => ExclusiveIff(s, p, c, ofst, n);
    case Unlock(ofst, n) =>
  }

  lemma SharedIff(s: Sys, p: Pid, c: Cid, ofst: nat)
    requires SysInv(s) && HasConn(s, p, c) && InSlotRange(LockShared(ofst))
    ensures Succeeds(s, p, c, LockShared(ofst), false) <==> FlatAllows(s, LockShared(ofst))
  {
    forall q | q in s.procs
      ensures q in s.os
      ensures s.os[q][ofst] == WriteLock <==> exists d :: Flat(s, q, d, ofst) == WriteLock
      ensures forall d :: Flat(s, q, d, ofst) != Unlocked ==> s.os[q][ofst] == Flat(s, q, d, ofst)
    {
      JoinAt(s, q, ofst);
    }
    forall q | q in s.procs && q != p
      ensures !Clash(s.os[p][ofst], s.os[q][ofst])
    {
      assert SlotsCompatible(s.os[p], s.os[q]);
    }
    forall d
      ensures Flat(s, p, d, ofst) == WriteLock <==> HasExcl(s.procs[p], d, ofst)
      ensures HasShared(s.procs[p], d, ofst) ==> Flat(s, p, d, ofst) != Unlocked
    {
    }
    hide SysInv, HasShared, HasExcl, Flat;
  }

  lemma ExclusiveIff(s: Sys, p: Pid, c: Cid, ofst: nat, n: nat)
    requires SysInv(s) && HasConn(s, p, c) && InSlotRange(LockExclusive(ofst, n))
    ensures Succeeds(s, p, c, LockExclusive(ofst, n), false) <==> FlatAllows(s, LockExclusive(ofst, n))
  {
    forall q, i: Slot | q in s.procs
      ensures q in s.os
      ensures s.os[q][i] != Unlocked <==> exists d :: Flat(s, q, d, i) != Unlocked
    {
      JoinAt(s, q, i);
    }
    forall d, i: Slot
      ensures Flat(s, p, d, i) != Unlocked <==> HasAny(s.procs[p], d, i)
    {
    }
    hide HasAny, Flat;
  }

  /** A request changes the flat table in the caller's own slots, and only if it succeeds. */
  lemma FlatAfter(s: Sys, p: Pid, c: Cid, r: Request, fault: bool, q: Pid, d: Cid, i: Slot)
    requires HasConn(s, p, c) && InSlotRange(r)
    ensures Flat(After(s, p, c, r, fault), q, d, i) ==
            if Succeeds(s, p, c, r, fault) && q == p && d == c && Covers(r, i) then Wanted(r) else Flat(s, q, d, i)
  {
    if Succeeds(s, p, c, r, fault) && q == p {
      GrantBits(s.procs[p], c, r, d, i);
      assert r.LockShared? && Covers(r, i) ==> !HasExcl(s.procs[p], d, i);
      hide Grant, HasShared, HasExcl, HasAny, SlotsAfter, Succeeds;
    }
  }
}
