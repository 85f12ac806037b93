/** Any number of handles on one file, in any number of processes, over one table of Windows locks. */
module WinSystem {
  import opened PosixOs
  import opened LockLevels
  import opened WinFile

  type Hid = nat
  type Sys = map<Hid, Handle>

  /** Some lock, perhaps the handle's own, excludes a request. */
  ghost predicate Refused(s: Sys, part: Part, m: Mode) {
    exists q :: q in s && Clash(PartOf(s[q], part), m)
  }

  /** The kernel grants no clashing lock.  A refusal may have other causes. */
  ghost predicate CanStep(s: Sys, p: Hid, l: Label) {
    && p in s && Enabled(s[p], l)
    && (l.Call? && l.ok && Issued(s[p].pc).LockFile? ==> !Refused(s, Issued(s[p].pc).part, Issued(s[p].pc).mode))
  }

  /** A read lock that is taken back is refused only because of a clash. */
  ghost predicate NoSpuriousReread(s: Sys, p: Hid, l: Label) {
    p in s && Rereads(s[p]) && l.Call? && !l.ok ==> Refused(s, SharedPart, ReadLock)
  }

  ghost function Next(s: Sys, p: Hid, l: Label): Sys
    requires CanStep(s, p, l)
  {
    s[p := Step(s[p], l)]
  }

  /** A run: every handle starts unlocked; `quiet` runs have no spurious reread. */
  ghost predicate Run(tr: seq<Sys>, quiet: bool) {
    && |tr| > 0
    && (forall p :: p in tr[0] ==> tr[0][p] == Handle(NO_LOCK, Unlocked, Unlocked, Unlocked, Idle))
    && forall k :: 0 <= k < |tr| - 1 ==> Follows(tr[k], tr[k + 1], quiet)
  }

  ghost predicate Follows(s: Sys, t: Sys, quiet: bool) {
    exists p, l :: CanStep(s, p, l) && (quiet ==> NoSpuriousReread(s, p, l)) && t == Next(s, p, l)
  }

  ghost predicate Reachable(s: Sys, quiet: bool) {
    exists tr :: Run(tr, quiet) && tr[|tr| - 1] == s
  }

  // ---------------------------------------------------------------- the invariant

  predicate NoClash(a: Handle, b: Handle) {
    !Clash(a.pending, b.pending) && !Clash(a.reserved, b.reserved) && !Clash(a.shared, b.shared)
  }

  ghost predicate SysInv(s: Sys) {
    && (forall p :: p in s ==> HandleInv(s[p]))
    && (forall p, q :: p in s && q in s && p != q ==> NoClash(s[p], s[q]))
  }

  lemma Pair(s: Sys, p: Hid, q: Hid)
    requires SysInv(s) && p in s && q in s && p != q
    ensures NoClash(s[p], s[q])
  {
  }

  /** A handle about to take back its read lock holds the PENDING byte, so nobody can hold the shared
  range exclusively: the read lock is never refused for a clash. */
  lemma RereadIsFree(s: Sys, p: Hid)
    requires SysInv(s) && p in s && Rereads(s[p])
    ensures !Refused(s, SharedPart, ReadLock)
    ensures s[p].pending == WriteLock
  {
    forall q | q in s
      ensures !Clash(PartOf(s[q], SharedPart), ReadLock)
    {
      if q != p && s[q].shared == WriteLock {
        ExclusiveOwnsPending(s[q]);
        Pair(s, p, q);
      }
    }
  }

  /** What a step may add to a handle's locks. */
  lemma StepLocks(h: Handle, l: Label, part: Part)
    requires Enabled(h, l)
    ensures var m := PartOf(Step(h, l), part);
      || m == PartOf(h, part) || m == Unlocked
      || (l.Call? && l.ok && Issued(h.pc) == LockFile(part, m))
  {
  }

  lemma CompatibleAfter(s: Sys, p: Hid, l: Label, q: Hid)
    requires CanStep(s, p, l) && q in s && q != p && NoClash(s[p], s[q])
    ensures NoClash(Step(s[p], l), s[q]) && NoClash(s[q], Step(s[p], l))
  {
    StepLocks(s[p], l, PendingPart);
    StepLocks(s[p], l, ReservedPart);
    StepLocks(s[p], l, SharedPart);
    hide Step, Issued, Enabled;
    forall part
      ensures !Clash(PartOf(Step(s[p], l), part), PartOf(s[q], part))
    {
      StepLocks(s[p], l, part);
    }
    assert !Clash(PartOf(Step(s[p], l), PendingPart), PartOf(s[q], PendingPart));
    assert !Clash(PartOf(Step(s[p], l), ReservedPart), PartOf(s[q], ReservedPart));
    assert !Clash(PartOf(Step(s[p], l), SharedPart), PartOf(s[q], SharedPart));
  }

  lemma StepKeepsInv(s: Sys, p: Hid, l: Label)
    requires SysInv(s) && CanStep(s, p, l) && NoSpuriousReread(s, p, l)
    ensures SysInv(Next(s, p, l))
  {
    hide HandleInv, Step, Enabled, Issued, Refused;
    if Rereads(s[p]) {
      RereadIsFree(s, p);
    }
    StepKeepsHandle(s[p], l);
    forall q | q in s && q != p
      ensures NoClash(Step(s[p], l), s[q]) && NoClash(s[q], Step(s[p], l))
    {
      CompatibleAfter(s, p, l, q);
    }
    hide NoClash;
  }

  lemma {:induction false} RunInv(tr: seq<Sys>, k: nat)
    requires Run(tr, true) && k < |tr|
    ensures SysInv(tr[k])
  {
    if k == 0 {
    } else {
      RunInv(tr, k - 1);
      hide SysInv, CanStep, Next, NoSpuriousReread;
      assert tr[k - 1 + 1] == tr[k];
      assert Follows(tr[k - 1], tr[k], true);
      var p, l :| CanStep(tr[k - 1], p, l) && NoSpuriousReread(tr[k - 1], p, l) && tr[k] == Next(tr[k - 1], p, l);
      StepKeepsInv(tr[k - 1], p, l);
    }
  }

  lemma ReachableInv(s: Sys)
    requires Reachable(s, true)
    ensures SysInv(s)
  {
    var tr :| Run(tr, true) && tr[|tr| - 1] == s;
    RunInv(tr, |tr| - 1);
    hide SysInv;
  }

  // ---------------------------------------------------------------- with spurious rereads

  ghost predicate LooseInv(s: Sys) {
    && (forall p :: p in s ==> Loose(s[p]))
    && (forall p, q :: p in s && q in s && p != q ==> NoClash(s[p], s[q]))
  }

  lemma StepKeepsLooseInv(s: Sys, p: Hid, l: Label)
    requires LooseInv(s) && CanStep(s, p, l)
    ensures LooseInv(Next(s, p, l))
  {
    hide Loose, Step, Enabled, Issued, Refused;
    StepKeepsLoose(s[p], l);
    forall q | q in s && q != p
      ensures NoClash(Step(s[p], l), s[q]) && NoClash(s[q], Step(s[p], l))
    {
      CompatibleAfter(s, p, l, q);
    }
    hide NoClash;
  }

  lemma {:induction false} LooseRunInv(tr: seq<Sys>, k: nat)
    requires Run(tr, false) && k < |tr|
    ensures LooseInv(tr[k])
  {
    if k == 0 {
    } else {
      LooseRunInv(tr, k - 1);
      hide LooseInv, CanStep, Next;
      assert tr[k - 1 + 1] == tr[k];
      assert Follows(tr[k - 1], tr[k], false);
      var p, l :| CanStep(tr[k - 1], p, l) && tr[k] == Next(tr[k - 1], p, l);
      StepKeepsLooseInv(tr[k - 1], p, l);
    }
  }

  /** In every state of every run, whatever rereads fail, a handle lacks at most its read lock. */
  lemma AnyReachableInv(s: Sys)
    requires Reachable(s, false)
    ensures LooseInv(s)
  {
    var tr :| Run(tr, false) && tr[|tr| - 1] == s;
    LooseRunInv(tr, |tr| - 1);
    hide LooseInv;
  }

  // ---------------------------------------------------------------- theorems

  /** At every call of every run, exclusive ownership of the shared range comes with the PENDING byte of
  the same handle. */
  lemma ExclusiveRangeImpliesPending(s: Sys, p: Hid)
    requires Reachable(s, true) && p in s && s[p].shared == WriteLock
    ensures s[p].pending == WriteLock
  {
    ReachableInv(s);
    ExclusiveOwnsPending(s[p]);
  }

  /** The read lock dropped by winLock(), and the one winUnlock() takes back, are always granted. */
  lemma RereadAlwaysGranted(s: Sys, p: Hid, l: Label)
    requires Reachable(s, true) && p in s && Rereads(s[p])
    ensures CanStep(s, p, Call(true, false))
    ensures CanStep(s, p, l) && NoSpuriousReread(s, p, l) ==> l.Call? && l.ok
  {
    ReachableInv(s);
    RereadIsFree(s, p);
  }

  /** So a refused EXCLUSIVE request ends at PENDING, with the PENDING byte and the read lock. */
  lemma FailedExclusiveEndsPending(s: Sys, p: Hid, l: Label)
    requires Reachable(s, true) && p in s && s[p].pc.LkReread? && CanStep(s, p, l) && NoSpuriousReread(s, p, l)
    ensures var h := Next(s, p, l)[p];
      h.pc.Idle? && h.level == PENDING_LOCK && h.pending == WriteLock && h.shared == ReadLock
  {
    RereadAlwaysGranted(s, p, l);
    ReachableInv(s);
    assert HandleInv(s[p]);
  }

  /** A handle at EXCLUSIVE and not releasing excludes every level of every other handle that is not
  releasing. */
  lemma ExclusiveExcludes(s: Sys, p: Hid, q: Hid)
    requires Reachable(s, true) && p in s && q in s && p != q
    requires s[p].level == EXCLUSIVE_LOCK && !Releasing(s[p]) && !Releasing(s[q])
    ensures s[q].level == NO_LOCK
  {
    ReachableInv(s);
    assert HandleInv(s[p]) && HandleInv(s[q]) && NoClash(s[p], s[q]);
  }

  lemma OnePendingOrExclusive(s: Sys, p: Hid, q: Hid)
    requires Reachable(s, true) && p in s && q in s && !Releasing(s[p]) && !Releasing(s[q])
    requires s[p].level >= PENDING_LOCK && s[q].level >= PENDING_LOCK
    ensures p == q
  {
    ReachableInv(s);
    assert HandleInv(s[p]) && HandleInv(s[q]);
    if p != q {
      Pair(s, p, q);
    }
  }

  lemma OneReserved(s: Sys, p: Hid, q: Hid)
    requires Reachable(s, true) && p in s && q in s && !Releasing(s[p]) && !Releasing(s[q])
    requires s[p].level == RESERVED_LOCK && s[q].level == RESERVED_LOCK
    ensures p == q
  {
    ReachableInv(s);
    assert HandleInv(s[p]) && HandleInv(s[q]);
    if p != q {
      Pair(s, p, q);
    }
  }

  /** While one handle holds the PENDING byte, no other goes from NO_LOCK to a read lock. */
  lemma NoNewReaders(s: Sys, p: Hid, q: Hid, l: Label)
    requires Reachable(s, true) && p in s && q in s && p != q && s[p].pending == WriteLock
    requires CanStep(s, q, l) && s[q].level == NO_LOCK
    ensures Next(s, q, l)[q].level == NO_LOCK && Next(s, q, l)[q].shared == Unlocked
  {
    ReachableInv(s);
    assert HandleInv(s[q]) && NoClash(s[p], s[q]);
  }

  /** The last step to EXCLUSIVE is refused exactly while some other handle still holds the range. */
  lemma ExclusiveGrantedIff(s: Sys, p: Hid)
    requires Reachable(s, true) && p in s && s[p].pc.LkExclusive?
    ensures CanStep(s, p, Call(true, false)) <==> forall q :: q in s && q != p ==> s[q].shared == Unlocked
    ensures CanStep(s, p, Call(true, false)) ==> Next(s, p, Call(true, false))[p].level == EXCLUSIVE_LOCK
  {
    ReachableInv(s);
    assert HandleInv(s[p]);
    assert PartOf(s[p], SharedPart) == Unlocked;
    assert forall q :: q in s ==> PartOf(s[q], SharedPart) == s[q].shared;
  }

  /** A handle at SHARED that asks for RESERVED makes one call, which can be granted exactly if no other
  handle has the RESERVED byte; it is then at RESERVED with that byte. */
  lemma ReservedGrantedIff(s: Sys, p: Hid)
    requires Reachable(s, true) && p in s && s[p].pc.Idle? && s[p].level == SHARED_LOCK
    ensures CanStep(s, p, Lock(RESERVED_LOCK))
    ensures var t := Next(s, p, Lock(RESERVED_LOCK));
      && t == s[p := s[p].(pc := t[p].pc)] && !t[p].pc.Idle?
      && (CanStep(t, p, Call(true, false)) <==> forall q :: q in s && q != p ==> s[q].reserved == Unlocked)
      && (CanStep(t, p, Call(true, false)) ==>
        Next(t, p, Call(true, false))[p] == s[p].(level := RESERVED_LOCK, reserved := WriteLock))
  {
    ReachableInv(s);
    assert HandleInv(s[p]);
    var t := Next(s, p, Lock(RESERVED_LOCK));
    assert PartOf(t[p], ReservedPart) == Unlocked;
    assert forall q :: q in t ==> PartOf(t[q], ReservedPart) == s[q].reserved;
  }

  /** A handle at NO_LOCK that asks for SHARED first asks for the PENDING byte, which can be granted exactly
  if no other handle has it; and then nothing stands in the way of its other two calls. */
  lemma SharedGrantedIff(s: Sys, p: Hid)
    requires Reachable(s, true) && p in s && s[p].pc.Idle? && s[p].level == NO_LOCK
    ensures CanStep(s, p, Lock(SHARED_LOCK))
    ensures var yes := Call(true, false);
      var t := Next(s, p, Lock(SHARED_LOCK));
      && (CanStep(t, p, yes) <==> forall q :: q in s && q != p ==> s[q].pending == Unlocked)
      && (CanStep(t, p, yes) ==>
        var t1 := Next(t, p, yes);
        && CanStep(t1, p, yes)
        && var t2 := Next(t1, p, yes);
        && CanStep(t2, p, yes)
        && Next(t2, p, yes) == s[p := s[p].(level := SHARED_LOCK, shared := ReadLock)])
  {
    hide Enabled, Step, Issued, Refused, SysInv;
    ReachableInv(s);
    var yes := Call(true, false);
    FreshSteps(s, p);
    var t := s[p := s[p].(pc := LkPending(SHARED_LOCK, 2))];
    assert Next(s, p, Lock(SHARED_LOCK)) == t;
    PendingRefusedIff(s, p, t[p]);
    assert CanStep(t, p, yes) <==> !Refused(t, PendingPart, WriteLock);
    if CanStep(t, p, yes) {
      assert Next(t, p, yes) == s[p := s[p].(pending := WriteLock, pc := LkRead)];
      ThenReads(s, p);
    }
  }

  lemma PendingRefusedIff(s: Sys, p: Hid, h: Handle)
    requires p in s && h.pc.LkPending? && h.pending == Unlocked
    ensures Issued(h.pc) == LockFile(PendingPart, WriteLock)
    ensures Refused(s[p := h], PendingPart, WriteLock) <==> exists q :: q in s && q != p && s[q].pending != Unlocked
  {
    var t := s[p := h];
    assert forall q :: q in t ==> PartOf(t[q], PendingPart) == if q == p then Unlocked else s[q].pending;
    if q :| q in s && q != p && s[q].pending != Unlocked {
      assert Clash(PartOf(t[q], PendingPart), WriteLock);
    }
  }

  /** The calls after the PENDING byte is won. */
  lemma ThenReads(s: Sys, p: Hid)
    requires SysInv(s) && p in s && s[p].pc.Idle? && s[p].level == NO_LOCK
    requires forall q :: q in s && q != p ==> s[q].pending == Unlocked
    ensures var yes := Call(true, false);
      var t1 := s[p := s[p].(pending := WriteLock, pc := LkRead)];
      && CanStep(t1, p, yes)
      && var t2 := Next(t1, p, yes);
      && CanStep(t2, p, yes)
      && Next(t2, p, yes) == s[p := s[p].(level := SHARED_LOCK, shared := ReadLock)]
  {
    hide Enabled, Step;
    FreshSteps(s, p);
    NoWriterWithoutPending(s, p);
    hide SysInv;
    var yes := Call(true, false);
    var t1 := s[p := s[p].(pending := WriteLock, pc := LkRead)];
    assert forall q :: q in t1 ==> PartOf(t1[q], SharedPart) == s[q].shared;
    assert !Refused(t1, SharedPart, ReadLock);
    hide Refused;
    var t2 := Next(t1, p, yes);
    assert Next(t2, p, yes) == s[p := s[p].(level := SHARED_LOCK, shared := ReadLock)];
  }

  lemma FreshSteps(s: Sys, p: Hid)
    requires SysInv(s) && p in s && s[p].pc.Idle? && s[p].level == NO_LOCK
    ensures var h := s[p];
      var yes := Call(true, false);
      var h0 := h.(pc := LkPending(SHARED_LOCK, 2));
      var h1 := h.(pending := WriteLock, pc := LkRead);
      var h2 := h.(pending := WriteLock, shared := ReadLock, pc := LkDropPending(true));
      && h.pending == h.shared == Unlocked
      && Enabled(h, Lock(SHARED_LOCK)) && Step(h, Lock(SHARED_LOCK)) == h0
      && Enabled(h0, yes) && Step(h0, yes) == h1
      && Enabled(h1, yes) && Step(h1, yes) == h2
      && Enabled(h2, yes) && Step(h2, yes) == h.(level := SHARED_LOCK, shared := ReadLock)
  {
    assert HandleInv(s[p]);
  }

  lemma NoWriterWithoutPending(s: Sys, p: Hid)
    requires SysInv(s) && p in s && s[p].shared == Unlocked
    requires forall q :: q in s && q != p ==> s[q].pending == Unlocked
    ensures forall q :: q in s ==> s[q].shared != WriteLock
  {
    forall q | q in s
      ensures s[q].shared != WriteLock
    {
      if s[q].shared == WriteLock {
        ExclusiveOwnsPending(s[q]);
      }
    }
  }
}
