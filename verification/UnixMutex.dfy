/** MutexEnter(), MutexTryEnter() and MutexLeave() as they are written, for one thread.

Other threads may act between any two reads or writes; `RecursiveMutex` shows, of every reachable
state, that what they do is what `Interfere` allows. */
module UnixMutex {
  import opened RecursiveMutex

  /** What thread t may find after other threads have acted. */
  predicate Rely(t: Tid, m: Fields, n: Fields) {
    if m.raw == LockedBy(t) then n == m
    else n.raw != LockedBy(t) && n.owner != t && (n.raw.Open? ==> n == Fields(0, 0, Open))
  }

  /** A step of another thread is such an action. */
  lemma OthersRely(s: Sys, t: Tid, u: Tid, l: Label)
    requires Reachable(s) && t in s.threads && CanStep(s, u, l) && t != u
    ensures Rely(t, s.m, StepSys(s, u, l).m)
  {
    ReachableInv(s);
    StepKeepsInv(s, u, l);
    if s.m.raw == LockedBy(u) {
      InsideStep(s.m, s.threads[u], u, l);
    } else {
      OwnerInside(s, u);
      OutsideStep(s.m, s.threads[u], u, l);
    }
    hide Next, Inside, Outside, Enabled;
    if s.m.raw != LockedBy(t) {
      StillNotOwner(StepSys(s, u, l), t);
    }
  }

  lemma StillNotOwner(s: Sys, t: Tid)
    requires Inv(s) && t in s.threads && s.m.raw != LockedBy(t)
    ensures s.m.owner != t
  {
  }

  class Mutex {
    var refs: int
    var owner: Tid
    var raw: Raw

    function State(): Fields
      reads this
    {
      Fields(refs, owner, raw)
    }

    constructor ()
      ensures State() == Fields(0, 0, Open)
    {
      refs, owner, raw := 0, 0, Open;
    }

    /** How the mutex looks to a thread that has entered `depth` times. */
    predicate Seen(self: Tid, depth: nat)
      reads this
    {
      if depth > 0 then State() == Fields(depth, self, LockedBy(self))
      else raw != LockedBy(self) && owner != self && (raw.Open? ==> State() == Fields(0, 0, Open))
    }

    /** Anything other threads may do. */
    method Interfere(self: Tid)
      requires Rely(self, State(), State())
      modifies this
      ensures Rely(self, old(State()), State())
    {
      var n :| Rely(self, State(), n);
      refs, owner, raw := n.refs, n.owner, n.raw;
    }

    /** pthread_mutex_lock(): returns once the mutex was open. */
    method LockRaw(self: Tid)
      requires Seen(self, 0)
      modifies this
      ensures State() == Fields(0, 0, LockedBy(self))
    {
      refs, owner, raw := 0, 0, LockedBy(self);
    }

    /** pthread_mutex_trylock() */
    method TryLockRaw(self: Tid) returns (failed: bool)
      requires Seen(self, 0)
      modifies this
      ensures failed ==> State() == old(State()) && raw.LockedBy? && raw.t != self
      ensures !failed ==> State() == Fields(0, 0, LockedBy(self))
    {
      failed := raw.LockedBy?;
      if !failed {
        raw := LockedBy(self);
      }
    }

    /** The test whether the caller is inside: the count is read first, the owner only if it is not zero. */
    method HeldBySelf(self: Tid, ghost depth: nat) returns (held: bool)
      requires self != 0 && Seen(self, depth)
      modifies this
      ensures Seen(self, depth)
      ensures held <==> depth > 0
    {
      Interfere(self);
      var r := refs;
      if r == 0 {
        return false;
      }
      Interfere(self);
      held := owner == self;
    }

    /** MutexEnter() */
    method Enter(self: Tid, ghost depth: nat)
      requires self != 0 && Seen(self, depth)
      modifies this
      ensures Seen(self, depth + 1)
    {
      var held := HeldBySelf(self, depth);
      if held {
        var r := refs;
        Interfere(self);
        refs := r + 1;
      } else {
        LockRaw(self);
        assert refs == 0;
        owner := self;
        Interfere(self);
        refs := 1;
      }
    }

    /** MutexTryEnter(): true when another thread is inside. */
    method TryEnter(self: Tid, ghost depth: nat) returns (rc: bool)
      requires self != 0 && Seen(self, depth)
      modifies this
      ensures rc ==> Seen(self, depth) && depth == 0 && raw.LockedBy? && raw.t != self
      ensures !rc ==> Seen(self, depth + 1)
    {
      var held := HeldBySelf(self, depth);
      if held {
        var r := refs;
        Interfere(self);
        refs := r + 1;
        rc := false;
      } else {
        Interfere(self);
        rc := TryLockRaw(self);
        if !rc {
          assert refs == 0;
          owner := self;
          Interfere(self);
          refs := 1;
        }
      }
    }

    /** MutexLeave() */
    method Leave(self: Tid, ghost depth: nat)
      requires self != 0 && depth > 0 && Seen(self, depth)
      modifies this
      ensures Seen(self, depth - 1)
      ensures depth == 1 ==> State() == Fields(0, 0, Open)
    {
      assert refs != 0 && owner == self;
      var r := refs;
      Interfere(self);
      refs := r - 1;
      Interfere(self);
      r := refs;
      if r == 0 {
        owner := 0;
      }
      Interfere(self);
      r := refs;
      if r == 0 {
        raw := Open;
      }
    }
  }
}
