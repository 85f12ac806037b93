/** What happens when a read lock that is taken back is refused for no reason: the handle still reports
its level, and from then on another handle can become exclusive beside it. */
module WinScenario {
  import opened PosixOs
  import opened LockLevels
  import opened WinFile
  import opened WinSystem

  /** A run from its first state on, whatever rereads fail. */
  ghost predicate Path(tr: seq<Sys>) {
    |tr| > 0 && forall k :: 0 <= k < |tr| - 1 ==> Follows(tr[k], tr[k + 1], false)
  }

  function Last(tr: seq<Sys>): Sys
    requires |tr| > 0
  {
    tr[|tr| - 1]
  }

  /** Handle p takes one more step, which makes it h. */
  lemma Go(tr: seq<Sys>, p: Hid, l: Label, h: Handle) returns (more: seq<Sys>)
    requires Path(tr) && CanStep(Last(tr), p, l) && Step(Last(tr)[p], l) == h
    ensures Path(more) && more[0] == tr[0] && Last(more) == Last(tr)[p := h]
  {
    hide CanStep, Step;
    var s, t := Last(tr), Next(Last(tr), p, l);
    assert Follows(s, t, false);
    more := tr + [t];
    forall k | 0 <= k < |more| - 1
      ensures Follows(more[k], more[k + 1], false)
    {
      if k < |tr| - 1 {
        assert Follows(tr[k], tr[k + 1], false);
      }
    }
  }

  lemma PathReaches(tr: seq<Sys>)
    requires Path(tr) && Reachable(tr[0], false)
    ensures Reachable(Last(tr), false)
  {
    var run :| Run(run, false) && run[|run| - 1] == tr[0];
    var all := run + tr[1..];
    forall k | 0 <= k < |all| - 1
      ensures Follows(all[k], all[k + 1], false)
    {
      if k < |run| - 1 {
        assert Follows(run[k], run[k + 1], false);
      } else {
        assert Follows(tr[k - |run| + 1], tr[k - |run| + 2], false);
      }
    }
    assert Run(all, false) && all[|all| - 1] == Last(tr);
  }

  const YES := Call(true, false)
  const FRESH := Handle(NO_LOCK, Unlocked, Unlocked, Unlocked, Idle)
  const READER := Handle(SHARED_LOCK, Unlocked, Unlocked, ReadLock, Idle)
  const WRITER := Handle(EXCLUSIVE_LOCK, WriteLock, Unlocked, WriteLock, Idle)
  /** At SHARED, with nothing locked. */
  const BARE := Handle(SHARED_LOCK, Unlocked, Unlocked, Unlocked, Idle)

  /** Nobody but q has anything on the PENDING byte or the shared range. */
  ghost predicate Alone(s: Sys, q: Hid) {
    q in s && forall r :: r in s && r != q ==> s[r].pending == Unlocked && s[r].shared == Unlocked
  }

  lemma NotRefused(s: Sys, q: Hid, part: Part, m: Mode)
    requires Alone(s, q) && part != ReservedPart && !Clash(PartOf(s[q], part), m)
    ensures !Refused(s, part, m)
  {
  }

  /** One step of q while it is alone. */
  lemma GoAlone(tr: seq<Sys>, q: Hid, l: Label, h: Handle) returns (more: seq<Sys>)
    requires Path(tr) && Alone(Last(tr), q) && Enabled(Last(tr)[q], l) && Step(Last(tr)[q], l) == h
    requires l.Call? && l.ok && Issued(Last(tr)[q].pc).LockFile? ==>
      var r := Issued(Last(tr)[q].pc); r.part != ReservedPart && !Clash(PartOf(Last(tr)[q], r.part), r.mode)
    ensures Path(more) && more[0] == tr[0] && Last(more) == Last(tr)[q := h] && Alone(Last(more), q)
  {
    var s := Last(tr);
    if l.Call? && l.ok && Issued(s[q].pc).LockFile? {
      NotRefused(s, q, Issued(s[q].pc).part, Issued(s[q].pc).mode);
    }
    hide Refused, Step, Enabled;
    more := Go(tr, q, l, h);
  }

  lemma GetsShared(tr: seq<Sys>, q: Hid) returns (more: seq<Sys>)
    requires Path(tr) && Alone(Last(tr), q) && Last(tr)[q] == FRESH
    ensures Path(more) && more[0] == tr[0] && Last(more) == Last(tr)[q := READER] && Alone(Last(more), q)
  {
    hide Path, Alone;
    more := GoAlone(tr, q, Lock(SHARED_LOCK), Handle(NO_LOCK, Unlocked, Unlocked, Unlocked, LkPending(SHARED_LOCK, 2)));
    more := GoAlone(more, q, YES, Handle(NO_LOCK, WriteLock, Unlocked, Unlocked, LkRead));
    more := GoAlone(more, q, YES, Handle(NO_LOCK, WriteLock, Unlocked, ReadLock, LkDropPending(true)));
    more := GoAlone(more, q, YES, READER);
  }

  lemma GetsExclusive(tr: seq<Sys>, q: Hid) returns (more: seq<Sys>)
    requires Path(tr) && Alone(Last(tr), q) && Last(tr)[q] == FRESH
    ensures Path(more) && more[0] == tr[0] && Last(more) == Last(tr)[q := WRITER]
  {
    hide Path, Alone;
    more := GetsShared(tr, q);
    more := GoAlone(more, q, Lock(EXCLUSIVE_LOCK),
      Handle(SHARED_LOCK, Unlocked, Unlocked, ReadLock, LkPending(EXCLUSIVE_LOCK, 2)));
    more := GoAlone(more, q, YES, Handle(SHARED_LOCK, WriteLock, Unlocked, ReadLock, LkDropRead));
    more := GoAlone(more, q, YES, Handle(SHARED_LOCK, WriteLock, Unlocked, Unlocked, LkExclusive));
    more := GoAlone(more, q, YES, WRITER);
  }

  // ---------------------------------------------------------------- from a broken handle

  /** Handle p, between calls, reports a level without the read lock; q is unlocked between calls; no
  third handle has anything locked. */
  ghost predicate Exposed(s: Sys, p: Hid, q: Hid) {
    && p in s && q in s && p != q
    && s[p].pc.Idle? && Broken(s[p])
    && s[q].pc.Idle? && s[q].level == NO_LOCK
    && forall r :: r in s && r != p && r != q ==> s[r].pending == s[r].reserved == s[r].shared == Unlocked
  }

  lemma UnlockedIsFresh(h: Handle)
    requires Loose(h) && h.pc.Idle? && h.level == NO_LOCK
    ensures h == FRESH
  {
  }

  /** winUnlock(SHARED_LOCK) by a handle at PENDING without its read lock. */
  lemma ComesDown(tr: seq<Sys>, p: Hid) returns (more: seq<Sys>)
    requires Path(tr) && p in Last(tr) && Last(tr)[p].pc.Idle? && Last(tr)[p].level == PENDING_LOCK
    ensures Path(more) && more[0] == tr[0]
    ensures Last(more) == Last(tr)[p := Handle(SHARED_LOCK, Unlocked, Unlocked, Last(tr)[p].shared, Idle)]
  {
    var h := Last(tr)[p];
    hide Path;
    more := Go(tr, p, Unlock(SHARED_LOCK), h.(pc := UlReserved(SHARED_LOCK)));
    more := Go(more, p, YES, h.(reserved := Unlocked, pc := UlPending(SHARED_LOCK)));
    more := Go(more, p, YES, Handle(SHARED_LOCK, Unlocked, Unlocked, h.shared, Idle));
  }

  /** From every reachable state of this kind a run leads to a state in which q is at EXCLUSIVE while p is
  still at SHARED or above. */
  lemma BrokenHandleAdmitsExclusive(s: Sys, p: Hid, q: Hid) returns (tr: seq<Sys>)
    requires Reachable(s, false) && Exposed(s, p, q)
    ensures Path(tr) && tr[0] == s && Reachable(Last(tr), false)
    ensures p in Last(tr) && q in Last(tr)
    ensures Last(tr)[q].level == EXCLUSIVE_LOCK && !Releasing(Last(tr)[q])
    ensures Last(tr)[p].level >= SHARED_LOCK && !Releasing(Last(tr)[p])
    ensures Last(tr)[p].level == if s[p].level == PENDING_LOCK then SHARED_LOCK else s[p].level
  {
    AnyReachableInv(s);
    assert Loose(s[p]) && Loose(s[q]);
    UnlockedIsFresh(s[q]);
    BrokenLevels(s[p]);
    hide LooseInv, Loose, Reachable;
    tr := [s];
    if s[p].level == PENDING_LOCK {
      tr := ComesDown(tr, p);
    }
    assert Alone(Last(tr), q);
    hide Path;
    tr := GetsExclusive(tr, q);
    PathReaches(tr);
  }

  /** A broken handle is not at EXCLUSIVE, and has the PENDING byte only at PENDING. */
  lemma BrokenLevels(h: Handle)
    requires Loose(h) && h.pc.Idle? && Broken(h)
    ensures SHARED_LOCK <= h.level <= PENDING_LOCK
    ensures h.level < PENDING_LOCK ==> h.pending == Unlocked
  {
    BrokenIsNoInv(h);
  }

  // ---------------------------------------------------------------- how a handle breaks

  lemma Downgrades(tr: seq<Sys>, p: Hid) returns (more: seq<Sys>)
    requires Path(tr) && p in Last(tr) && Last(tr)[p] == WRITER
    ensures Path(more) && more[0] == tr[0] && Last(more) == Last(tr)[p := BARE]
  {
    hide Path;
    more := Go(tr, p, Unlock(SHARED_LOCK),
      Handle(EXCLUSIVE_LOCK, WriteLock, Unlocked, WriteLock, UlExclusive(SHARED_LOCK)));
    more := Go(more, p, YES, Handle(EXCLUSIVE_LOCK, WriteLock, Unlocked, Unlocked, UlReread(SHARED_LOCK)));
    more := Go(more, p, Call(false, false),
      Handle(EXCLUSIVE_LOCK, WriteLock, Unlocked, Unlocked, UlReserved(SHARED_LOCK)));
    more := Go(more, p, YES, Handle(EXCLUSIVE_LOCK, WriteLock, Unlocked, Unlocked, UlPending(SHARED_LOCK)));
    more := Go(more, p, YES, BARE);
  }

  const TWO: Sys := map[0 := FRESH, 1 := FRESH]

  lemma TwoReachable()
    ensures Reachable(TWO, false) && Path([TWO])
  {
    assert Run([TWO], false) && [TWO][0] == TWO;
  }

  /** With one spurious failure of a reread, a handle at SHARED and another at EXCLUSIVE coexist. */
  lemma SpuriousRereadBreaksExclusion() returns (s: Sys)
    ensures Reachable(s, false) && 0 in s && 1 in s
    ensures s[0].level == SHARED_LOCK && s[1].level == EXCLUSIVE_LOCK && !Releasing(s[0]) && !Releasing(s[1])
  {
    hide Reachable, Follows;
    TwoReachable();
    var tr := GetsExclusive([TWO], 0);
    tr := Downgrades(tr, 0);
    PathReaches(tr);
    assert Last(tr) == map[0 := BARE, 1 := FRESH];
    tr := BrokenHandleAdmitsExclusive(Last(tr), 0, 1);
    s := Last(tr);
  }
}
