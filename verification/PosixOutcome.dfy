/** What unixLock() and posixUnlock() come to, told from the levels of the connections, the kernel's
answers, and the requests that are made; and that the steps of `PosixFile` come to that. */
module PosixOutcome {
  import opened Wrappers
  import opened PosixOs
  import opened LockLevels
  import opened PosixFile
  import opened PosixFileInv
  import opened PosixFileSteps
  import opened PosixAnswers

  // ---------------------------------------------------------------- the outcome of a lock request

  /** Another connection on the inode accounts for more than the level. */
  ghost predicate SiblingAbove(conns: map<Cid, Conn>, c: Cid, level: nat) {
    exists d :: d in conns && d != c && conns[d].eff > level
  }

  predicate AllYes(answers: seq<bool>) {
    forall k :: 0 <= k < |answers| ==> answers[k]
  }

  lemma AllYesMore(answers: seq<bool>, ok: bool)
    ensures AllYes(answers + [ok]) <==> AllYes(answers) && ok
  {
    var all := answers + [ok];
    assert all[|answers|] == ok;
    assert forall k :: 0 <= k < |answers| ==> all[k] == answers[k];
  }

  /** The requests of unixLock(), in order.  A request that the levels of the siblings decide makes none,
  the first reader of a process makes three unless the first is refused, and so on. */
  ghost function LockRequests(conns: map<Cid, Conn>, c: Cid, want: nat, answers: seq<bool>): seq<Request>
    requires c in conns
  {
    var had := conns[c].level;
    var yes := answers != [] && answers[0];
    if SiblingAbove(conns, c, had) then
      [] // a reader joins, anything else is refused
    else if want == SHARED_LOCK then
      var more := if yes then [SetLk(SharedRange, ReadLock), SetLk(PendingByte, Unlocked)] else [];
      [SetLk(PendingByte, ReadLock)] + more
    else if want == RESERVED_LOCK then
      [SetLk(ReservedByte, WriteLock)]
    else
      var first := if had < PENDING_LOCK then [SetLk(PendingByte, WriteLock)] else [];
      if SiblingAbove(conns, c, NO_LOCK) || (had < PENDING_LOCK && !yes) then first
      else first + [SetLk(SharedRange, WriteLock)]
  }

  /** The level a connection ends at. */
  ghost function LockLevel(conns: map<Cid, Conn>, c: Cid, want: nat, answers: seq<bool>): nat
    requires c in conns
  {
    var had := conns[c].level;
    if want == SHARED_LOCK then
      if SiblingAbove(conns, c, RESERVED_LOCK) || !AllYes(answers) then had else SHARED_LOCK
    else if SiblingAbove(conns, c, had) then had
    else if want == RESERVED_LOCK then
      if AllYes(answers) then RESERVED_LOCK else had
    else if had < PENDING_LOCK && (answers == [] || !answers[0]) then had
    else if SiblingAbove(conns, c, NO_LOCK) || !AllYes(answers) then PENDING_LOCK
    else EXCLUSIVE_LOCK
  }

  /** What a process holds after the requests are answered; in exclusive mode one write-lock on the shared
  range, taken at the first of them, stands for all. */
  ghost function Made(excl: bool, locked: bool, h: Held, requests: seq<Request>, answers: seq<bool>): Held
    requires |requests| == |answers|
    decreases |requests|
  {
    if requests == [] then h
    else
      var r := if !excl then requests[0] else if !locked then SetLk(SharedRange, WriteLock) else NoRequest;
      Made(excl, locked || (excl && answers[0]), if answers[0] && r.SetLk? then Apply(h, r.range, r.mode) else h,
        requests[1..], answers[1..])
  }

  /** unixLock(): the requests are those, the level is that, and nothing else is held. */
  ghost predicate LockOutcome(p: Proc, h: Held, c: Cid, want: nat, answers: seq<bool>, got: nat, h': Held)
    requires c in p.conns
  {
    var requests := LockRequests(p.conns, c, want, answers);
    && |answers| == |requests|
    && got == LockLevel(p.conns, c, want, answers)
    && h' == Made(p.excl, p.processLock, h, requests, answers)
  }

  // ---------------------------------------------------------------- one call at a time

  ghost predicate Ends(s: Point, answers: seq<bool>, t: Point) {
    AfterAnswers(s, answers) == Some(t) && t.p.pc.Idle?
  }

  ghost function Answered(s: Point, ok: bool): Point
    requires Enabled(s.p, Call(ok))
  {
    Point(StepProc(s.p, Call(ok)), StepHeld(s.p, s.h, Call(ok)))
  }

  lemma {:induction false} FirstAnswer(s: Point, answers: seq<bool>)
    requires answers != [] && AfterAnswers(s, answers).Some?
    ensures Enabled(s.p, Call(answers[0]))
    ensures AfterAnswers(Answered(s, answers[0]), answers[1..]) == AfterAnswers(s, answers)
  {
    hide Enabled, StepProc, StepHeld;
    var n := |answers| - 1;
    if n == 0 {
      assert answers[..0] == [];
      assert answers[1..] == [];
    } else {
      FirstAnswer(s, answers[..n]);
      assert answers[..n][1..] == answers[1..][..n - 1];
      assert answers[1..][n - 1] == answers[n];
    }
  }

  lemma Stops(s: Point, answers: seq<bool>, t: Point)
    requires Ends(s, answers, t) && s.p.pc.Idle?
    ensures answers == [] && t == s
  {
    if answers != [] {
      FirstAnswer(s, answers);
    }
  }

  lemma GoesOn(s: Point, answers: seq<bool>, t: Point)
    requires Ends(s, answers, t) && !s.p.pc.Idle?
    ensures answers != [] && Enabled(s.p, Call(answers[0]))
    ensures Ends(Answered(s, answers[0]), answers[1..], t)
  {
    if answers != [] {
      FirstAnswer(s, answers);
    }
  }

  /** What a call does to the kernel's locks, if the code behind it closes nothing. */
  ghost function HeldIs(p: Proc, h: Held, r: Request, ok: bool): Held {
    var q := UnixFileLock(p, r);
    if ok && q.SetLk? then Apply(h, q.range, q.mode) else h
  }

  lemma AnsweredIs(s: Point, r: Request, ok: bool, q: Proc)
    requires Enabled(s.p, Call(ok)) && Wanted(s.p.pc) == r && AfterCall(s.p, ok) == q && q.closed == s.p.closed
    ensures Answered(s, ok) == Point(q, HeldIs(s.p, s.h, r, ok))
  {
    hide AfterCall;
  }

  lemma MadeFirst(p: Proc, h: Held, ok: bool, r: Request, requests: seq<Request>, answers: seq<bool>)
    requires |requests| == |answers|
    ensures Made(p.excl, p.processLock, h, [r] + requests, [ok] + answers) ==
      Made(p.excl, p.processLock || (p.excl && ok), HeldIs(p, h, r, ok), requests, answers)
  {
    assert ([r] + requests)[1..] == requests && ([ok] + answers)[1..] == answers;
  }

  // ---------------------------------------------------------------- unixLock, path by path

  lemma PendingReadIs(s: Point, c: Cid, ok: bool)
    requires s.p.pc == LkPendingRead(c) && c in s.p.conns && Enabled(s.p, Call(ok))
    ensures Answered(s, ok) ==
      Point(WithProcessLock(s.p, ok).(pc := if ok then LkSharedRead(c) else Idle),
        HeldIs(s.p, s.h, SetLk(PendingByte, ReadLock), ok))
  {
    hide AfterCall, Enabled;
    AfterProcessLock(s.p, ok);
    AfterPendingRead(WithProcessLock(s.p, ok), c, ok);
    AnsweredIs(s, SetLk(PendingByte, ReadLock), ok, AfterCall(s.p, ok));
  }

  lemma SharedReadIs(s: Point, c: Cid, ok: bool)
    requires s.p.pc == LkSharedRead(c) && c in s.p.conns && Enabled(s.p, Call(ok))
    ensures Answered(s, ok) ==
      Point(WithProcessLock(s.p, ok).(pc := LkDropPending(c, ok)), HeldIs(s.p, s.h, SetLk(SharedRange, ReadLock), ok))
  {
    hide AfterCall, Enabled;
    AfterProcessLock(s.p, ok);
    AfterSharedRead(WithProcessLock(s.p, ok), c, ok);
    AnsweredIs(s, SetLk(SharedRange, ReadLock), ok, AfterCall(s.p, ok));
  }

  lemma DropPendingIs(s: Point, c: Cid, got: bool, ok: bool)
    requires s.p.pc == LkDropPending(c, got) && c in s.p.conns && Enabled(s.p, Call(ok))
    ensures var t := Answered(s, ok);
      && t.p.pc == Idle && c in t.p.conns
      && t.p.conns[c].level == (if ok && got then SHARED_LOCK else s.p.conns[c].level)
      && t.h == HeldIs(s.p, s.h, SetLk(PendingByte, Unlocked), ok)
  {
    hide AfterCall, Enabled;
    AfterProcessLock(s.p, ok);
    AfterDropPending(WithProcessLock(s.p, ok), c, got, ok);
    AnsweredIs(s, SetLk(PendingByte, Unlocked), ok, AfterCall(s.p, ok));
  }

  /** The first reader of a process, once the PENDING byte is read-locked. */
  lemma SharedRange2(s: Point, c: Cid, answers: seq<bool>, t: Point)
    requires Ends(s, answers, t) && s.p.pc == LkSharedRead(c) && c in s.p.conns && s.p.conns[c].level == NO_LOCK
    ensures |answers| == 2 && c in t.p.conns
    ensures t.p.conns[c].level == if AllYes(answers) then SHARED_LOCK else NO_LOCK
    ensures t.h == Made(s.p.excl, s.p.processLock, s.h,
      [SetLk(SharedRange, ReadLock), SetLk(PendingByte, Unlocked)], answers)
  {
    hide Ends, Enabled, HeldIs, Made;
    GoesOn(s, answers, t);
    var s1 := Answered(s, answers[0]);
    SharedReadIs(s, c, answers[0]);
    GoesOn(s1, answers[1..], t);
    var s2 := Answered(s1, answers[1..][0]);
    DropPendingIs(s1, c, answers[0], answers[1..][0]);
    Stops(s2, answers[1..][1..], t);
    assert answers == [answers[0]] + [answers[1]];
    assert [SetLk(SharedRange, ReadLock)] + [SetLk(PendingByte, Unlocked)] ==
      [SetLk(SharedRange, ReadLock), SetLk(PendingByte, Unlocked)];
    MadeFirst(s.p, s.h, answers[0], SetLk(SharedRange, ReadLock), [SetLk(PendingByte, Unlocked)], [answers[1]]);
    assert [answers[1]] + [] == [answers[1]] && [SetLk(PendingByte, Unlocked)] + [] == [SetLk(PendingByte, Unlocked)];
    MadeFirst(s1.p, s1.h, answers[1], SetLk(PendingByte, Unlocked), [], []);
    MadeNothing(s1.p.excl, s1.p.processLock || (s1.p.excl && answers[1]), s2.h);
  }

  lemma MadeNothing(excl: bool, locked: bool, h: Held)
    ensures Made(excl, locked, h, [], []) == h
  {
  }

  lemma FreshShared(s: Point, c: Cid, answers: seq<bool>, t: Point)
    requires Ends(s, answers, t) && s.p.pc == LkPendingRead(c) && c in s.p.conns && s.p.conns[c].level == NO_LOCK
    ensures answers != [] && c in t.p.conns
    ensures t.p.conns[c].level == if AllYes(answers) then SHARED_LOCK else NO_LOCK
    ensures var more := if answers[0] then [SetLk(SharedRange, ReadLock), SetLk(PendingByte, Unlocked)] else [];
      var requests := [SetLk(PendingByte, ReadLock)] + more;
      |answers| == |requests| && t.h == Made(s.p.excl, s.p.processLock, s.h, requests, answers)
  {
    hide Ends, Enabled, HeldIs, Made;
    GoesOn(s, answers, t);
    var ok, rest := answers[0], answers[1..];
    assert answers == [ok] + rest;
    var s1 := Answered(s, ok);
    PendingReadIs(s, c, ok);
    if ok {
      SharedRange2(s1, c, rest, t);
      var more := [SetLk(SharedRange, ReadLock), SetLk(PendingByte, Unlocked)];
      MadeFirst(s.p, s.h, ok, SetLk(PendingByte, ReadLock), more, rest);
    } else {
      Stops(s1, rest, t);
      MadeFirst(s.p, s.h, ok, SetLk(PendingByte, ReadLock), [], []);
      MadeNothing(s.p.excl, s.p.processLock, s1.h);
    }
  }

  lemma ReservedIs(s: Point, c: Cid, ok: bool)
    requires s.p.pc == LkReserved(c) && c in s.p.conns && Enabled(s.p, Call(ok))
    ensures var t := Answered(s, ok);
      && t.p.pc == Idle && c in t.p.conns
      && t.p.conns[c].level == (if ok then RESERVED_LOCK else s.p.conns[c].level)
      && t.h == HeldIs(s.p, s.h, SetLk(ReservedByte, WriteLock), ok)
  {
    hide AfterCall, Enabled;
    AfterProcessLock(s.p, ok);
    AfterReserved(WithProcessLock(s.p, ok), c, ok);
    AnsweredIs(s, SetLk(ReservedByte, WriteLock), ok, AfterCall(s.p, ok));
  }

  lemma ExclusiveIs(s: Point, c: Cid, ok: bool)
    requires s.p.pc == LkExclusive(c) && c in s.p.conns && Enabled(s.p, Call(ok))
    ensures var t := Answered(s, ok);
      && t.p.pc == Idle && c in t.p.conns
      && t.p.conns[c].level == (if ok then EXCLUSIVE_LOCK else PENDING_LOCK)
      && t.h == HeldIs(s.p, s.h, SetLk(SharedRange, WriteLock), ok)
  {
    hide AfterCall, Enabled;
    AfterProcessLock(s.p, ok);
    AfterExclusive(WithProcessLock(s.p, ok), c, ok);
    AnsweredIs(s, SetLk(SharedRange, WriteLock), ok, AfterCall(s.p, ok));
  }

  lemma PendingWriteIs(s: Point, c: Cid, ok: bool)
    requires s.p.pc == LkPendingWrite(c) && c in s.p.conns && Enabled(s.p, Call(ok))
    ensures var t := Answered(s, ok);
      && c in t.p.conns && t.p.excl == s.p.excl && t.p.processLock == (s.p.processLock || (s.p.excl && ok))
      && t.p.pc == (if ok && s.p.nShared <= 1 then LkExclusive(c) else Idle)
      && t.p.conns[c].level == (if ok && s.p.nShared > 1 then PENDING_LOCK else s.p.conns[c].level)
      && t.h == HeldIs(s.p, s.h, SetLk(PendingByte, WriteLock), ok)
  {
    hide AfterCall, Enabled;
    AfterProcessLock(s.p, ok);
    AfterPendingWrite(WithProcessLock(s.p, ok), c, ok);
    AnsweredIs(s, SetLk(PendingByte, WriteLock), ok, AfterCall(s.p, ok));
  }

  lemma OneRequest(s: Point, answers: seq<bool>, t: Point, r: Request)
    requires Ends(s, answers, t) && !s.p.pc.Idle?
    requires forall ok :: Enabled(s.p, Call(ok)) ==>
      Answered(s, ok).p.pc.Idle? && Answered(s, ok).h == HeldIs(s.p, s.h, r, ok)
    ensures |answers| == 1 && Enabled(s.p, Call(answers[0])) && t == Answered(s, answers[0])
    ensures t.h == Made(s.p.excl, s.p.processLock, s.h, [r], answers)
  {
    hide Ends, Enabled, HeldIs, Made;
    GoesOn(s, answers, t);
    var ok := answers[0];
    Stops(Answered(s, ok), answers[1..], t);
    assert answers == [ok] + [];
    MadeFirst(s.p, s.h, ok, r, [], []);
    MadeNothing(s.p.excl, s.p.processLock || (s.p.excl && ok), HeldIs(s.p, s.h, r, ok));
    assert [r] + [] == [r];
  }

  lemma ReservedPath(s: Point, c: Cid, answers: seq<bool>, t: Point)
    requires Ends(s, answers, t) && s.p.pc == LkReserved(c) && c in s.p.conns
    ensures |answers| == 1 && c in t.p.conns
    ensures t.p.conns[c].level == if AllYes(answers) then RESERVED_LOCK else s.p.conns[c].level
    ensures t.h == Made(s.p.excl, s.p.processLock, s.h, [SetLk(ReservedByte, WriteLock)], answers)
  {
    hide Ends, Enabled, HeldIs, Made, Answered;
    forall ok | Enabled(s.p, Call(ok))
      ensures Answered(s, ok).p.pc.Idle? && Answered(s, ok).h == HeldIs(s.p, s.h, SetLk(ReservedByte, WriteLock), ok)
    {
      ReservedIs(s, c, ok);
    }
    OneRequest(s, answers, t, SetLk(ReservedByte, WriteLock));
    ReservedIs(s, c, answers[0]);
  }

  lemma ExclusivePath(s: Point, c: Cid, answers: seq<bool>, t: Point)
    requires Ends(s, answers, t) && s.p.pc == LkExclusive(c) && c in s.p.conns
    ensures |answers| == 1 && c in t.p.conns
    ensures t.p.conns[c].level == if AllYes(answers) then EXCLUSIVE_LOCK else PENDING_LOCK
    ensures t.h == Made(s.p.excl, s.p.processLock, s.h, [SetLk(SharedRange, WriteLock)], answers)
  {
    hide Ends, Enabled, HeldIs, Made, Answered;
    forall ok | Enabled(s.p, Call(ok))
      ensures Answered(s, ok).p.pc.Idle? && Answered(s, ok).h == HeldIs(s.p, s.h, SetLk(SharedRange, WriteLock), ok)
    {
      ExclusiveIs(s, c, ok);
    }
    OneRequest(s, answers, t, SetLk(SharedRange, WriteLock));
    ExclusiveIs(s, c, answers[0]);
  }

  lemma PendingPath(s: Point, c: Cid, answers: seq<bool>, t: Point)
    requires Ends(s, answers, t) && s.p.pc == LkPendingWrite(c) && c in s.p.conns
    ensures answers != [] && c in t.p.conns
    ensures t.p.conns[c].level ==
      if !answers[0] then s.p.conns[c].level
      else if s.p.nShared > 1 || !AllYes(answers) then PENDING_LOCK
      else EXCLUSIVE_LOCK
    ensures var more := if answers[0] && s.p.nShared <= 1 then [SetLk(SharedRange, WriteLock)] else [];
      var requests := [SetLk(PendingByte, WriteLock)] + more;
      |answers| == |requests| && t.h == Made(s.p.excl, s.p.processLock, s.h, requests, answers)
  {
    hide Ends, Enabled, HeldIs, Made;
    GoesOn(s, answers, t);
    var ok, rest := answers[0], answers[1..];
    assert answers == [ok] + rest;
    var s1 := Answered(s, ok);
    PendingWriteIs(s, c, ok);
    if ok && s.p.nShared <= 1 {
      ExclusivePath(s1, c, rest, t);
      MadeFirst(s.p, s.h, ok, SetLk(PendingByte, WriteLock), [SetLk(SharedRange, WriteLock)], rest);
    } else {
      Stops(s1, rest, t);
      MadeFirst(s.p, s.h, ok, SetLk(PendingByte, WriteLock), [], []);
      MadeNothing(s1.p.excl, s1.p.processLock, s1.h);
    }
  }

  // ---------------------------------------------------------------- unixLock

  /** The inode's level and its reader count tell what the siblings have. */
  lemma SiblingFacts(p: Proc, h: Held, c: Cid)
    requires ProcInv(p, h) && p.pc == Idle && c in p.conns && p.conns[c].phase == Ready
    ensures p.conns[c].level == p.conns[c].eff <= p.il
    ensures forall level: nat :: p.conns[c].level <= level ==> (SiblingAbove(p.conns, c, level) <==> p.il > level)
    ensures p.conns[c].level >= SHARED_LOCK ==> (SiblingAbove(p.conns, c, NO_LOCK) <==> p.nShared > 1)
  {
    assert PhaseOk(p.pc, c, p.conns[c]);
    var w :| WriterIs(p, w);
    forall level: nat | p.conns[c].level <= level
      ensures SiblingAbove(p.conns, c, level) <==> p.il > level
    {
      HighestIs(p, h, c, level);
    }
    if p.conns[c].level >= SHARED_LOCK {
      OtherReaders(p, c);
    }
  }

  lemma HighestIs(p: Proc, h: Held, c: Cid, level: nat)
    requires ProcInv(p, h) && p.pc == Idle && c in p.conns && p.conns[c].eff <= level
    ensures SiblingAbove(p.conns, c, level) <==> p.il > level
  {
    var w :| WriterIs(p, w);
    if p.il > level {
      if p.il > SHARED_LOCK {
        assert w != c;
      } else {
        assert Members(p) != {};
        var d :| d in Members(p);
        assert d != c;
      }
    }
  }

  lemma OtherReaders(p: Proc, c: Cid)
    requires Counters(p) && c in p.conns && p.conns[c].eff >= SHARED_LOCK
    ensures SiblingAbove(p.conns, c, NO_LOCK) <==> p.nShared > 1
  {
    assert c in Members(p);
    assert |Members(p) - {c}| == p.nShared - 1;
    if p.nShared > 1 {
      var d :| d in Members(p) - {c};
    }
    if SiblingAbove(p.conns, c, NO_LOCK) {
      var d :| d in p.conns && d != c && p.conns[d].eff > NO_LOCK;
      assert d in Members(p) - {c};
    }
  }

  /** What `SiblingFacts` says of a connection. */
  ghost predicate SiblingsSeen(p: Proc, c: Cid)
    requires c in p.conns
  {
    && (forall level: nat :: p.conns[c].level <= level ==> (SiblingAbove(p.conns, c, level) <==> p.il > level))
    && (p.conns[c].level >= SHARED_LOCK ==> (SiblingAbove(p.conns, c, NO_LOCK) <==> p.nShared > 1))
    && p.conns[c].level <= p.il
  }

  lemma Decided(p: Proc, h: Held, c: Cid, want: nat, answers: seq<bool>, t: Point)
    requires MayLock(p, c, want) && p.conns[c].level < want && SiblingsSeen(p, c)
    requires SiblingAbove(p.conns, c, p.conns[c].level) && Ends(Point(LockEnter(p, c, want), h), answers, t)
    ensures c in t.p.conns && LockOutcome(p, h, c, want, answers, t.p.conns[c].level, t.h)
  {
    hide Ends, Made, SiblingAbove;
    Stops(Point(LockEnter(p, c, want), h), answers, t);
    MadeNothing(p.excl, p.processLock, h);
  }

  lemma AskedForExclusive(p: Proc, h: Held, c: Cid, answers: seq<bool>, t: Point)
    requires MayLock(p, c, EXCLUSIVE_LOCK) && SHARED_LOCK <= p.conns[c].level < EXCLUSIVE_LOCK && SiblingsSeen(p, c)
    requires !SiblingAbove(p.conns, c, p.conns[c].level) && Ends(Point(LockEnter(p, c, EXCLUSIVE_LOCK), h), answers, t)
    ensures c in t.p.conns && LockOutcome(p, h, c, EXCLUSIVE_LOCK, answers, t.p.conns[c].level, t.h)
  {
    hide Ends, Made, SiblingAbove;
    var s := Point(LockEnter(p, c, EXCLUSIVE_LOCK), h);
    if p.conns[c].level < PENDING_LOCK {
      PendingPath(s, c, answers, t);
      assert [SetLk(PendingByte, WriteLock)] + [] == [SetLk(PendingByte, WriteLock)];
    } else if p.nShared > 1 {
      Stops(s, answers, t);
      MadeNothing(p.excl, p.processLock, h);
    } else {
      ExclusivePath(s, c, answers, t);
      assert [] + [SetLk(SharedRange, WriteLock)] == [SetLk(SharedRange, WriteLock)];
    }
  }

  lemma AskedForLess(p: Proc, h: Held, c: Cid, want: nat, answers: seq<bool>, t: Point)
    requires MayLock(p, c, want) && p.conns[c].level < want <= RESERVED_LOCK && SiblingsSeen(p, c)
    requires !SiblingAbove(p.conns, c, p.conns[c].level) && Ends(Point(LockEnter(p, c, want), h), answers, t)
    ensures c in t.p.conns && LockOutcome(p, h, c, want, answers, t.p.conns[c].level, t.h)
  {
    hide Ends, Made, SiblingAbove;
    if want == SHARED_LOCK {
      FreshShared(Point(LockEnter(p, c, want), h), c, answers, t);
    } else {
      ReservedPath(Point(LockEnter(p, c, want), h), c, answers, t);
    }
  }

  /** The steps of unixLock() come to `LockOutcome`. */
  lemma LockOutcomeIs(p: Proc, h: Held, c: Cid, want: nat, answers: seq<bool>, t: Point)
    requires ProcInv(p, h) && MayLock(p, c, want) && p.conns[c].level < want
    requires Ends(Point(LockEnter(p, c, want), h), answers, t)
    ensures c in t.p.conns && LockOutcome(p, h, c, want, answers, t.p.conns[c].level, t.h)
  {
    hide Ends, LockOutcome, SiblingAbove, LockEnter;
    SiblingFacts(p, h, c);
    hide ProcInv;
    if SiblingAbove(p.conns, c, p.conns[c].level) {
      Decided(p, h, c, want, answers, t);
    } else if want == EXCLUSIVE_LOCK {
      AskedForExclusive(p, h, c, answers, t);
    } else {
      AskedForLess(p, h, c, want, answers, t);
    }
  }

  // ---------------------------------------------------------------- the outcome of an unlock

  /** The last reader of the process leaves: the whole file is unlocked. */
  ghost predicate LastLeaves(conns: map<Cid, Conn>, c: Cid, target: nat, answers: seq<bool>)
    requires c in conns
  {
    && target == NO_LOCK < conns[c].level && !SiblingAbove(conns, c, NO_LOCK)
    && (conns[c].level > SHARED_LOCK ==> answers != [] && answers[0])
  }

  /** The requests of posixUnlock(), in order. */
  ghost function UnlockRequests(conns: map<Cid, Conn>, c: Cid, target: nat, answers: seq<bool>): seq<Request>
    requires c in conns
  {
    var had := conns[c].level;
    var drop := SetLk(PendingAndReserved, Unlocked);
    var last := if LastLeaves(conns, c, target, answers) then [SetLk(WholeFile, Unlocked)] else [];
    if had <= target then []
    else if had == SHARED_LOCK then last
    else if target == NO_LOCK then [drop] + last
    else [SetLk(SharedRange, ReadLock)] + if answers != [] && answers[0] then [drop] else []
  }

  /** The level a connection ends at: the target if all went well, and NO_LOCK also if only the unlock of
  the whole file failed. */
  ghost function UnlockLevel(conns: map<Cid, Conn>, c: Cid, target: nat, answers: seq<bool>): nat
    requires c in conns
  {
    if conns[c].level <= target then conns[c].level
    else if AllYes(answers) || LastLeaves(conns, c, target, answers) then target
    else conns[c].level
  }

  /** The descriptors that waited for the last lock to go are closed, outside exclusive mode. */
  ghost function ClosedBy(p: Proc, c: Cid, target: nat, answers: seq<bool>): set<Fd>
    requires c in p.conns
  {
    if LastLeaves(p.conns, c, target, answers) && !p.excl then FdSet(p.unused) else {}
  }

  /** posixUnlock(): the requests are those, it succeeds exactly if all are granted, and only what waited
  for the last lock is closed. */
  ghost predicate UnlockOutcome(p: Proc, h: Held, c: Cid, target: nat, answers: seq<bool>, ok: bool, got: nat,
    h': Held, closed': set<Fd>)
    requires c in p.conns
  {
    var requests := UnlockRequests(p.conns, c, target, answers);
    && |answers| == |requests| && (ok <==> AllYes(answers))
    && got == UnlockLevel(p.conns, c, target, answers)
    && closed' == p.closed + ClosedBy(p, c, target, answers)
    && h' == if ClosedBy(p, c, target, answers) != {} then NO_LOCKS
             else Made(p.excl, p.processLock, h, requests, answers)
  }

  // ---------------------------------------------------------------- posixUnlock, path by path

  lemma ReadAllIs(s: Point, c: Cid, ok: bool)
    requires s.p.pc == UlReadAll(c) && c in s.p.conns && Enabled(s.p, Call(ok)) && (s.p.excl ==> s.p.processLock)
    ensures Answered(s, ok) == Point(
      if ok then s.p.(pc := UlPendingReserved(c, SHARED_LOCK)) else SetConn(s.p, c, Failed(s.p.conns[c])).(pc := Idle),
      HeldIs(s.p, s.h, SetLk(SharedRange, ReadLock), ok))
  {
    hide AfterCall, Enabled;
    AfterReadAll(s.p, c, ok);
    AnsweredIs(s, SetLk(SharedRange, ReadLock), ok, AfterCall(s.p, ok));
  }

  lemma DroppedIs(s: Point, c: Cid, target: nat, ok: bool)
    requires s.p.pc == UlPendingReserved(c, target) && c in s.p.conns && Enabled(s.p, Call(ok))
    requires s.p.excl ==> s.p.processLock
    ensures Answered(s, ok) == Point(
      if ok then LeaveOrStay(Lowered(s.p, c), c, target) else SetConn(s.p, c, Failed(s.p.conns[c])).(pc := Idle),
      HeldIs(s.p, s.h, SetLk(PendingAndReserved, Unlocked), ok))
  {
    hide AfterCall, Enabled;
    AfterPendingReserved(s.p, c, target, ok);
    AnsweredIs(s, SetLk(PendingAndReserved, Unlocked), ok, AfterCall(s.p, ok));
  }

  /** The last call of the last reader. */
  lemma WholeIs(s: Point, c: Cid, ok: bool)
    requires s.p.pc == UlWholeFile(c) && c in s.p.conns && Enabled(s.p, Call(ok)) && (s.p.excl <==> s.p.processLock)
    requires s.p.nLock == (if s.p.excl then 2 else 1) && s.p.conns[c].phase.Unlocking?
    requires FdSet(s.p.unused) !! s.p.closed
    ensures var t, closes := Answered(s, ok), if s.p.excl then {} else FdSet(s.p.unused);
      && t.p.pc == Idle && c in t.p.conns && (t.p.conns[c].phase.Released? <==> ok)
      && (ok ==> t.p.conns[c].phase.target == NO_LOCK) && (!ok ==> t.p.conns[c].level == NO_LOCK)
      && t.p.closed == s.p.closed + closes
      && t.h == if closes != {} then NO_LOCKS else HeldIs(s.p, s.h, SetLk(WholeFile, Unlocked), ok)
  {
    hide AfterCall, Enabled;
    AfterWholeFile(s.p, c, ok);
    var t, closes := AfterCall(s.p, ok), if s.p.excl then {} else FdSet(s.p.unused);
    assert t.closed == s.p.closed + closes;
    assert t.closed - s.p.closed == closes;
    WholeHeld(s, ok);
  }

  lemma WholeHeld(s: Point, ok: bool)
    requires Enabled(s.p, Call(ok)) && s.p.pc.UlWholeFile?
    ensures Answered(s, ok).p == AfterCall(s.p, ok)
    ensures Answered(s, ok).h ==
      HeldAfterClose(HeldIs(s.p, s.h, SetLk(WholeFile, Unlocked), ok), AfterCall(s.p, ok).closed - s.p.closed)
  {
    hide AfterCall;
  }

  /** Facts about a connection in the middle of an unlock, at the step it is at. */
  ghost predicate Leaving(p: Proc, c: Cid) {
    && c in p.conns && p.conns[c].phase.Unlocking?
    && (p.excl <==> p.processLock)
    && p.nLock == p.nShared + (if p.excl then 1 else 0)
    && FdSet(p.unused) !! p.closed
  }

  /** The end of posixUnlock(NO_LOCK): nShared-- and, for the last reader, the last call. */
  lemma LeavePath(q: Proc, h: Held, c: Cid, answers: seq<bool>, t: Point)
    requires Leaving(q, c) && q.nShared >= 1 && Ends(Point(DropReader(q, c), h), answers, t)
    ensures c in t.p.conns
    ensures var last := q.nShared == 1;
      var requests := if last then [SetLk(WholeFile, Unlocked)] else [];
      var closes := if last && !q.excl then FdSet(q.unused) else {};
      && |answers| == |requests|
      && (t.p.conns[c].phase.Released? <==> AllYes(answers))
      && (t.p.conns[c].phase.Released? ==> t.p.conns[c].phase.target == NO_LOCK)
      && (!AllYes(answers) ==> t.p.conns[c].level == NO_LOCK)
      && t.p.closed == q.closed + closes
      && t.h == if closes != {} then NO_LOCKS else Made(q.excl, q.processLock, h, requests, answers)
  {
    hide Ends, Enabled, Made, HeldIs, FdSet;
    var s := Point(DropReader(q, c), h);
    if q.nShared == 1 {
      GoesOn(s, answers, t);
      var ok := answers[0];
      WholeIs(s, c, ok);
      Stops(Answered(s, ok), answers[1..], t);
      assert answers == [ok] + [];
      assert [SetLk(WholeFile, Unlocked)] + [] == [SetLk(WholeFile, Unlocked)];
      MadeFirst(s.p, h, ok, SetLk(WholeFile, Unlocked), [], []);
      MadeNothing(q.excl, q.processLock || (q.excl && ok), HeldIs(s.p, h, SetLk(WholeFile, Unlocked), ok));
      SameRule(s.p, q, h, ok);
    } else {
      Stops(s, answers, t);
      MadeNothing(q.excl, q.processLock, h);
    }
  }

  lemma SameRule(p: Proc, q: Proc, h: Held, ok: bool)
    requires p.excl == q.excl && p.processLock == q.processLock
    ensures HeldIs(p, h, SetLk(WholeFile, Unlocked), ok) == HeldIs(q, h, SetLk(WholeFile, Unlocked), ok)
  {
  }

  /** A writer that leaves for good: its bytes go first. */
  lemma WriterLeaves(s: Point, c: Cid, answers: seq<bool>, t: Point)
    requires Leaving(s.p, c) && s.p.nShared >= 1 && s.p.pc == UlPendingReserved(c, NO_LOCK) && Ends(s, answers, t)
    ensures answers != [] && c in t.p.conns
    ensures var last := answers[0] && s.p.nShared == 1;
      var requests := [SetLk(PendingAndReserved, Unlocked)] + if last then [SetLk(WholeFile, Unlocked)] else [];
      var closes := if last && !s.p.excl then FdSet(s.p.unused) else {};
      && |answers| == |requests|
      && (t.p.conns[c].phase.Released? <==> AllYes(answers))
      && (t.p.conns[c].phase.Released? ==> t.p.conns[c].phase.target == NO_LOCK)
      && (!AllYes(answers) ==> t.p.conns[c].level == if last then NO_LOCK else s.p.conns[c].level)
      && t.p.closed == s.p.closed + closes
      && t.h == if closes != {} then NO_LOCKS else Made(s.p.excl, s.p.processLock, s.h, requests, answers)
  {
    hide Ends, Enabled, Made, HeldIs, FdSet, DropReader;
    GoesOn(s, answers, t);
    var ok, rest := answers[0], answers[1..];
    assert answers == [ok] + rest;
    DroppedIs(s, c, NO_LOCK, ok);
    var s1 := Answered(s, ok);
    if ok {
      LeavePath(Lowered(s.p, c), s1.h, c, rest, t);
      MadeFirst(s.p, s.h, ok, SetLk(PendingAndReserved, Unlocked),
        if s.p.nShared == 1 then [SetLk(WholeFile, Unlocked)] else [], rest);
    } else {
      Stops(s1, rest, t);
      MadeFirst(s.p, s.h, ok, SetLk(PendingAndReserved, Unlocked), [], []);
      MadeNothing(s.p.excl, s.p.processLock || (s.p.excl && ok), s1.h);
    }
  }

  /** A writer that stays as a reader. */
  lemma WriterStays(s: Point, c: Cid, answers: seq<bool>, t: Point)
    requires Leaving(s.p, c) && s.p.pc == UlReadAll(c) && Ends(s, answers, t)
    ensures answers != [] && c in t.p.conns
    ensures var more := if answers[0] then [SetLk(PendingAndReserved, Unlocked)] else [];
      var requests := [SetLk(SharedRange, ReadLock)] + more;
      && |answers| == |requests|
      && (t.p.conns[c].phase.Released? <==> AllYes(answers))
      && (t.p.conns[c].phase.Released? ==> t.p.conns[c].phase.target == SHARED_LOCK)
      && t.p.conns[c].level == s.p.conns[c].level && t.p.closed == s.p.closed
      && t.h == Made(s.p.excl, s.p.processLock, s.h, requests, answers)
  {
    hide Ends, Enabled, Made, HeldIs, FdSet;
    GoesOn(s, answers, t);
    var ok, rest := answers[0], answers[1..];
    assert answers == [ok] + rest;
    ReadAllIs(s, c, ok);
    var s1 := Answered(s, ok);
    if ok {
      ReaderAtLast(s1, c, rest, t);
      MadeFirst(s.p, s.h, ok, SetLk(SharedRange, ReadLock), [SetLk(PendingAndReserved, Unlocked)], rest);
    } else {
      Stops(s1, rest, t);
      MadeFirst(s.p, s.h, ok, SetLk(SharedRange, ReadLock), [], []);
      MadeNothing(s.p.excl, s.p.processLock || (s.p.excl && ok), s1.h);
    }
  }

  lemma ReaderAtLast(s: Point, c: Cid, answers: seq<bool>, t: Point)
    requires Leaving(s.p, c) && s.p.pc == UlPendingReserved(c, SHARED_LOCK) && Ends(s, answers, t)
    ensures |answers| == 1 && c in t.p.conns
    ensures (t.p.conns[c].phase.Released? <==> AllYes(answers))
      && (t.p.conns[c].phase.Released? ==> t.p.conns[c].phase.target == SHARED_LOCK)
      && t.p.conns[c].level == s.p.conns[c].level && t.p.closed == s.p.closed
      && t.h == Made(s.p.excl, s.p.processLock, s.h, [SetLk(PendingAndReserved, Unlocked)], answers)
  {
    hide Ends, Enabled, Made, HeldIs, FdSet, Answered;
    var r := SetLk(PendingAndReserved, Unlocked);
    forall ok | Enabled(s.p, Call(ok))
      ensures Answered(s, ok).p.pc.Idle? && Answered(s, ok).h == HeldIs(s.p, s.h, r, ok)
    {
      DroppedIs(s, c, SHARED_LOCK, ok);
    }
    OneRequest(s, answers, t, r);
    DroppedIs(s, c, SHARED_LOCK, answers[0]);
  }

  // ---------------------------------------------------------------- posixUnlock

  /** What the levels and counters say at the start of an unlock. */
  lemma LeavingAtEntry(p: Proc, h: Held, c: Cid, target: nat, closing: bool)
    requires ProcInv(p, h) && MayUnlock(p, c, target, closing) && p.conns[c].level > target
    ensures p.nShared >= 1 && (SiblingAbove(p.conns, c, NO_LOCK) <==> p.nShared > 1)
    ensures Leaving(SetConn(p, c, p.conns[c].(phase := Unlocking(target, closing))), c)
  {
    SiblingFacts(p, h, c);
    assert PhaseOk(p.pc, c, p.conns[c]);
    assert c in Members(p);
    assert p.excl <==> p.processLock by {
      ReaderIsLocked(p, h);
    }
    forall f | f in FdSet(p.unused)
      ensures f !in p.closed
    {
      assert f in p.fds;
    }
  }

  lemma ReaderIsLocked(p: Proc, h: Held)
    requires Levels(p) && Backed(p, h) && p.pc == Idle && Members(p) != {}
    ensures p.excl <==> p.processLock
  {
  }

  /** The steps of posixUnlock() come to `UnlockOutcome`, whatever locks h the kernel really has. */
  lemma UnlockOutcomeIs(p: Proc, g: Held, h: Held, c: Cid, target: nat, closing: bool, answers: seq<bool>, t: Point)
    requires ProcInv(p, g) && MayUnlock(p, c, target, closing) && p.conns[c].level > target
    requires Ends(Point(UnlockEnter(p, c, target, closing), h), answers, t)
    ensures c in t.p.conns
    ensures t.p.conns[c].phase.Released? ==> t.p.conns[c].phase.target == target
    ensures var ok := t.p.conns[c].phase.Released?;
      UnlockOutcome(p, h, c, target, answers, ok, if ok then target else t.p.conns[c].level, t.h, t.p.closed)
  {
    hide Ends, Made, SiblingAbove, FdSet, DropReader, Leaving;
    LeavingAtEntry(p, g, c, target, closing);
    hide ProcInv;
    var q := SetConn(p, c, p.conns[c].(phase := Unlocking(target, closing)));
    var s := Point(UnlockEnter(p, c, target, closing), h);
    if p.conns[c].level == SHARED_LOCK {
      LeavePath(q, h, c, answers, t);
    } else if target == SHARED_LOCK {
      StillLeaving(q, c, UlReadAll(c));
      WriterStays(s, c, answers, t);
    } else {
      StillLeaving(q, c, UlPendingReserved(c, NO_LOCK));
      WriterLeaves(s, c, answers, t);
    }
  }

  lemma StillLeaving(p: Proc, c: Cid, pc: Pc)
    requires Leaving(p, c)
    ensures Leaving(p.(pc := pc), c)
  {
  }
}
