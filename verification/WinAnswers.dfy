/** A handle of `WinFile` that gets the answers to its calls in order: whether its level then stands for
its locks, and what winLock() comes to. */
module WinAnswers {
  import opened Wrappers
  import opened PosixOs
  import opened LockLevels
  import opened WinFile

  /** The handle after the kernel has given the answers in order, if the calls are there to be made. */
  ghost function AfterAnswers(h: Handle, answers: seq<Label>): Option<Handle> {
    if answers == [] then Some(h)
    else
      var before := AfterAnswers(h, answers[..|answers| - 1]);
      var l := answers[|answers| - 1];
      if before.Some? && l.Call? && Enabled(before.value, l) then Some(Step(before.value, l)) else None
  }

  /** Answer k is about a read lock that is taken back. */
  ghost predicate RereadAt(h: Handle, answers: seq<Label>, k: nat)
    requires k < |answers|
  {
    var before := AfterAnswers(h, answers[..k]);
    before.Some? && Rereads(before.value)
  }

  /** No read lock that was taken back was refused. */
  ghost predicate NoRereadFailed(h: Handle, answers: seq<Label>) {
    forall k :: 0 <= k < |answers| && RereadAt(h, answers, k) && answers[k].Call? ==> answers[k].ok
  }

  lemma {:induction false} AnswersKeepInv(h: Handle, answers: seq<Label>)
    requires HandleInv(h) && NoRereadFailed(h, answers) && AfterAnswers(h, answers).Some?
    ensures HandleInv(AfterAnswers(h, answers).value)
  {
    if answers == [] {
    } else {
      var n := |answers| - 1;
      var front := answers[..n];
      SameRereads(h, answers);
      assert RereadAt(h, answers, n) ==> answers[n].ok;
      AnswersKeepInv(h, front);
      hide HandleInv, Step;
      StepKeepsHandle(AfterAnswers(h, front).value, answers[n]);
    }
  }

  /** Once a reread is refused the handle is broken, to the end of the call. */
  lemma {:induction false} AnswersBreak(h: Handle, answers: seq<Label>)
    requires HandleInv(h) && !NoRereadFailed(h, answers) && AfterAnswers(h, answers).Some?
    ensures Broken(AfterAnswers(h, answers).value)
  {
    hide HandleInv, Enabled, Broken, Rereads, Step;
    if answers == [] {
    } else {
      var n := |answers| - 1;
      var front := answers[..n];
      SameRereads(h, answers);
      var before := AfterAnswers(h, front).value;
      if NoRereadFailed(h, front) {
        AnswersKeepInv(h, front);
        assert RereadAt(h, answers, n) && !answers[n].ok;
        RefusedRereadBreaks(before, answers[n].invalid);
      } else {
        AnswersBreak(h, front);
        CallKeepsBroken(before, answers[n].ok, answers[n].invalid);
      }
      CallIs(before, answers[n]);
    }
  }

  lemma CallIs(h: Handle, l: Label)
    requires l.Call? && Enabled(h, l)
    ensures !h.pc.Idle? && Step(h, l) == AfterCall(h, l.ok, l.invalid)
  {
  }

  /** The answers before the last one are about the same calls. */
  lemma SameRereads(h: Handle, answers: seq<Label>)
    requires answers != []
    ensures var front := answers[..|answers| - 1];
      forall k :: 0 <= k < |front| ==> RereadAt(h, front, k) == RereadAt(h, answers, k)
  {
    var front := answers[..|answers| - 1];
    forall k | 0 <= k < |front|
      ensures RereadAt(h, front, k) == RereadAt(h, answers, k)
    {
      assert front[..k] == answers[..k];
    }
  }

  lemma OneMore(h: Handle, answers: seq<Label>, l: Label)
    requires AfterAnswers(h, answers).Some? && l.Call? && Enabled(AfterAnswers(h, answers).value, l)
    ensures AfterAnswers(h, answers + [l]) == Some(Step(AfterAnswers(h, answers).value, l))
  {
  }

  // ---------------------------------------------------------------- the outcome of winLock()

  /** The PENDING byte is won at try j. */
  ghost predicate WonAt(answers: seq<Label>, j: nat) {
    && j < 3 && j < |answers| && answers[j].Call? && answers[j].ok
    && forall i :: 0 <= i < j ==> answers[i].Call? && !answers[i].ok && !answers[i].invalid
  }

  /** It is not won in three tries, or in fewer if the last one tells that the handle is invalid. */
  ghost predicate Lost(answers: seq<Label>) {
    && 1 <= |answers| <= 3
    && (forall i :: 0 <= i < |answers| ==> answers[i].Call? && !answers[i].ok)
    && (forall i :: 0 <= i < |answers| - 1 ==> !answers[i].invalid)
    && (|answers| == 3 || answers[|answers| - 1].invalid)
  }

  /** The shared range is given up and asked for alone; if that is refused, the read lock is asked for. */
  ghost predicate RangeOutcome(h: Handle, answers: seq<Label>, t: Handle) {
    && |answers| >= 2 && (forall k :: 0 <= k < |answers| ==> answers[k].Call?)
    && if answers[1].ok then
        |answers| == 2 && t == h.(level := EXCLUSIVE_LOCK, pending := WriteLock, shared := WriteLock)
      else
        && |answers| == 3
        && t == h.(level := PENDING_LOCK, pending := WriteLock, shared := if answers[2].ok then ReadLock else Unlocked)
  }

  /** What becomes of a handle between calls that asks for a level. */
  ghost predicate LockOutcome(h: Handle, want: nat, answers: seq<Label>, t: Handle) {
    if h.level >= want then answers == [] && t == h
    else if want == RESERVED_LOCK then
      && |answers| == 1 && answers[0].Call?
      && t == if answers[0].ok then h.(level := RESERVED_LOCK, reserved := WriteLock) else h
    else if want == SHARED_LOCK then
      || (Lost(answers) && t == h)
      || exists j: nat ::
          && WonAt(answers, j) && |answers| == j + 3 && answers[j + 1].Call?
          && t == if answers[j + 1].ok then h.(level := SHARED_LOCK, shared := ReadLock) else h
    else if h.level == PENDING_LOCK then
      RangeOutcome(h, answers, t)
    else
      (Lost(answers) && t == h) || exists j: nat :: WonAt(answers, j) && RangeOutcome(h, answers[j + 1..], t)
  }

  ghost predicate Ends(h: Handle, answers: seq<Label>, t: Handle) {
    AfterAnswers(h, answers) == Some(t) && t.pc.Idle?
  }

  lemma {:induction false} FirstAnswer(h: Handle, answers: seq<Label>)
    requires answers != [] && AfterAnswers(h, answers).Some?
    ensures answers[0].Call? && Enabled(h, answers[0]) && !h.pc.Idle?
    ensures AfterAnswers(AfterCall(h, answers[0].ok, answers[0].invalid), answers[1..]) == AfterAnswers(h, answers)
  {
    hide AfterCall;
    var n := |answers| - 1;
    if n == 0 {
      assert answers[..0] == [];
      assert answers[1..] == [];
    } else {
      FirstAnswer(h, answers[..n]);
      assert answers[..n][1..] == answers[1..][..n - 1];
      assert answers[1..][n - 1] == answers[n];
    }
  }

  lemma Stops(h: Handle, answers: seq<Label>, t: Handle)
    requires Ends(h, answers, t) && h.pc.Idle?
    ensures answers == [] && t == h
  {
    hide AfterCall;
    if answers != [] {
      FirstAnswer(h, answers);
    }
  }

  lemma GoesOn(h: Handle, answers: seq<Label>, t: Handle)
    requires Ends(h, answers, t) && !h.pc.Idle?
    ensures answers != [] && answers[0].Call? && Enabled(h, answers[0])
    ensures Ends(AfterCall(h, answers[0].ok, answers[0].invalid), answers[1..], t)
  {
    hide AfterCall;
    if answers != [] {
      FirstAnswer(h, answers);
    }
  }

  /** One more failed try in front. */
  lemma LaterTry(answers: seq<Label>, j: nat)
    requires answers != [] && answers[0].Call? && !answers[0].ok && !answers[0].invalid
    requires j < 2 && WonAt(answers[1..], j)
    ensures WonAt(answers, j + 1) && answers[1..][j + 1..] == answers[j + 2..]
  {
    forall i | 0 <= i < j + 1
      ensures answers[i].Call? && !answers[i].ok && !answers[i].invalid
    {
      assert i > 0 ==> answers[i] == answers[1..][i - 1];
    }
  }

  /** The tries at the PENDING byte that are left. */
  ghost predicate LostIn(answers: seq<Label>, tries: nat) {
    && 1 <= |answers| <= tries
    && (forall i :: 0 <= i < |answers| ==> answers[i].Call? && !answers[i].ok)
    && (forall i :: 0 <= i < |answers| - 1 ==> !answers[i].invalid)
    && (|answers| == tries || answers[|answers| - 1].invalid)
  }

  /** The handle once it has won the PENDING byte. */
  function Winner(h: Handle, want: nat): Handle {
    h.(pending := WriteLock, pc := if want == SHARED_LOCK then LkRead else LkDropRead)
  }

  lemma {:induction false} PendingTries(h: Handle, want: nat, tries: nat, answers: seq<Label>, t: Handle)
    requires Ends(h, answers, t) && h.pc == LkPending(want, tries) && tries <= 2
    ensures (LostIn(answers, tries + 1) && t == h.(pc := Idle))
      || exists j: nat ::
          && j <= tries && WonAt(answers, j)
          && Ends(Winner(h, want), answers[j + 1..], t)
    decreases tries
  {
    hide Ends;
    GoesOn(h, answers, t);
    var a, rest := answers[0], answers[1..];
    if a.ok {
      assert WonAt(answers, 0) && answers[0 + 1..] == rest;
    } else if a.invalid || tries == 0 {
      Stops(h.(pc := Idle), rest, t);
      assert LostIn(answers, tries + 1);
    } else {
      var g := h.(pc := LkPending(want, tries - 1));
      PendingTries(g, want, tries - 1, rest, t);
      if LostIn(rest, tries) && t == g.(pc := Idle) {
        forall i | 0 <= i < |answers|
          ensures answers[i].Call? && !answers[i].ok && (i < |answers| - 1 ==> !answers[i].invalid)
        {
          assert i > 0 ==> answers[i] == rest[i - 1];
        }
        assert LostIn(answers, tries + 1);
      } else {
        var j: nat :| j <= tries - 1 && WonAt(rest, j)
          && Ends(Winner(g, want), rest[j + 1..], t);
        LaterTry(answers, j);
      }
    }
  }

  lemma ReadPath(h: Handle, answers: seq<Label>, t: Handle)
    requires Ends(h, answers, t) && h.pc == LkRead && h.level == NO_LOCK
    ensures |answers| == 2 && answers[0].Call?
    ensures t == h.(pending := Unlocked, pc := Idle, level := if answers[0].ok then SHARED_LOCK else NO_LOCK,
      shared := if answers[0].ok then ReadLock else h.shared)
  {
    hide Ends;
    GoesOn(h, answers, t);
    var ok := answers[0].ok;
    var g := AfterCall(h, ok, answers[0].invalid);
    GoesOn(g, answers[1..], t);
    Stops(AfterCall(g, answers[1..][0].ok, answers[1..][0].invalid), answers[1..][1..], t);
  }

  lemma RangePath(h: Handle, answers: seq<Label>, t: Handle)
    requires Ends(h, answers, t) && h.pc == LkDropRead && h.pending == WriteLock
    ensures RangeOutcome(h.(pc := Idle), answers, t)
  {
    hide Ends;
    GoesOn(h, answers, t);
    var g := AfterCall(h, answers[0].ok, answers[0].invalid);
    assert g == h.(shared := Unlocked, pc := LkExclusive);
    GoesOn(g, answers[1..], t);
    assert answers[1..][0] == answers[1];
    var k := AfterCall(g, answers[1].ok, answers[1].invalid);
    if answers[1].ok {
      Stops(k, answers[1..][1..], t);
    } else {
      GoesOn(k, answers[1..][1..], t);
      assert answers[1..][1..][0] == answers[2];
      Stops(AfterCall(k, answers[2].ok, answers[2].invalid), answers[1..][1..][1..], t);
    }
  }

  /** The steps of winLock() come to `LockOutcome`. */
  lemma LockOutcomeIs(h: Handle, want: nat, answers: seq<Label>, t: Handle)
    requires HandleInv(h) && MayLock(h, want) && Ends(LockEnter(h, want), answers, t)
    ensures LockOutcome(h, want, answers, t)
  {
    hide Ends;
    var s := LockEnter(h, want);
    if h.level >= want {
      Stops(s, answers, t);
    } else if want == RESERVED_LOCK {
      GoesOn(s, answers, t);
      Stops(AfterCall(s, answers[0].ok, answers[0].invalid), answers[1..], t);
    } else if h.level == PENDING_LOCK {
      RangePath(s, answers, t);
    } else {
      PendingTries(s, want, 2, answers, t);
      if LostIn(answers, 3) && t == s.(pc := Idle) {
        assert Lost(answers) && t == h;
      } else {
        var g := Winner(s, want);
        var j: nat :| j <= 2 && WonAt(answers, j) && Ends(g, answers[j + 1..], t);
        WonOutcome(h, want, answers, j, g, t);
      }
    }
  }

  lemma WonOutcome(h: Handle, want: nat, answers: seq<Label>, j: nat, g: Handle, t: Handle)
    requires HandleInv(h) && MayLock(h, want) && h.level < want && want != RESERVED_LOCK && h.level < PENDING_LOCK
    requires WonAt(answers, j) && Ends(g, answers[j + 1..], t)
    requires g == Winner(h, want)
    ensures LockOutcome(h, want, answers, t)
  {
    hide Ends;
    if want == SHARED_LOCK {
      ReadPath(g, answers[j + 1..], t);
      assert answers[j + 1..][0] == answers[j + 1];
    } else {
      RangePath(g, answers[j + 1..], t);
    }
  }
}
