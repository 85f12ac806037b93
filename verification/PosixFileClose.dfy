/** The steps that open and close descriptors keep `ProcInv`, and so does every step. */
module PosixFileClose {
  import opened PosixOs
  import opened LockLevels
  import opened PosixFile
  import opened PosixFileInv
  import opened PosixFileSteps

  lemma PhasesFrame(p: Proc, q: Proc, c: Cid, k: Conn)
    requires Phases(p) && c in p.conns && q.conns == p.conns[c := k] && q.pc == p.pc && PhaseOk(q.pc, c, k)
    ensures Phases(q)
  {
  }

  /** The call in progress belongs to another connection than one that is past its unlock. */
  lemma PcOkFrame(p: Proc, q: Proc, c: Cid, k: Conn)
    requires PcOk(p) && c in p.conns && p.conns[c].phase.Released?
    requires q == p.(conns := p.conns[c := k])
    ensures PcOk(q)
  {
  }

  lemma WriteLevelKeeps(p: Proc, h: Held, c: Cid)
    requires ProcInv(p, h) && c in p.conns && p.conns[c].phase.Released?
    ensures ProcInv(SetConn(p, c, p.conns[c].(level := p.conns[c].phase.target, phase := Resume(p.conns[c]))), h)
  {
    var k := p.conns[c].(level := p.conns[c].phase.target, phase := Resume(p.conns[c]));
    var q := SetConn(p, c, k);
    assert PhaseOk(p.pc, c, p.conns[c]);
    PcOkFrame(p, q, c, k);
    CountersAfterSet(p, q, c, k);
    LevelsAfterPhase(p, q, c, k);
    DescriptorsFrame(p, h, q, c, k, h);
    hide Counters, Levels, Descriptors, PcOk;
    PhasesFrame(p, q, c, k);
  }

  /** Taking entry i off a list of distinct descriptors. */
  lemma TakeAt(unused: seq<UnusedFd>, i: nat)
    requires i < |unused| && DistinctFds(unused)
    ensures var rest := unused[..i] + unused[i + 1..];
      DistinctFds(rest) && FdSet(rest) == FdSet(unused) - {unused[i].fd}
    ensures unused[i].fd in FdSet(unused)
  {
    var rest := unused[..i] + unused[i + 1..];
    forall f | f in FdSet(unused) && f != unused[i].fd
      ensures f in FdSet(rest)
    {
      var j :| 0 <= j < |unused| && unused[j].fd == f;
      assert rest[if j < i then j else j - 1] == unused[j];
    }
  }

  /** open(2) makes a new descriptor. */
  lemma NewFdDescriptors(p: Proc, h: Held, c: Cid, flags: nat, newFd: Fd)
    requires Descriptors(p, h) && c !in p.conns && c !in p.opening && newFd !in p.fds && newFd !in p.closed
    ensures Descriptors(p.(opening := p.opening[c := UnusedFd(newFd, flags)], fds := p.fds[newFd := ByOpening(c)]), h)
  {
    var q := p.(opening := p.opening[c := UnusedFd(newFd, flags)], fds := p.fds[newFd := ByOpening(c)]);
    assert OwnersHold(q);
    forall f | f in q.fds
      ensures OwnerHas(q, f)
    {
      if f != newFd {
        assert OwnerHas(p, f);
      }
    }
  }

  /** findReusableFd() takes a descriptor off the unused list. */
  lemma ReuseDescriptors(p: Proc, h: Held, c: Cid, i: nat)
    requires Descriptors(p, h) && c !in p.conns && c !in p.opening && i < |p.unused|
    ensures Descriptors(p.(unused := p.unused[..i] + p.unused[i + 1..],
                           opening := p.opening[c := p.unused[i]],
                           fds := p.fds[p.unused[i].fd := ByOpening(c)]), h)
  {
    TakeAt(p.unused, i);
    var taken := p.unused[i].fd;
    var q := p.(unused := p.unused[..i] + p.unused[i + 1..], opening := p.opening[c := p.unused[i]],
      fds := p.fds[taken := ByOpening(c)]);
    assert OwnersHold(q);
    forall f | f in q.fds
      ensures OwnerHas(q, f)
    {
      if f != taken {
        assert OwnerHas(p, f);
      }
    }
  }

  lemma TakeFdKeeps(p: Proc, h: Held, c: Cid, flags: nat, reuse: bool, newFd: Fd)
    requires ProcInv(p, h) && Enabled(p, TakeFd(c, flags, reuse, newFd))
    ensures ProcInv(StepProc(p, TakeFd(c, flags, reuse, newFd)), h)
  {
    TakeDescriptors(p, h, c, flags, reuse, newFd);
    hide ProcInv, Descriptors;
    SameConnsKeeps(p, h, StepProc(p, TakeFd(c, flags, reuse, newFd)));
  }

  lemma TakeDescriptors(p: Proc, h: Held, c: Cid, flags: nat, reuse: bool, newFd: Fd)
    requires ProcInv(p, h) && Enabled(p, TakeFd(c, flags, reuse, newFd))
    ensures Descriptors(StepProc(p, TakeFd(c, flags, reuse, newFd)), h)
  {
    hide Counters, Levels, Phases, PcOk, Backed;
    var i := FirstMatch(p.unused, flags);
    if reuse && i < |p.unused| {
      ReuseDescriptors(p, h, c, i);
    } else {
      NewFdDescriptors(p, h, c, flags, newFd);
    }
  }

  /** A step that touches only descriptors. */
  lemma SameConnsKeeps(p: Proc, h: Held, q: Proc)
    requires ProcInv(p, h) && Descriptors(q, h)
    requires q == p.(unused := q.unused, opening := q.opening, fds := q.fds, closed := q.closed)
    ensures ProcInv(q, h)
  {
    hide Descriptors;
    assert Members(q) == Members(p) && Live(q) == Live(p);
    var w :| WriterIs(p, w);
    assert WriterIs(q, w);
  }

  lemma AttachDescriptors(p: Proc, h: Held, c: Cid, ok: bool)
    requires Descriptors(p, h) && Enabled(p, Attach(c, ok)) && (!ok ==> p.conns == map[]) && p.nRef >= 0
    ensures Descriptors(StepProc(p, Attach(c, ok)), StepHeld(p, h, Attach(c, ok)))
  {
    var q := StepProc(p, Attach(c, ok));
    var fd := p.opening[c].fd;
    assert OwnersHold(q);
    forall f | f in q.fds
      ensures OwnerHas(q, f)
    {
      if f != fd {
        assert OwnerHas(p, f);
      }
    }
  }

  lemma SetsAfterAdd(p: Proc, q: Proc, c: Cid, k: Conn)
    requires c !in p.conns && q.conns == p.conns[c := k] && k.eff == NO_LOCK && k.phase == Ready
    ensures Members(q) == Members(p) && c !in Live(p) && Live(q) == Live(p) + {c}
  {
  }

  /** A newly attached connection holds nothing. */
  lemma AttachLevels(p: Proc, q: Proc, c: Cid, k: Conn)
    requires Counters(p) && Levels(p) && c !in p.conns && q.conns == p.conns[c := k] && k.eff == NO_LOCK
      && k.phase == Ready
    requires q.il == p.il && q.nShared == p.nShared && q.nLock == p.nLock && q.processLock == p.processLock
    requires q.nRef == p.nRef + 1 && p.pc == q.pc == Idle
    ensures Counters(q) && Levels(q)
  {
    SetsAfterAdd(p, q, c, k);
    assert |Live(q)| == |Live(p)| + 1;
    var w :| WriterIs(p, w);
    assert WriterIs(q, w);
  }

  lemma AttachKeeps(p: Proc, h: Held, c: Cid, ok: bool)
    requires ProcInv(p, h) && Enabled(p, Attach(c, ok))
    ensures ProcInv(StepProc(p, Attach(c, ok)), StepHeld(p, h, Attach(c, ok)))
  {
    AttachDescriptors(p, h, c, ok);
    if ok {
      JoinRecordKeeps(p, h, c);
    } else {
      var q := StepProc(p, Attach(c, false));
      assert q.conns == p.conns;
      hide ProcInv, Descriptors;
      SameConnsKeeps(p, NO_LOCKS, q);
    }
  }

  lemma JoinRecordKeeps(p: Proc, h: Held, c: Cid)
    requires ProcInv(p, h) && p.pc == Idle && c in p.opening && Descriptors(AttachStep(p, c, true), h)
    ensures ProcInv(AttachStep(p, c, true), h)
  {
    var q := AttachStep(p, c, true);
    assert c !in p.conns;
    hide Descriptors;
    AttachLevels(p, q, c, q.conns[c]);
    hide Counters, Levels;
    assert Phases(q) && PcOk(q) && Backed(q, h);
  }

  // ---------------------------------------------------------------- unixClose

  lemma ConsFdSet(node: UnusedFd, unused: seq<UnusedFd>)
    ensures FdSet([node] + unused) == {node.fd} + FdSet(unused)
  {
    var u := [node] + unused;
    assert u[0].fd == node.fd;
    forall f | f in FdSet(unused)
      ensures f in FdSet(u)
    {
      var j :| 0 <= j < |unused| && unused[j].fd == f;
      assert u[j + 1].fd == f;
    }
  }

  /** The closing connection's descriptor goes to the unused list. */
  lemma DeferDescriptors(p: Proc, h: Held, c: Cid, q: Proc)
    requires Descriptors(p, h) && c in p.conns && p.conns[c].phase != Gone
    requires q.unused == [p.conns[c].node] + p.unused && q.fds == p.fds[p.conns[c].node.fd := ByUnused]
    requires q.closed == p.closed && q.opening == p.opening && q.nLock > 0
    requires q.conns == p.conns - {c} || q.conns == p.conns[c := p.conns[c].(phase := Gone)]
    ensures Descriptors(q, NO_LOCKS)
  {
    var k := p.conns[c];
    ConsFdSet(k.node, p.unused);
    assert OwnersHold(q);
    forall f | f in q.fds
      ensures OwnerHas(q, f)
    {
      if f != k.node.fd {
        assert OwnerHas(p, f);
      }
    }
  }

  /** The closing connection's descriptor is closed at once. */
  lemma DirectDescriptors(p: Proc, h: Held, c: Cid, q: Proc)
    requires Descriptors(p, h) && c in p.conns && p.conns[c].phase != Gone && p.nLock == 0
    requires q.fds == p.fds - {p.conns[c].node.fd} && q.closed == p.closed + {p.conns[c].node.fd}
    requires q.unused == p.unused && q.opening == p.opening
    requires q.conns == p.conns - {c} || q.conns == p.conns[c := p.conns[c].(phase := Gone)]
    ensures Descriptors(q, NO_LOCKS)
  {
    var fd := p.conns[c].node.fd;
    assert OwnersHold(q);
    forall f | f in q.fds
      ensures OwnerHas(q, f)
    {
      assert OwnerHas(p, f);
    }
  }

  lemma SetsAfterRelease(p: Proc, c: Cid)
    requires c in p.conns && p.conns[c].phase != Gone
    ensures Live(Release(p, c)) == Live(p) - {c} && c in Live(p)
    ensures Members(Release(p, c)) == Members(p)
  {
    var q := Release(p, c);
    forall d
      ensures d in Members(q) <==> d in Members(p)
      ensures d in Live(q) <==> d in Live(p) - {c}
    {
    }
  }

  lemma ReleasePhases(p: Proc, c: Cid)
    requires Phases(p) && p.pc == Idle && c in p.conns && p.conns[c].phase == Closing
    ensures Phases(Release(p, c))
  {
  }

  lemma ReleaseDescriptors(p: Proc, h: Held, c: Cid)
    requires Descriptors(p, h) && Counters(p) && p.pc == Idle && c in p.conns && p.conns[c].phase == Closing
      && p.nRef > 1
    ensures Descriptors(Release(p, c), if p.nLock != 0 then h else NO_LOCKS)
  {
    SetsAfterRelease(p, c);
    if p.nLock != 0 {
      DeferDescriptors(p, h, c, Release(p, c));
    } else {
      DirectDescriptors(p, h, c, Release(p, c));
    }
  }

  /** The inode record survives: other connections of the process are open. */
  lemma ReleaseKeeps(p: Proc, h: Held, c: Cid)
    requires ProcInv(p, h) && p.pc == Idle && c in p.conns && p.conns[c].phase == Closing
    requires p.nRef > 1
    ensures ProcInv(Release(p, c), if p.nLock != 0 then h else NO_LOCKS)
  {
    var q := Release(p, c);
    ReleaseDescriptors(p, h, c);
    ReleasePhases(p, c);
    ReleaseLevels(p, q, c);
    hide Levels, Descriptors, Phases;
  }

  lemma ReleaseLevels(p: Proc, q: Proc, c: Cid)
    requires Counters(p) && Levels(p) && c in p.conns && p.conns[c].phase == Closing && p.nRef > 1 && p.pc == Idle
    requires q == Release(p, c)
    ensures Counters(q) && Levels(q)
  {
    SetsAfterRelease(p, c);
    assert |Live(p)| == |Live(q)| + 1;
    var w :| WriterIs(p, w);
    assert p.il > SHARED_LOCK ==> w in Members(p);
    assert WriterIs(q, w);
  }

  lemma FreeDescriptors(p: Proc, h: Held, c: Cid)
    requires Descriptors(p, h) && p.nLock >= 0 && c in p.conns && p.conns[c].phase == Closing && Live(p) == {c}
    ensures Descriptors(FreeInode(Release(p, c)), NO_LOCKS)
  {
    var r := Release(p, c);
    var q := FreeInode(r);
    SetsAfterRelease(p, c);
    if p.nLock != 0 {
      DeferDescriptors(p, h, c, r);
    } else {
      DirectDescriptors(p, h, c, r);
    }
    FreedDescriptors(r, NO_LOCKS);
  }

  /** With nobody left open the unused list owns what is not being opened. */
  lemma FreedDescriptors(r: Proc, h: Held)
    requires Descriptors(r, h) && Live(r) == {}
    ensures Descriptors(FreeInode(r), NO_LOCKS)
  {
    var q := FreeInode(r);
    forall f | f in q.fds
      ensures OwnerHas(q, f)
    {
      assert OwnerHas(r, f);
      assert forall d :: d in r.conns ==> d !in Live(r);
    }
  }

  /** The last connection closes: every descriptor of the process except those being opened is
  closed, so every lock is gone, and the record is freed. */
  lemma FreeKeeps(p: Proc, h: Held, c: Cid)
    requires ProcInv(p, h) && p.pc == Idle && c in p.conns && p.conns[c].phase == Closing
    requires p.nRef == 1
    ensures ProcInv(FreeInode(Release(p, c)), NO_LOCKS)
  {
    assert Live(p) == {c} by {
      assert c in Live(p);
      assert |Live(p) - {c}| == 0;
    }
    FreeDescriptors(p, h, c);
    hide Counters, Levels, Phases, Descriptors;
    ZeroedRecord(FreeInode(Release(p, c)));
  }

  lemma ZeroedRecord(p: Proc)
    requires p.conns == map[] && p.il == NO_LOCK && p.nShared == p.nLock == p.nRef == 0 && !p.processLock
      && p.pc == Idle
    requires Descriptors(p, NO_LOCKS)
    ensures ProcInv(p, NO_LOCKS)
  {
    assert Members(p) == {} && Live(p) == {};
    assert WriterIs(p, 0);
  }

  lemma LastCloseHeld(p: Proc, h: Held, c: Cid)
    requires Descriptors(p, h) && Counters(p) && p.nRef == 1 && Enabled(p, CloseFile(c))
    ensures StepProc(p, CloseFile(c)) == FreeInode(Release(p, c)) && StepHeld(p, h, CloseFile(c)) == NO_LOCKS
  {
    var fd := p.conns[c].node.fd;
    assert fd in p.fds && fd !in p.closed;
    assert ([p.conns[c].node] + p.unused)[0].fd == fd;
    assert fd in CloseStep(p, c).closed;
  }

  lemma EarlierCloseHeld(p: Proc, h: Held, c: Cid)
    requires Descriptors(p, h) && p.nRef > 1 && Enabled(p, CloseFile(c))
    ensures StepProc(p, CloseFile(c)) == Release(p, c)
    ensures StepHeld(p, h, CloseFile(c)) == if p.nLock != 0 then h else NO_LOCKS
  {
  }

  lemma OpenIsCounted(p: Proc, c: Cid)
    requires Counters(p) && c in p.conns && p.conns[c].phase == Closing
    ensures p.nRef >= 1
  {
  }

  lemma CloseKeeps(p: Proc, h: Held, c: Cid)
    requires ProcInv(p, h) && Enabled(p, CloseFile(c))
    ensures ProcInv(StepProc(p, CloseFile(c)), StepHeld(p, h, CloseFile(c)))
  {
    hide Counters, Levels, Phases, PcOk, Backed, Descriptors;
    OpenIsCounted(p, c);
    if p.nRef > 1 {
      ReleaseKeeps(p, h, c);
      EarlierCloseHeld(p, h, c);
    } else {
      FreeKeeps(p, h, c);
      LastCloseHeld(p, h, c);
    }
  }

  /** Every step of a process keeps the invariant, whatever the kernel answers. */
  lemma StepKeeps(p: Proc, h: Held, l: Label)
    requires ProcInv(p, h) && Enabled(p, l)
    ensures ProcInv(StepProc(p, l), StepHeld(p, h, l))
  {
    hide Counters, Levels, Phases, PcOk, Backed, Descriptors;
    match l
    case Lock(c, want) => LockEnterKeeps(p, h, c, want);
    case Unlock(c, target, closing) => UnlockEnterKeeps(p, h, c, target, closing);
    case Call(ok) => CallKeeps(p, h, ok);
    case WriteLevel(c) => WriteLevelKeeps(p, h, c);
    case CloseFile(c) => CloseKeeps(p, h, c);
    case TakeFd(c, flags, reuse, newFd) => TakeFdKeeps(p, h, c, flags, reuse, newFd);
    case Attach(c, ok) => AttachKeeps(p, h, c, ok);
  }

  lemma FreshProcInv(excl: bool)
    ensures ProcInv(FreshProc(excl), NO_LOCKS)
  {
    ZeroedRecord(FreshProc(excl));
  }
}
