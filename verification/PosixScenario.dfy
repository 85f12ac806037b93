/** A run in which a connection starts to read while another process's writer waits at PENDING. */
module PosixScenario {
  import opened PosixOs
  import opened LockLevels
  import opened PosixFile
  import opened PosixSystem
  import opened PosixTheorems

  lemma ReachNext(s: Sys, p: Pid, l: Label)
    requires Reachable(s) && CanStep(s, p, l)
    ensures Reachable(Next(s, p, l))
  {
    var tr :| Run(tr) && tr[|tr| - 1] == s;
    var longer := tr + [Next(s, p, l)];
    assert Run(longer) by {
      forall i | 0 <= i < |longer| - 1
        ensures Step(longer[i], longer[i + 1])
      {
        if i < |tr| - 1 {
          assert Step(tr[i], tr[i + 1]);
        }
      }
    }
    assert longer[|longer| - 1] == Next(s, p, l);
  }

  function WithConn(p: Proc, c: Cid, fd: Fd): Proc {
    p.(conns := p.conns[c := Conn(NO_LOCK, NO_LOCK, Ready, UnusedFd(fd, 0))], nRef := p.nRef + 1,
      fds := p.fds[fd := ByConn(c)])
  }

  /** unixOpen() with a new descriptor. */
  lemma Opens(s: Sys, p: Pid, c: Cid, fd: Fd) returns (t: Sys)
    requires Reachable(s) && p in s.procs && p in s.held && s.procs[p].pc == Idle
    requires c !in s.procs[p].conns && s.procs[p].opening == map[] && fd !in s.procs[p].fds && fd !in s.procs[p].closed
    ensures Reachable(t) && t == Sys(s.procs[p := WithConn(s.procs[p], c, fd)], s.held)
  {
    var l1 := TakeFd(c, 0, false, fd);
    ReachNext(s, p, l1);
    var s1 := Next(s, p, l1);
    ReachNext(s1, p, Attach(c, true));
    t := Next(s1, p, Attach(c, true));
    assert t.procs[p] == WithConn(s.procs[p], c, fd) by {
      assert t.procs[p].opening == map[];
    }
    assert t.held == s.held;
  }

  function AsReader(p: Proc, c: Cid): Proc
    requires c in p.conns
  {
    p.(conns := p.conns[c := p.conns[c].(level := SHARED_LOCK, eff := SHARED_LOCK)], il := SHARED_LOCK, nShared := 1,
      nLock := p.nLock + 1)
  }

  const READS := Held(Unlocked, Unlocked, ReadLock, ReadLock)

  /** unixLock(SHARED_LOCK) by the first reader of a process, with three successful fcntl() calls. */
  lemma StartsReading(s: Sys, p: Pid, c: Cid) returns (t: Sys)
    requires Reachable(s) && p in s.procs && p in s.held && s.held[p] == NO_LOCKS
    requires var i := s.procs[p];
      i.pc == Idle && !i.excl && i.il == NO_LOCK && c in i.conns && i.conns[c].phase == Ready
      && i.conns[c].level == NO_LOCK
    requires forall q :: q in s.held && q != p ==> s.held[q] == NO_LOCKS || s.held[q] == READS
    ensures Reachable(t) && t == Sys(s.procs[p := AsReader(s.procs[p], c)], s.held[p := READS])
  {
    var s2 := AsksForShared(s, p, c);
    hide Reachable;
    ReachNext(s2, p, Call(true));
    var s3 := Next(s2, p, Call(true));
    ReachNext(s3, p, Call(true));
    t := Next(s3, p, Call(true));
  }

  /** The PENDING byte is read-locked for the time being. */
  lemma AsksForShared(s: Sys, p: Pid, c: Cid) returns (t: Sys)
    requires Reachable(s) && p in s.procs && p in s.held && s.held[p] == NO_LOCKS
    requires var i := s.procs[p];
      i.pc == Idle && !i.excl && i.il == NO_LOCK && c in i.conns && i.conns[c].phase == Ready
      && i.conns[c].level == NO_LOCK
    requires forall q :: q in s.held && q != p ==> s.held[q] == NO_LOCKS || s.held[q] == READS
    ensures Reachable(t)
    ensures t == Sys(s.procs[p := s.procs[p].(pc := LkSharedRead(c))], s.held[p := NO_LOCKS.(pending := ReadLock)])
  {
    hide Reachable;
    ReachNext(s, p, Lock(c, SHARED_LOCK));
    var s1 := Next(s, p, Lock(c, SHARED_LOCK));
    ReachNext(s1, p, Call(true));
    t := Next(s1, p, Call(true));
  }

  /** unixLock(EXCLUSIVE_LOCK) that wins the PENDING byte and is refused the shared range. */
  lemma WaitsAtPending(s: Sys, p: Pid, c: Cid) returns (t: Sys)
    requires Reachable(s) && p in s.procs && p in s.held && s.held[p] == READS
    requires var i := s.procs[p];
      i.pc == Idle && !i.excl && i.nShared == 1 && c in i.conns && i.conns[c].phase == Ready
      && i.conns[c].level == SHARED_LOCK == i.il
    requires forall q :: q in s.held && q != p ==> s.held[q] == NO_LOCKS || s.held[q] == READS
    ensures Reachable(t)
    ensures t.procs == s.procs[p := SetLevel(s.procs[p], c, PENDING_LOCK)] && t.held.Keys == s.held.Keys
  {
    var l := Lock(c, EXCLUSIVE_LOCK);
    ReachNext(s, p, l);
    var s1 := Next(s, p, l);
    ReachNext(s1, p, Call(true));
    var s2 := Next(s1, p, Call(true));
    ReachNext(s2, p, Call(false));
    t := Next(s2, p, Call(false));
  }

  const START := Sys(map[0 := FreshProc(false), 1 := FreshProc(false)], map[0 := NO_LOCKS, 1 := NO_LOCKS])

  const IDLE0 := WithConn(FreshProc(false), 0, 10)
  const IDLE1 := WithConn(WithConn(FreshProc(false), 1, 11), 2, 12)

  lemma EverybodyOpens() returns (s: Sys)
    ensures Reachable(s) && s == Sys(map[0 := IDLE0, 1 := IDLE1], START.held)
  {
    assert Run([START]);
    assert Reachable(START) by {
      assert [START][|[START]| - 1] == START;
    }
    var s1 := Opens(START, 0, 0, 10);
    var s2 := Opens(s1, 1, 1, 11);
    s := Opens(s2, 1, 2, 12);
  }

  /** Process 0 has connection 0, process 1 has connections 1 and 2.  Connections 0 and 1 read,
  connection 0 then waits at PENDING, and connection 2 still goes from NO_LOCK to SHARED. */
  lemma ReaderJoinsWhileWriterWaits() returns (s: Sys)
    ensures Reachable(s) && Settled(s, 0, 0) && LevelOf(s, 0, 0) == PENDING_LOCK
    ensures CanStep(s, 1, Lock(2, SHARED_LOCK)) && NewReader(s, 1, Lock(2, SHARED_LOCK), 2)
  {
    var s3 := EverybodyOpens();
    var s4 := StartsReading(s3, 0, 0);
    var s5 := StartsReading(s4, 1, 1);
    s := WaitsAtPending(s5, 0, 0);
  }
}
