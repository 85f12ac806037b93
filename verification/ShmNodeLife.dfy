/** The life of a shared-memory node: its reference count is kept under the global mutex, its list of
connections under its own, and its file is truncated under the dead-man switch.

Each step below is one critical section of unixOpenSharedMemory() or unixShmUnmap(), except that a
thread opening the file keeps the global mutex over several fcntl() calls; steps under the node's own
mutex and steps of other processes may come between them. */
module ShmNodeLife {
  import opened PosixOs

  type Pid = nat
  type Cid = nat

  /** Where a connection stands: nRef is counted before the connection is linked and released after it
  is unlinked. */
  datatype Phase = Absent | Counted | Linked | Unlinked

  /** unixShmNode; `inFile` says whether it has an open file. */
  datatype Node = Node(nRef: int, list: seq<Cid>, inFile: bool)

  datatype NodeOpt = NoNode | SomeNode(node: Node)

  /** How far the thread that creates the node has come. */
  datatype Opening =
    | NotOpening
    | TryWriteLock(c: Cid)
    | Truncate(c: Cid)
    | TryReadLock(c: Cid)

  /** One process.  `heap` is pInode->bProcessLock: the node then has no file. */
  datatype Proc = Proc(heap: bool, node: NodeOpt, opening: Opening, phase: map<Cid, Phase>, dms: Mode)

  datatype Label =
    | Begin(c: Cid)           // unixEnterMutex() in unixOpenSharedMemory()
    | Fail(c: Cid)            // fstat(), malloc() or open() failed
    | WriteAnswer(ok: bool)   // fcntl(F_WRLCK) on UNIX_SHM_DMS
    | TruncateAnswer(ok: bool)
    | ReadAnswer(ok: bool)    // fcntl(F_RDLCK) on UNIX_SHM_DMS
    | Link(c: Cid)
    | Unlink(c: Cid)
    | Release(c: Cid)         // the second half of unixShmUnmap()

  function PhaseOf(p: Proc, c: Cid): Phase {
    if c in p.phase then p.phase[c] else Absent
  }

  /** unixShmPurge(): nothing happens while nRef is positive; else the node goes, and closing its
  descriptor drops the process's locks on the file. */
  function Purge(p: Proc): Proc {
    if p.node.SomeNode? && p.node.node.nRef == 0 then
      p.(node := NoNode, dms := if p.node.node.inFile then Unlocked else p.dms)
    else p
  }

  /** The connection joins the node and is counted. */
  function Count(p: Proc, c: Cid): Proc
    requires p.node.SomeNode?
  {
    p.(node := SomeNode(p.node.node.(nRef := p.node.node.nRef + 1)), phase := p.phase[c := Counted],
      opening := NotOpening)
  }

  /** The first half of unixOpenSharedMemory(). */
  function BeginOpen(p: Proc, c: Cid): Proc {
    if p.node.SomeNode? then Count(p, c)
    else
      var q := p.(node := SomeNode(Node(0, [], !p.heap)));
      if p.heap then Count(q, c) else q.(opening := TryWriteLock(c))
  }

  function Without(s: seq<Cid>, c: Cid): seq<Cid> {
    if s == [] then [] else if s[0] == c then s[1..] else [s[0]] + Without(s[1..], c)
  }

  predicate Enabled(p: Proc, l: Label) {
    match l
    case Begin(c) => p.opening.NotOpening? && PhaseOf(p, c).Absent?
    case Fail(c) => p.opening.NotOpening? && PhaseOf(p, c).Absent? && p.node.NoNode?
    case WriteAnswer(_) => p.opening.TryWriteLock?
    case TruncateAnswer(_) => p.opening.Truncate?
    case ReadAnswer(_) => p.opening.TryReadLock? && p.node.SomeNode?
    case Link(c) => PhaseOf(p, c).Counted? && p.node.SomeNode?
    case Unlink(c) => PhaseOf(p, c).Linked? && p.node.SomeNode?
    case Release(c) => p.opening.NotOpening? && PhaseOf(p, c).Unlinked? && p.node.SomeNode?
  }

  function StepProc(p: Proc, l: Label): Proc
    requires Enabled(p, l)
  {
    match l
    case Begin(c) => BeginOpen(p, c)
    case Fail(_) => p
    case WriteAnswer(ok) =>
      var c := p.opening.c;
      if ok then p.(dms := WriteLock, opening := Truncate(c)) else p.(opening := TryReadLock(c))
    case TruncateAnswer(ok) =>
      if ok then p.(opening := TryReadLock(p.opening.c)) else Purge(p.(opening := NotOpening))
    case ReadAnswer(ok) =>
      if ok then Count(p.(dms := ReadLock), p.opening.c) else Purge(p.(opening := NotOpening))
    case Link(c) =>
      p.(node := SomeNode(p.node.node.(list := [c] + p.node.node.list)), phase := p.phase[c := Linked])
    case Unlink(c) =>
      p.(node := SomeNode(p.node.node.(list := Without(p.node.node.list, c))), phase := p.phase[c := Unlinked])
    case Release(c) =>
      Purge(p.(node := SomeNode(p.node.node.(nRef := p.node.node.nRef - 1)), phase := p.phase[c := Absent]))
  }

  // ---------------------------------------------------------------- one process

  /** The connections that are opened but not linked, linked, or unlinked but not released. */
  ghost function Users(p: Proc): set<Cid> {
    set c | c in p.phase && p.phase[c] != Absent
  }

  ghost predicate ListIsLinked(p: Proc) {
    p.node.SomeNode? ==>
      && (forall c :: c in p.node.node.list <==> PhaseOf(p, c).Linked?)
      && (forall j, k :: 0 <= j < k < |p.node.node.list| ==> p.node.node.list[j] != p.node.node.list[k])
  }

  ghost predicate CountInv(p: Proc) {
    match p.node
    case NoNode => Users(p) == {} && p.opening.NotOpening?
    case SomeNode(n) =>
      && n.nRef == |Users(p)|
      && n.inFile == !p.heap
      && (n.nRef == 0 <==> !p.opening.NotOpening?)
  }

  ghost predicate OpeningInv(p: Proc) {
    match p.opening
    case NotOpening => p.dms == if p.node.SomeNode? && !p.heap then ReadLock else Unlocked
    case TryWriteLock(c) => !p.heap && PhaseOf(p, c).Absent? && p.dms == Unlocked
    case Truncate(c) => !p.heap && PhaseOf(p, c).Absent? && p.dms == WriteLock
    case TryReadLock(c) => !p.heap && PhaseOf(p, c).Absent? && p.dms != ReadLock
  }

  ghost predicate ProcInv(p: Proc) {
    ListIsLinked(p) && CountInv(p) && OpeningInv(p)
  }

  lemma {:induction false} WithoutContents(s: seq<Cid>, c: Cid)
    requires forall j, k :: 0 <= j < k < |s| ==> s[j] != s[k]
    ensures forall d :: d in Without(s, c) <==> d in s && d != c
    ensures forall j, k :: 0 <= j < k < |Without(s, c)| ==> Without(s, c)[j] != Without(s, c)[k]
  {
    if s == [] {
    } else if s[0] == c {
    } else {
      WithoutContents(s[1..], c);
      forall d
        ensures d in s <==> d == s[0] || d in s[1..]
      {
      }
      assert s[0] !in s[1..];
    }
  }

  /** Exactly one connection changes its phase: the set of users changes with it. */
  lemma UsersAfter(p: Proc, q: Proc, c: Cid, f: Phase)
    requires q.phase == p.phase[c := f]
    ensures Users(q) == if f == Absent then Users(p) - {c} else Users(p) + {c}
    ensures c in Users(p) <==> PhaseOf(p, c) != Absent
    ensures forall d :: PhaseOf(q, d) == if d == c then f else PhaseOf(p, d)
  {
  }

  lemma NoUsers(p: Proc)
    requires Users(p) == {}
    ensures forall c :: PhaseOf(p, c) == Absent
  {
    forall c
      ensures PhaseOf(p, c) == Absent
    {
      assert c !in Users(p);
    }
  }

  /** The node counts its users and lists the linked ones. */
  ghost predicate Counts(p: Proc) {
    p.node.SomeNode? && p.node.node.nRef == |Users(p)| && p.node.node.inFile == !p.heap && ListIsLinked(p)
  }

  lemma CountKeeps(p: Proc, c: Cid)
    requires Counts(p) && PhaseOf(p, c) == Absent
    ensures ListIsLinked(Count(p, c)) && CountInv(Count(p, c))
  {
    var q := Count(p, c);
    UsersAfter(p, q, c, Counted);
    assert |Users(q)| == |Users(p)| + 1;
  }

  lemma PurgeKeeps(p: Proc)
    requires Counts(p) && p.opening.NotOpening?
    ensures ListIsLinked(Purge(p)) && CountInv(Purge(p))
  {
  }

  lemma BeginKeeps(p: Proc, c: Cid)
    requires ProcInv(p) && Enabled(p, Begin(c))
    ensures ListIsLinked(BeginOpen(p, c)) && CountInv(BeginOpen(p, c))
  {
    if p.node.SomeNode? {
      CountKeeps(p, c);
    } else {
      NoUsers(p);
      var q := p.(node := SomeNode(Node(0, [], !p.heap)));
      assert Users(q) == Users(p);
      assert forall d :: PhaseOf(q, d) == PhaseOf(p, d);
      CountKeeps(q, c);
    }
  }

  lemma LinkKeeps(p: Proc, c: Cid)
    requires ProcInv(p) && Enabled(p, Link(c))
    ensures ListIsLinked(StepProc(p, Link(c))) && CountInv(StepProc(p, Link(c)))
  {
    UsersAfter(p, StepProc(p, Link(c)), c, Linked);
    assert Users(StepProc(p, Link(c))) == Users(p);
  }

  lemma UnlinkKeeps(p: Proc, c: Cid)
    requires ProcInv(p) && Enabled(p, Unlink(c))
    ensures ListIsLinked(StepProc(p, Unlink(c))) && CountInv(StepProc(p, Unlink(c)))
  {
    UsersAfter(p, StepProc(p, Unlink(c)), c, Unlinked);
    assert Users(StepProc(p, Unlink(c))) == Users(p);
    WithoutContents(p.node.node.list, c);
  }

  lemma ReleaseKeeps(p: Proc, c: Cid)
    requires ProcInv(p) && Enabled(p, Release(c))
    ensures ListIsLinked(StepProc(p, Release(c))) && CountInv(StepProc(p, Release(c)))
  {
    var q := p.(node := SomeNode(p.node.node.(nRef := p.node.node.nRef - 1)), phase := p.phase[c := Absent]);
    UsersAfter(p, q, c, Absent);
    PurgeKeeps(q);
  }

  lemma AnswerKeeps(p: Proc, l: Label)
    requires ProcInv(p) && Enabled(p, l) && (l.WriteAnswer? || l.TruncateAnswer? || l.ReadAnswer?)
    ensures ListIsLinked(StepProc(p, l)) && CountInv(StepProc(p, l))
  {
    var q := p.(opening := NotOpening);
    assert Users(q) == Users(p) && forall d :: PhaseOf(q, d) == PhaseOf(p, d);
    if l == ReadAnswer(true) {
      var r := p.(dms := ReadLock);
      assert Users(r) == Users(p) && forall d :: PhaseOf(r, d) == PhaseOf(p, d);
      CountKeeps(r, p.opening.c);
    } else if l == WriteAnswer(true) || l == WriteAnswer(false) || l == TruncateAnswer(true) {
      var r := StepProc(p, l);
      assert Users(r) == Users(p) && forall d :: PhaseOf(r, d) == PhaseOf(p, d);
    } else {
      PurgeKeeps(q);
    }
  }

  lemma StepKeepsOpening(p: Proc, l: Label)
    requires ProcInv(p) && Enabled(p, l)
    ensures OpeningInv(StepProc(p, l))
  {
  }

  lemma StepKeepsProc(p: Proc, l: Label)
    requires ProcInv(p) && Enabled(p, l)
    ensures ProcInv(StepProc(p, l))
  {
    StepKeepsOpening(p, l);
    hide OpeningInv;
    match l
    case Begin(c) => BeginKeeps(p, c);
    case Fail(_) =>
    case Link(c) => LinkKeeps(p, c);
    case Unlink(c) => UnlinkKeeps(p, c);
    case Release(c) => ReleaseKeeps(p, c);
    case _ => AnswerKeeps(p, l);
  }

  // ---------------------------------------------------------------- all processes

  type Sys = map<Pid, Proc>

  ghost predicate Init(s: Sys) {
    forall p :: p in s ==> s[p] == Proc(s[p].heap, NoNode, NotOpening, map[], Unlocked)
  }

  /** The kernel grants a lock on the dead-man switch unless another process's lock clashes with it. */
  ghost predicate Granted(s: Sys, p: Pid, l: Label) {
    match l
    case WriteAnswer(true) => forall q :: q in s && q != p ==> s[q].dms == Unlocked
    case ReadAnswer(true) => forall q :: q in s && q != p ==> s[q].dms != WriteLock
    case _ => true
  }

  ghost predicate CanStep(s: Sys, p: Pid, l: Label) {
    p in s && Enabled(s[p], l) && Granted(s, p, l)
  }

  ghost function Next(s: Sys, p: Pid, l: Label): Sys
    requires CanStep(s, p, l)
  {
    s[p := StepProc(s[p], l)]
  }

  ghost predicate Run(tr: seq<Sys>) {
    && |tr| > 0 && Init(tr[0])
    && forall k :: 0 <= k < |tr| - 1 ==> exists p, l :: CanStep(tr[k], p, l) && tr[k + 1] == Next(tr[k], p, l)
  }

  ghost predicate Reachable(s: Sys) {
    exists tr :: Run(tr) && tr[|tr| - 1] == s
  }

  ghost predicate SysInv(s: Sys) {
    && (forall p :: p in s ==> ProcInv(s[p]))
    && (forall p, q :: p in s && q in s && p != q ==> !Clash(s[p].dms, s[q].dms))
  }

  /** A step takes the switch only as the kernel granted it. */
  lemma SwitchAfter(p: Proc, l: Label)
    requires Enabled(p, l)
    ensures var d := StepProc(p, l).dms;
      || d == p.dms || d == Unlocked
      || (l == WriteAnswer(true) && d == WriteLock) || (l == ReadAnswer(true) && d == ReadLock)
  {
  }

  lemma StepKeepsInv(s: Sys, p: Pid, l: Label)
    requires SysInv(s) && CanStep(s, p, l)
    ensures SysInv(Next(s, p, l))
  {
    StepKeepsProc(s[p], l);
    SwitchAfter(s[p], l);
    hide ProcInv, StepProc, Enabled;
  }

  lemma {:induction false} RunInv(tr: seq<Sys>, k: nat)
    requires Run(tr) && k < |tr|
    ensures SysInv(tr[k])
  {
    if k == 0 {
    } else {
      RunInv(tr, k - 1);
      hide SysInv, CanStep, Next;
      assert tr[k - 1 + 1] == tr[k];
      var p, l :| CanStep(tr[k - 1], p, l) && tr[k] == Next(tr[k - 1], p, l);
      StepKeepsInv(tr[k - 1], p, l);
    }
  }

  lemma ReachableInv(s: Sys)
    requires Reachable(s)
    ensures SysInv(s)
  {
    var tr :| Run(tr) && tr[|tr| - 1] == s;
    RunInv(tr, |tr| - 1);
    hide SysInv;
  }

  // ---------------------------------------------------------------- theorems

  /** In every reachable state nRef is the number of connections that are opened but not linked,
  linked, or unlinked but not released; the list holds exactly the linked ones. */
  lemma RefCountIsUsers(s: Sys, p: Pid)
    requires Reachable(s) && p in s && s[p].node.SomeNode?
    ensures s[p].node.node.nRef == |Users(s[p])|
    ensures forall c :: c in s[p].node.node.list <==> PhaseOf(s[p], c).Linked?
  {
    ReachableInv(s);
    assert ProcInv(s[p]);
  }

  /** A connection that has counted itself never finds its node gone, so linking, unlinking and
  releasing never touch freed memory; nor does the thread that is opening the file. */
  lemma NodeInUseIsThere(s: Sys, p: Pid, c: Cid)
    requires Reachable(s) && p in s
    requires PhaseOf(s[p], c) != Absent || !s[p].opening.NotOpening?
    ensures s[p].node.SomeNode?
    ensures PhaseOf(s[p], c) != Absent ==> s[p].node.node.nRef > 0
  {
    ReachableInv(s);
    assert ProcInv(s[p]);
    if PhaseOf(s[p], c) != Absent {
      assert c in Users(s[p]);
    }
  }

  /** A step frees the node exactly when it leaves nobody using or opening it, and its list is then
  empty. */
  lemma FreedIffUnused(s: Sys, p: Pid, l: Label)
    requires Reachable(s) && CanStep(s, p, l) && s[p].node.SomeNode?
    ensures var q := Next(s, p, l)[p];
      && (q.node.NoNode? <==> Users(q) == {} && q.opening.NotOpening?)
      && (q.node.NoNode? ==> s[p].node.node.list == [] && q.dms == Unlocked)
  {
    ReachableInv(s);
    assert ProcInv(s[p]);
    var q := StepProc(s[p], l);
    StepKeepsProc(s[p], l);
    if q.node.NoNode? {
      FreedList(s[p], l);
    }
  }

  lemma FreedList(p: Proc, l: Label)
    requires ProcInv(p) && Enabled(p, l) && p.node.SomeNode? && StepProc(p, l).node.NoNode?
    ensures p.node.node.list == []
  {
    var list := p.node.node.list;
    if list != [] {
      assert list[0] in list;
      assert PhaseOf(p, list[0]).Linked?;
      assert list[0] in Users(p);
      if l.Release? {
        assert {l.c, list[0]} <= Users(p);
        SubsetSize({l.c, list[0]}, Users(p));
      }
    }
  }

  lemma {:induction false} SubsetSize(a: set<Cid>, b: set<Cid>)
    requires a <= b
    ensures |a| <= |b|
  {
    if a == {} {
    } else {
      var x :| x in a;
      SubsetSize(a - {x}, b - {x});
    }
  }

  /** The file is never truncated while another process has completed its open, nor does another
  process complete one until the truncating thread has finished or given up. */
  lemma NeverTruncatedInUse(s: Sys, p: Pid, q: Pid)
    requires Reachable(s) && p in s && q in s && p != q && !s[q].heap
    requires s[p].opening.Truncate? || s[p].dms == WriteLock
    ensures Users(s[q]) == {} && !s[q].opening.Truncate?
    ensures forall l :: CanStep(s, q, l) ==> Users(Next(s, q, l)[q]) == {}
  {
    ReachableInv(s);
    assert ProcInv(s[p]) && ProcInv(s[q]);
    assert !Clash(s[p].dms, s[q].dms);
    forall l | CanStep(s, q, l)
      ensures Users(Next(s, q, l)[q]) == {}
    {
      StepKeepsInv(s, q, l);
      NobodyCompletes(s, p, q, l);
    }
  }

  lemma NobodyCompletes(s: Sys, p: Pid, q: Pid, l: Label)
    requires SysInv(s) && CanStep(s, q, l) && SysInv(Next(s, q, l)) && p in s && p != q && !s[q].heap
      && s[p].dms == WriteLock
    ensures Users(Next(s, q, l)[q]) == {}
  {
  }

  // ---------------------------------------------------------------- what becomes of an open

  /** What a step makes of each connection: it goes from absent to counted, linked, unlinked and absent
  again, one at a time, and the opening thread's connection is counted exactly by its last answer. */
  lemma ConnectionsMove(s: Sys, p: Pid, l: Label, d: Cid)
    requires Reachable(s) && CanStep(s, p, l)
    ensures PhaseOf(Next(s, p, l)[p], d) ==
      if l == Begin(d) && (s[p].node.SomeNode? || s[p].heap) then Counted
      else if l == ReadAnswer(true) && s[p].opening.c == d then Counted
      else if l == Link(d) then Linked
      else if l == Unlink(d) then Unlinked
      else if l == Release(d) then Absent
      else PhaseOf(s[p], d)
  {
    ReachableInv(s);
    assert ProcInv(s[p]);
  }

  /** The connection that is being opened. */
  predicate Opens(p: Proc, c: Cid) {
    !p.opening.NotOpening? && p.opening.c == c
  }

  /** The first connection of a process that is not in exclusive mode has to ask for the switch. */
  lemma BeginAsks(s: Sys, p: Pid, c: Cid)
    requires Reachable(s) && p in s && s[p].node.NoNode? && !s[p].heap
    ensures CanStep(s, p, Begin(c))
    ensures Next(s, p, Begin(c))[p].opening == TryWriteLock(c)
  {
    ReachableInv(s);
    assert ProcInv(s[p]);
    NoUsers(s[p]);
  }

  /** An open is given up exactly when the file cannot be truncated or the read-lock is refused. */
  lemma OpenFailsIff(s: Sys, p: Pid, c: Cid, l: Label)
    requires Reachable(s) && CanStep(s, p, l) && Opens(s[p], c)
    ensures var t := Next(s, p, l)[p];
      !Opens(t, c) && PhaseOf(t, c) != Counted <==> l == TruncateAnswer(false) || l == ReadAnswer(false)
    ensures !Opens(Next(s, p, l)[p], c) && PhaseOf(Next(s, p, l)[p], c) == Counted <==> l == ReadAnswer(true)
  {
    ReachableInv(s);
    assert ProcInv(s[p]);
  }

  ghost predicate OwnStep(s: Sys, t: Sys, p: Pid) {
    exists l :: CanStep(s, p, l) && t == Next(s, p, l)
  }

  /** A run of p's steps alone. */
  ghost predicate OwnRun(tr: seq<Sys>, p: Pid) {
    |tr| > 0 && forall k :: 0 <= k < |tr| - 1 ==> OwnStep(tr[k], tr[k + 1], p)
  }

  lemma OneStepRun(s: Sys, p: Pid, l: Label, rest: seq<Sys>)
    requires CanStep(s, p, l) && OwnRun(rest, p) && rest[0] == Next(s, p, l)
    ensures OwnRun([s] + rest, p)
  {
    assert OwnStep(s, rest[0], p);
    hide OwnStep;
    var tr := [s] + rest;
    forall k | 0 <= k < |tr| - 1
      ensures OwnStep(tr[k], tr[k + 1], p)
    {
      if k > 0 {
        assert OwnStep(rest[k - 1], rest[k - 1 + 1], p);
      }
    }
  }

  /** The switch is free for readers as far as the other processes go. */
  ghost predicate NobodyElseWrites(s: Sys, p: Pid) {
    forall q :: q in s && q != p ==> s[q].dms != WriteLock
  }

  lemma ReadLockCompletes(s: Sys, p: Pid, c: Cid) returns (tr: seq<Sys>)
    requires SysInv(s) && p in s && s[p].opening == TryReadLock(c) && NobodyElseWrites(s, p)
    ensures OwnRun(tr, p) && tr[0] == s
    ensures var t := tr[|tr| - 1]; p in t && PhaseOf(t[p], c) == Counted && t[p].opening.NotOpening?
  {
    assert ProcInv(s[p]);
    assert CanStep(s, p, ReadAnswer(true));
    OneStepRun(s, p, ReadAnswer(true), [Next(s, p, ReadAnswer(true))]);
    tr := [s] + [Next(s, p, ReadAnswer(true))];
  }

  /** Unless another process has the switch for writing, an open can be completed by the steps of its
  process alone, whichever way the request for the write-lock is answered; and it can be refused. */
  lemma OpenCompletes(s: Sys, p: Pid, c: Cid, ok: bool) returns (tr: seq<Sys>)
    requires Reachable(s) && p in s && s[p].opening == TryWriteLock(c) && NobodyElseWrites(s, p)
    requires CanStep(s, p, WriteAnswer(ok))
    ensures CanStep(s, p, WriteAnswer(false))
    ensures OwnRun(tr, p) && tr[0] == Next(s, p, WriteAnswer(ok))
    ensures var t := tr[|tr| - 1]; p in t && PhaseOf(t[p], c) == Counted && t[p].opening.NotOpening?
  {
    ReachableInv(s);
    var s1 := Next(s, p, WriteAnswer(ok));
    StepKeepsInv(s, p, WriteAnswer(ok));
    if ok {
      var s2 := Next(s1, p, TruncateAnswer(true));
      StepKeepsInv(s1, p, TruncateAnswer(true));
      tr := ReadLockCompletes(s2, p, c);
      OneStepRun(s1, p, TruncateAnswer(true), tr);
      tr := [s1] + tr;
    } else {
      tr := ReadLockCompletes(s1, p, c);
    }
  }

  /** A run with its steps. */
  datatype Event = Event(pid: Pid, act: Label)

  ghost predicate Steps(tr: seq<Sys>, es: seq<Event>) {
    && |tr| == |es| + 1
    && forall i :: 0 <= i < |es| ==>
      CanStep(tr[i], es[i].pid, es[i].act) && tr[i + 1] == Next(tr[i], es[i].pid, es[i].act)
  }

  lemma {:induction false} StillToTruncate(tr: seq<Sys>, es: seq<Event>, p: Pid, c: Cid, n: nat)
    requires Steps(tr, es) && n <= |es| && SysInv(tr[0]) && p in tr[0] && tr[0][p].opening == Truncate(c)
    requires forall i :: 0 <= i < n ==> p in tr[i] && Opens(tr[i][p], c)
    requires forall i :: 0 <= i < n ==> es[i] != Event(p, TruncateAnswer(true))
    ensures SysInv(tr[n]) && p in tr[n] && PhaseOf(tr[n][p], c) == Absent
    ensures tr[n][p].opening == Truncate(c) || tr[n][p].opening.NotOpening?
  {
    if n == 0 {
      assert ProcInv(tr[0][p]);
    } else {
      StillToTruncate(tr, es, p, c, n - 1);
      var s, e := tr[n - 1], es[n - 1];
      assert CanStep(s, e.pid, e.act) && tr[n - 1 + 1] == Next(s, e.pid, e.act);
      assert Opens(tr[n - 1][p], c);
      StepKeepsInv(s, e.pid, e.act);
      hide SysInv;
      if e.pid == p {
        BeforeTruncating(s[p], c, e.act);
      }
    }
  }

  lemma BeforeTruncating(p: Proc, c: Cid, l: Label)
    requires Enabled(p, l) && p.opening == Truncate(c) && PhaseOf(p, c) == Absent && l != TruncateAnswer(true)
    ensures var t := StepProc(p, l);
      PhaseOf(t, c) == Absent && (t.opening == Truncate(c) || t.opening.NotOpening?)
  {
  }

  /** A thread that has won the write-lock is counted, in the same open, only after it has truncated the
  file. */
  lemma WinnerTruncatesFirst(tr: seq<Sys>, es: seq<Event>, p: Pid, c: Cid)
    requires Steps(tr, es) && Reachable(tr[0]) && p in tr[0] && tr[0][p].opening == Truncate(c)
    requires forall i :: 0 <= i < |es| ==> p in tr[i] && Opens(tr[i][p], c)
    requires p in tr[|es|] && PhaseOf(tr[|es|][p], c) == Counted
    ensures exists i :: 0 <= i < |es| && es[i] == Event(p, TruncateAnswer(true))
  {
    if forall i :: 0 <= i < |es| ==> es[i] != Event(p, TruncateAnswer(true)) {
      ReachableInv(tr[0]);
      StillToTruncate(tr, es, p, c, |es|);
    }
  }

  /** Only a thread that has won it truncates. */
  lemma OnlyWinnerTruncates(s: Sys, p: Pid, c: Cid, l: Label)
    requires Reachable(s) && CanStep(s, p, l) && s[p].opening != Truncate(c)
    ensures Next(s, p, l)[p].opening == Truncate(c) <==> l == WriteAnswer(true) && Opens(s[p], c)
  {
    ReachableInv(s);
    assert ProcInv(s[p]);
  }
}
