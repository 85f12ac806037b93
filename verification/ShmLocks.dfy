/** unixShmLock(): the connections of one process share one kernel lock per slot, yet together with
all other processes they behave as one flat table of reader/writer locks. */
module ShmLocks {
  import opened PosixOs
  import opened ShmMask

  type Pid = nat
  type Cid = nat

  /** unixShm: the slots a connection holds shared and exclusive. */
  datatype Shm = Shm(sharedMask: bv16, exclMask: bv16)

  type Conns = map<Cid, Shm>

  /** The kernel locks of one process on the slot bytes. */
  type Slots = s: seq<Mode> | |s| == SQLITE_SHM_NLOCK
    witness [Unlocked, Unlocked, Unlocked, Unlocked, Unlocked, Unlocked, Unlocked, Unlocked]

  const NO_SLOTS: Slots := [Unlocked, Unlocked, Unlocked, Unlocked, Unlocked, Unlocked, Unlocked, Unlocked]

  /** The lock requests of the WAL layer. */
  datatype Request =
    | LockShared(ofst: nat)
    | LockExclusive(ofst: nat, n: nat)
    | Unlock(ofst: nat, n: nat)

  predicate Covers(r: Request, i: Slot) {
    match r
    case LockShared(ofst) => i == ofst
    case LockExclusive(ofst, n) => ofst <= i < ofst + n
    case Unlock(ofst, n) => ofst <= i < ofst + n
  }

  predicate InSlotRange(r: Request) {
    match r
    case LockShared(ofst) => ofst < SQLITE_SHM_NLOCK
    case LockExclusive(ofst, n) => 1 <= n < SQLITE_SHM_NLOCK && ofst + n <= SQLITE_SHM_NLOCK
    case Unlock(ofst, n) => 1 <= n < SQLITE_SHM_NLOCK && ofst + n <= SQLITE_SHM_NLOCK
  }

  predicate HasShared(cs: Conns, c: Cid, i: Slot) {
    c in cs && Has(cs[c].sharedMask, i)
  }

  predicate HasExcl(cs: Conns, c: Cid, i: Slot) {
    c in cs && Has(cs[c].exclMask, i)
  }

  predicate HasAny(cs: Conns, c: Cid, i: Slot) {
    HasShared(cs, c, i) || HasExcl(cs, c, i)
  }

  // ---------------------------------------------------------------- what unixShmLock() does

  /** What the siblings' masks say about a request. */
  datatype Local = Refused | NoCall | Fcntl(mode: Mode)

  ghost function LocalAnswer(cs: Conns, c: Cid, r: Request): Local
    requires InSlotRange(r)
  {
    match r
    case LockShared(ofst) =>
      if exists d :: HasExcl(cs, d, ofst) then Refused
      else if exists d :: HasShared(cs, d, ofst) then NoCall
      else Fcntl(ReadLock)
    case LockExclusive(ofst, n) =>
      if exists d, i: Slot :: Covers(r, i) && HasAny(cs, d, i) then Refused else Fcntl(WriteLock)
    case Unlock(ofst, n) =>
      if exists d, i: Slot :: d != c && Covers(r, i) && HasShared(cs, d, i) then NoCall else Fcntl(Unlocked)
  }

  /** The connection's masks after its request was granted. */
  function GrantedMasks(k: Shm, r: Request): Shm
    requires InSlotRange(r)
  {
    match r
    case LockShared(ofst) => k.(sharedMask := Or(k.sharedMask, Mask(ofst, 1)))
    case LockExclusive(ofst, n) => k.(exclMask := Or(k.exclMask, Mask(ofst, n)))
    case Unlock(ofst, n) => Shm(Without(k.sharedMask, Mask(ofst, n)), Without(k.exclMask, Mask(ofst, n)))
  }

  function SetSlots(os: Slots, r: Request, m: Mode): Slots {
    seq(SQLITE_SHM_NLOCK, i requires 0 <= i < SQLITE_SHM_NLOCK => if Covers(r, i) then m else os[i])
  }

  /** The caller unlocks only what it holds: one slot in either mode, or several exclusively. */
  ghost predicate HeldByCaller(cs: Conns, c: Cid, r: Request) {
    r.Unlock? ==>
      (forall i: Slot :: Covers(r, i) ==> HasAny(cs, c, i))
      && (r.n == 1 || forall i: Slot :: Covers(r, i) ==> HasExcl(cs, c, i))
  }

  // ---------------------------------------------------------------- the coupling invariant

  /** What the kernel should hold for a process on slot i. */
  ghost function JoinMode(cs: Conns, i: Slot): Mode {
    if exists c :: HasExcl(cs, c, i) then WriteLock
    else if exists c :: HasShared(cs, c, i) then ReadLock
    else Unlocked
  }

  ghost predicate Joined(cs: Conns, os: Slots) {
    forall i: Slot :: os[i] == JoinMode(cs, i)
  }

  /** An exclusive holder has no sibling on its slot and no shared lock of its own. */
  ghost predicate SlotExclusive(cs: Conns, i: Slot) {
    forall c, d :: HasExcl(cs, c, i) ==> !HasShared(cs, d, i) && (d != c ==> !HasExcl(cs, d, i))
  }

  ghost predicate LocallyExclusive(cs: Conns) {
    forall i: Slot :: SlotExclusive(cs, i)
  }

  ghost predicate MasksInSlots(cs: Conns) {
    forall c :: c in cs ==> InSlots(cs[c].sharedMask) && InSlots(cs[c].exclMask)
  }

  ghost predicate NodeInv(cs: Conns, os: Slots) {
    Joined(cs, os) && LocallyExclusive(cs) && MasksInSlots(cs)
  }

  /** How a grant changes the connection on each slot. */
  lemma GrantedBits(k: Shm, r: Request, i: Slot)
    requires InSlotRange(r)
    ensures Has(GrantedMasks(k, r).sharedMask, i) <==>
            (if Covers(r, i) then r.LockShared? || (r.LockExclusive? && Has(k.sharedMask, i)) else Has(k.sharedMask, i))
    ensures Has(GrantedMasks(k, r).exclMask, i) <==>
            (if Covers(r, i) then r.LockExclusive? || (r.LockShared? && Has(k.exclMask, i)) else Has(k.exclMask, i))
  {
    hide Mask, Has, InSlots, Or, Without;
    match r
    case LockShared(ofst) =>
      MaskBits(ofst, 1, i);
      OrBits(k.sharedMask, Mask(ofst, 1), i);
    case LockExclusive(ofst, n) =>
      MaskBits(ofst, n, i);
      OrBits(k.exclMask, Mask(ofst, n), i);
    case Unlock(ofst, n) =>
      MaskBits(ofst, n, i);
      WithoutBits(k.sharedMask, Mask(ofst, n), i);
      WithoutBits(k.exclMask, Mask(ofst, n), i);
  }

  lemma GrantedSlots(k: Shm, r: Request)
    requires InSlotRange(r) && InSlots(k.sharedMask) && InSlots(k.exclMask)
    ensures InSlots(GrantedMasks(k, r).sharedMask) && InSlots(GrantedMasks(k, r).exclMask)
  {
    hide Mask, Has, InSlots, Or, Without;
    match r
    case LockShared(ofst) =>
      MaskSlots(ofst, 1);
      OrSlots(k.sharedMask, Mask(ofst, 1));
    case LockExclusive(ofst, n) =>
      MaskSlots(ofst, n);
      OrSlots(k.exclMask, Mask(ofst, n));
    case Unlock(ofst, n) =>
      WithoutSlots(k.sharedMask, Mask(ofst, n));
      WithoutSlots(k.exclMask, Mask(ofst, n));
  }

  // ---------------------------------------------------------------- one process

  /** The masks of a process after one connection's request is granted. */
  function Grant(cs: Conns, c: Cid, r: Request): Conns
    requires c in cs && InSlotRange(r)
  {
    cs[c := GrantedMasks(cs[c], r)]
  }

  lemma GrantBits(cs: Conns, c: Cid, r: Request, d: Cid, i: Slot)
    requires c in cs && InSlotRange(r)
    ensures d != c || !Covers(r, i) ==>
      && (HasShared(Grant(cs, c, r), d, i) <==> HasShared(cs, d, i))
      && (HasExcl(Grant(cs, c, r), d, i) <==> HasExcl(cs, d, i))
    ensures d == c && Covers(r, i) ==>
      && (HasShared(Grant(cs, c, r), d, i) <==> r.LockShared? || (r.LockExclusive? && HasShared(cs, d, i)))
      && (HasExcl(Grant(cs, c, r), d, i) <==> r.LockExclusive? || (r.LockShared? && HasExcl(cs, d, i)))
  {
    GrantedBits(cs[c], r, i);
    hide GrantedMasks, Has, InSlots;
  }

  /** Slots outside the request keep their holders. */
  lemma OutsideSame(cs: Conns, c: Cid, r: Request, i: Slot)
    requires c in cs && InSlotRange(r) && !Covers(r, i)
    ensures JoinMode(Grant(cs, c, r), i) == JoinMode(cs, i)
  {
    hide Has, GrantedMasks, Covers;
    forall d
      ensures HasShared(Grant(cs, c, r), d, i) <==> HasShared(cs, d, i)
      ensures HasExcl(Grant(cs, c, r), d, i) <==> HasExcl(cs, d, i)
    {
      GrantBits(cs, c, r, d, i);
    }
    hide Grant, HasShared, HasExcl;
  }

  /** What a grant does to the holders of a covered slot. */
  lemma InsideBits(cs: Conns, c: Cid, r: Request, i: Slot)
    requires c in cs && InSlotRange(r) && Covers(r, i)
    ensures var ds := Grant(cs, c, r);
      && (forall d :: d != c ==>
        (HasShared(ds, d, i) <==> HasShared(cs, d, i)) && (HasExcl(ds, d, i) <==> HasExcl(cs, d, i)))
      && (HasShared(ds, c, i) <==> r.LockShared? || (r.LockExclusive? && HasShared(cs, c, i)))
      && (HasExcl(ds, c, i) <==> r.LockExclusive? || (r.LockShared? && HasExcl(cs, c, i)))
  {
    forall d
      ensures d != c ==>
        && (HasShared(Grant(cs, c, r), d, i) <==> HasShared(cs, d, i))
        && (HasExcl(Grant(cs, c, r), d, i) <==> HasExcl(cs, d, i))
    {
      GrantBits(cs, c, r, d, i);
    }
    GrantBits(cs, c, r, c, i);
  }

  /** On a covered slot the join becomes what the local answer asks of the kernel. */
  lemma InsideJoin(cs: Conns, c: Cid, r: Request, i: Slot)
    requires c in cs && InSlotRange(r) && Covers(r, i) && LocallyExclusive(cs) && HeldByCaller(cs, c, r)
    requires !LocalAnswer(cs, c, r).Refused?
    ensures JoinMode(Grant(cs, c, r), i) ==
            match LocalAnswer(cs, c, r) case Fcntl(m) => m case _ => JoinMode(cs, i)
  {
    assert SlotExclusive(cs, i);
    InsideBits(cs, c, r, i);
    hide HasShared, HasExcl, Grant;
    match r
    case LockShared(ofst) =>
      assert i == ofst;
    case LockExclusive(_, _) =>
    case Unlock(ofst, n) =>
      assert HasAny(cs, c, i);
      if d, j: Slot :| d != c && Covers(r, j) && HasShared(cs, d, j) {
        assert n == 1 ==> j == i;
        assert SlotExclusive(cs, j);
        assert HasExcl(cs, c, j) ==> !HasShared(cs, d, j);
      }
  }

  /** A granted request leaves each slot either shared or with one exclusive holder. */
  lemma GrantExclusive(cs: Conns, c: Cid, r: Request, i: Slot)
    requires c in cs && InSlotRange(r) && SlotExclusive(cs, i) && !LocalAnswer(cs, c, r).Refused?
    ensures SlotExclusive(Grant(cs, c, r), i)
  {
    if Covers(r, i) {
      InsideBits(cs, c, r, i);
      hide HasShared, HasExcl, Grant;
      if r.LockExclusive? {
        forall d
          ensures !HasShared(cs, d, i) && !HasExcl(cs, d, i)
        {
          assert !HasAny(cs, d, i);
        }
      }
    } else {
      forall d
        ensures HasShared(Grant(cs, c, r), d, i) <==> HasShared(cs, d, i)
        ensures HasExcl(Grant(cs, c, r), d, i) <==> HasExcl(cs, d, i)
      {
        GrantBits(cs, c, r, d, i);
      }
      hide HasShared, HasExcl, Grant;
    }
  }

  /** The kernel's locks of the process after its connection's request succeeded. */
  ghost function SlotsAfter(cs: Conns, os: Slots, c: Cid, r: Request): Slots
    requires InSlotRange(r)
  {
    match LocalAnswer(cs, c, r)
    case Fcntl(m) => SetSlots(os, r, m)
    case _ => os
  }

  /** Masks and kernel locks move together. */
  lemma GrantKeepsNode(cs: Conns, os: Slots, c: Cid, r: Request)
    requires c in cs && InSlotRange(r) && NodeInv(cs, os) && HeldByCaller(cs, c, r) && !LocalAnswer(cs, c, r).Refused?
    ensures NodeInv(Grant(cs, c, r), SlotsAfter(cs, os, c, r))
  {
    forall i: Slot
      ensures SlotsAfter(cs, os, c, r)[i] == JoinMode(Grant(cs, c, r), i) && SlotExclusive(Grant(cs, c, r), i)
    {
      GrantExclusive(cs, c, r, i);
      hide GrantedMasks, HasShared, HasExcl, HasAny, JoinMode, SlotExclusive, HeldByCaller;
      if Covers(r, i) {
        InsideJoin(cs, c, r, i);
        hide Grant, LocalAnswer;
      } else {
        OutsideSame(cs, c, r, i);
        hide Grant, LocalAnswer;
      }
    }
    GrantedSlots(cs[c], r);
    hide GrantedMasks, InSlots, JoinMode, SlotExclusive, HeldByCaller, LocalAnswer, SlotsAfter;
  }

  // ---------------------------------------------------------------- connections come and go

  function Added(cs: Conns, c: Cid): Conns {
    cs[c := Shm(0, 0)]
  }

  function Dropped(cs: Conns, c: Cid): Conns {
    map d | d in cs && d != c :: cs[d]
  }

  /** A connection without locks may come and go. */
  lemma IdleConn(cs: Conns, ds: Conns, c: Cid, os: Slots)
    requires NodeInv(cs, os)
    requires forall d :: d in ds && d != c ==> d in cs && cs[d] == ds[d]
    requires forall d :: d in cs && d != c ==> d in ds
    requires (c in ds ==> ds[c] == Shm(0, 0)) && (c in cs ==> cs[c] == Shm(0, 0))
    ensures NodeInv(ds, os)
  {
    forall d, i: Slot
      ensures HasShared(cs, d, i) <==> HasShared(ds, d, i)
      ensures HasExcl(cs, d, i) <==> HasExcl(ds, d, i)
    {
    }
    forall i: Slot
      ensures JoinMode(cs, i) == JoinMode(ds, i) && SlotExclusive(ds, i)
    {
      assert SlotExclusive(cs, i);
      hide HasShared, HasExcl;
    }
  }

  /** The siblings of c hold what c holds. */
  ghost predicate SafeDrop(cs: Conns, c: Cid) {
    forall i: Slot ::
      !HasExcl(cs, c, i) && (HasShared(cs, c, i) ==> exists d :: d != c && HasShared(cs, d, i))
  }

  lemma DropBits(cs: Conns, c: Cid, d: Cid, i: Slot)
    ensures HasShared(Dropped(cs, c), d, i) <==> d != c && HasShared(cs, d, i)
    ensures HasExcl(Dropped(cs, c), d, i) <==> d != c && HasExcl(cs, d, i)
  {
    hide Has;
  }

  lemma DropAt(cs: Conns, c: Cid, i: Slot)
    requires c in cs && SlotExclusive(cs, i)
    ensures SlotExclusive(Dropped(cs, c), i)
    ensures JoinMode(Dropped(cs, c), i) == JoinMode(cs, i) <==>
            !HasExcl(cs, c, i) && (HasShared(cs, c, i) ==> exists d :: d != c && HasShared(cs, d, i))
  {
    hide HasShared, HasExcl;
    forall d
      ensures HasShared(Dropped(cs, c), d, i) <==> d != c && HasShared(cs, d, i)
      ensures HasExcl(Dropped(cs, c), d, i) <==> d != c && HasExcl(cs, d, i)
    {
      DropBits(cs, c, d, i);
    }
    hide Dropped;
  }

  /** When a connection goes, with whatever it holds, the kernel's locks are still the join of the masks
  exactly if its siblings hold what it holds. */
  lemma DropKeepsNodeIff(cs: Conns, os: Slots, c: Cid)
    requires c in cs && NodeInv(cs, os)
    ensures NodeInv(Dropped(cs, c), os) <==> SafeDrop(cs, c)
  {
    hide HasShared, HasExcl, JoinMode;
    forall i: Slot
      ensures SlotExclusive(Dropped(cs, c), i)
      ensures JoinMode(Dropped(cs, c), i) == os[i] <==>
              !HasExcl(cs, c, i) && (HasShared(cs, c, i) ==> exists d :: d != c && HasShared(cs, d, i))
    {
      assert SlotExclusive(cs, i);
      DropAt(cs, c, i);
    }
    assert MasksInSlots(Dropped(cs, c));
    hide Dropped, SlotExclusive, InSlots;
  }

  // ---------------------------------------------------------------- unlocking more than is held

  /** Some sibling reads a slot of the range: unixShmLock() then leaves the kernel's locks alone. */
  ghost predicate SiblingReads(cs: Conns, c: Cid, r: Request) {
    exists d, j: Slot :: d != c && Covers(r, j) && HasShared(cs, d, j)
  }

  /** If a sibling reads in the range, then whatever the caller gives up there must still be read by a
  sibling; otherwise no sibling may write in the range. */
  ghost predicate SafeUnlock(cs: Conns, c: Cid, r: Request) {
    if SiblingReads(cs, c, r) then
      forall i: Slot :: Covers(r, i) ==>
        !HasExcl(cs, c, i) && (HasShared(cs, c, i) ==> exists d :: d != c && HasShared(cs, d, i))
    else
      forall d, i: Slot :: d != c && Covers(r, i) ==> !HasExcl(cs, d, i)
  }

  /** What an unlock leaves on a covered slot is what the siblings hold there. */
  lemma UnlockLeavesSiblings(cs: Conns, c: Cid, r: Request, i: Slot)
    requires c in cs && InSlotRange(r) && r.Unlock? && Covers(r, i)
    ensures JoinMode(Grant(cs, c, r), i) == WriteLock <==> exists d :: d != c && HasExcl(cs, d, i)
    ensures JoinMode(Grant(cs, c, r), i) == Unlocked <==>
      forall d :: d != c ==> !HasShared(cs, d, i) && !HasExcl(cs, d, i)
  {
    InsideBits(cs, c, r, i);
    hide HasShared, HasExcl, Grant;
  }

  lemma UnlockAt(cs: Conns, c: Cid, r: Request, i: Slot)
    requires c in cs && InSlotRange(r) && r.Unlock? && Covers(r, i) && SlotExclusive(cs, i)
    ensures JoinMode(Grant(cs, c, r), i) == JoinMode(cs, i) <==>
            !HasExcl(cs, c, i) && (HasShared(cs, c, i) ==> exists d :: d != c && HasShared(cs, d, i))
  {
    InsideBits(cs, c, r, i);
    hide HasShared, HasExcl, Grant;
  }

  /** Any unlock, of slots held or not, keeps the kernel's locks equal to the join of the masks
  exactly when it is safe. */
  lemma UnlockKeepsJoinIff(cs: Conns, os: Slots, c: Cid, r: Request)
    requires c in cs && InSlotRange(r) && r.Unlock? && NodeInv(cs, os)
    ensures Joined(Grant(cs, c, r), SlotsAfter(cs, os, c, r)) <==> SafeUnlock(cs, c, r)
  {
    forall i: Slot | !Covers(r, i)
      ensures JoinMode(Grant(cs, c, r), i) == os[i]
    {
      OutsideSame(cs, c, r, i);
    }
    forall i: Slot | Covers(r, i)
      ensures JoinMode(Grant(cs, c, r), i) == os[i] <==>
              !HasExcl(cs, c, i) && (HasShared(cs, c, i) ==> exists d :: d != c && HasShared(cs, d, i))
      ensures JoinMode(Grant(cs, c, r), i) == Unlocked <==>
        forall d :: d != c ==> !HasShared(cs, d, i) && !HasExcl(cs, d, i)
    {
      assert SlotExclusive(cs, i);
      UnlockAt(cs, c, r, i);
      UnlockLeavesSiblings(cs, c, r, i);
    }
    hide HasShared, HasExcl, Grant, JoinMode, NodeInv;
  }

  /** Unlocking two slots of which the caller reads only the first, while a sibling reads only the
  second, leaves the kernel's read lock on the first behind. */
  lemma LeakedReadLock()
    ensures var cs: Conns := map[0 := Shm(0x1, 0), 1 := Shm(0x2, 0)];
            var os := [ReadLock, ReadLock, Unlocked, Unlocked, Unlocked, Unlocked, Unlocked, Unlocked];
            NodeInv(cs, os) && !Joined(Grant(cs, 0, Unlock(0, 2)), SlotsAfter(cs, os, 0, Unlock(0, 2)))
  {
    var cs: Conns := map[0 := Shm(0x1, 0), 1 := Shm(0x2, 0)];
    var os := [ReadLock, ReadLock, Unlocked, Unlocked, Unlocked, Unlocked, Unlocked, Unlocked];
    assert HasShared(cs, 0, 0) && HasShared(cs, 1, 1);
    forall c, i: Slot
      ensures !HasExcl(cs, c, i) && (HasShared(cs, c, i) <==> c < 2 && c == i)
    {
    }
    assert InSlots(0x1) && InSlots(0x2) && InSlots(0);
    hide HasShared, HasExcl, InSlots;
    var r := Unlock(0, 2);
    assert Covers(r, 0) && Covers(r, 1);
    assert NodeInv(cs, os);
    UnlockKeepsJoinIff(cs, os, 0, r);
    assert SiblingReads(cs, 0, r);
  }
}
