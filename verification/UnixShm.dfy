/** The shared-memory node of one process: a linked list of connections whose masks unixShmLock()
reads and writes under the node's mutex.  Each method is proved to do what ShmLocks says. */
module UnixShm {
  import opened PosixOs
  import opened ShmMask
  import opened ShmLocks

  class ShmConn {
    ghost const id: Cid
    var next: ShmConn?
    var sharedMask: bv16
    var exclMask: bv16

    constructor (ghost c: Cid)
      ensures id == c && next == null && sharedMask == 0 && exclMask == 0
    {
      id := c;
      next := null;
      sharedMask := 0;
      exclMask := 0;
    }
  }

  class ShmNode {
    var first: ShmConn?
    /** The connections on the list, in order. */
    ghost var conns: seq<ShmConn>
    ghost var byId: map<Cid, ShmConn>
    /** False for the node of an exclusive-mode process, which has no file and makes no call. */
    const inFile: bool
    /** The locks the kernel has granted to this process on the slot bytes. */
    var kernel: Slots
    /** The locks of all connections together; with a file, those the kernel has. */
    ghost var os: Slots

    ghost predicate Indexed()
      reads this`conns, this`byId
    {
      && (forall x :: x in conns ==> x.id in byId && byId[x.id] == x)
      && (forall c :: c in byId ==> byId[c] in conns && byId[c].id == c)
    }

    ghost function NextAt(k: nat): ShmConn?
      reads this`conns
    {
      if k < |conns| then conns[k] else null
    }

    ghost predicate Linked()
      reads this`first, this`conns, conns`next
    {
      && first == NextAt(0)
      && (forall k {:trigger conns[k].next} :: 0 <= k < |conns| ==> conns[k].next == NextAt(k + 1))
      && (forall j, k :: 0 <= j < k < |conns| ==> conns[j] != conns[k])
    }

    /** The masks of all connections. */
    ghost function Table(): Conns
      requires Indexed()
      reads this`conns, this`byId, conns`sharedMask, conns`exclMask
    {
      map c | c in byId :: Shm(byId[c].sharedMask, byId[c].exclMask)
    }

    ghost predicate KernelOk()
      reads this`kernel, this`os
    {
      kernel == if inFile then os else NO_SLOTS
    }

    ghost predicate Valid()
      reads this, conns
    {
      Linked() && Indexed() && NodeInv(Table(), os) && KernelOk()
    }

    /** One of the first k connections, other than p, reads slot i. */
    ghost predicate ReadAmong(k: nat, p: ShmConn?, i: Slot)
      requires k <= |conns|
      reads this`conns, conns
    {
      exists j :: 0 <= j < k && conns[j] != p && Has(conns[j].sharedMask, i)
    }

    lemma NoneAmong(p: ShmConn?)
      ensures forall i: Slot :: !ReadAmong(0, p, i)
    {
    }

    lemma ReadAmongNext(k: nat, p: ShmConn?, i: Slot)
      requires k < |conns|
      ensures ReadAmong(k + 1, p, i) <==> ReadAmong(k, p, i) || (conns[k] != p && Has(conns[k].sharedMask, i))
    {
    }

    lemma ReadAmongAll(p: ShmConn?, i: Slot)
      requires Indexed() && (p != null ==> p in conns)
      ensures ReadAmong(|conns|, p, i) <==> exists d :: (p == null || d != p.id) && HasShared(Table(), d, i)
    {
      hide Has;
      if ReadAmong(|conns|, p, i) {
        var j :| 0 <= j < |conns| && conns[j] != p && Has(conns[j].sharedMask, i);
        assert HasShared(Table(), conns[j].id, i);
      }
      if d :| (p == null || d != p.id) && HasShared(Table(), d, i) {
        assert byId[d] in conns;
      }
    }

    /** The slots that the siblings of p hold shared. */
    method SharedBySiblings(p: ShmConn) returns (allMask: bv16)
      requires Linked() && Indexed() && p in conns && MasksInSlots(Table()) && LocallyExclusive(Table())
      ensures InSlots(allMask)
      ensures forall i: Slot :: Has(allMask, i) <==> ReadAmong(|conns|, p, i)
    {
      hide Has, InSlots, Or, Meets, ReadAmong, LocallyExclusive, MasksInSlots, Indexed, Table;
      allMask := 0;
      NoBits();
      var x := first;
      ghost var k := 0;
      NoneAmong(p);
      while x != null
        invariant 0 <= k <= |conns| && x == NextAt(k)
        invariant InSlots(allMask)
        invariant forall i: Slot :: Has(allMask, i) <==> ReadAmong(k, p, i)
        decreases |conns| - k
      {
        forall i: Slot {
          ReadAmongNext(k, p, i);
        }
        if x != p {
          NoOverlap(x, p);
          assert !Meets(x.exclMask, Or(p.exclMask, p.sharedMask));
          MasksOf(x);
          OrEach(allMask, x.sharedMask);
          allMask := Or(allMask, x.sharedMask);
        }
        x := x.next;
        k := k + 1;
      }
    }

    static lemma IsGrant(was: Conns, now: Conns, c: Cid, r: Request)
      requires c in was && was.Keys == now.Keys && InSlotRange(r)
      requires forall d :: d in was ==> now[d] == if d == c then GrantedMasks(was[c], r) else was[d]
      ensures now == Grant(was, c, r)
    {
    }

    /** New masks of a connection, seen in the table. */
    method SetMasks(p: ShmConn, sharedMask: bv16, exclMask: bv16, ghost r: Request)
      requires Linked() && Indexed() && p in conns && InSlotRange(r)
      requires Shm(sharedMask, exclMask) == GrantedMasks(Shm(p.sharedMask, p.exclMask), r)
      modifies p`sharedMask, p`exclMask
      ensures Linked() && Indexed()
      ensures Table() == Grant(old(Table()), p.id, r)
    {
      hide GrantedMasks, Linked, Grant;
      ghost var was := Table();
      assert was[p.id] == Shm(p.sharedMask, p.exclMask);
      p.sharedMask := sharedMask;
      p.exclMask := exclMask;
      forall c | c in byId
        ensures Table()[c] == if c == p.id then Shm(sharedMask, exclMask) else was[c]
      {
      }
      IsGrant(was, Table(), p.id, r);
    }

    lemma MasksOf(x: ShmConn)
      requires Indexed() && x in conns && MasksInSlots(Table())
      ensures InSlots(x.sharedMask) && InSlots(x.exclMask)
    {
      assert x.id in Table() && Table()[x.id] == Shm(x.sharedMask, x.exclMask);
    }

    lemma HasAt(x: ShmConn, i: Slot)
      requires Indexed() && x in conns
      ensures HasExcl(Table(), x.id, i) <==> Has(x.exclMask, i)
      ensures HasShared(Table(), x.id, i) <==> Has(x.sharedMask, i)
    {
    }

    /** No sibling holds exclusively what p holds at all, as the code asserts. */
    lemma NoOverlap(x: ShmConn, p: ShmConn)
      requires Indexed() && x in conns && p in conns && x != p && MasksInSlots(Table()) && LocallyExclusive(Table())
      ensures !Meets(x.exclMask, Or(p.exclMask, p.sharedMask))
    {
      MasksOf(x);
      MasksOf(p);
      hide Has, Meets, Or, InSlots;
      forall i: Slot
        ensures !(Has(x.exclMask, i) && Has(Or(p.exclMask, p.sharedMask), i))
      {
        OrBits(p.exclMask, p.sharedMask, i);
        assert SlotExclusive(Table(), i);
        HasAt(x, i);
        HasAt(p, i);
      }
      DisjointBits(x.exclMask, Or(p.exclMask, p.sharedMask));
    }

    /** The kernel is called exactly if no sibling reads a slot of the mask. */
    lemma UnlockMask(p: ShmConn, ofst: nat, n: nat, allMask: bv16)
      requires Indexed() && p in conns && InSlotRange(Unlock(ofst, n))
      requires forall i: Slot :: Has(allMask, i) <==> ReadAmong(|conns|, p, i)
      ensures LocalAnswer(Table(), p.id, Unlock(ofst, n)) ==
        if Meets(Mask(ofst, n), allMask) then NoCall else Fcntl(Unlocked)
    {
      hide Has, Meets, Mask, ReadAmong, InSlots, HasShared, Indexed, Table;
      MaskSlots(ofst, n);
      DisjointBits(Mask(ofst, n), allMask);
      forall i: Slot
        ensures Has(Mask(ofst, n), i) <==> Covers(Unlock(ofst, n), i)
        ensures Has(allMask, i) <==> exists d :: d != p.id && HasShared(Table(), d, i)
      {
        MaskBits(ofst, n, i);
        ReadAmongAll(p, i);
      }
    }

    /** unixShmSystemLock(): fcntl(F_SETLK) on the slot bytes, if there is a file; `granted` is the
    kernel's answer. */
    method UnixShmSystemLock(ghost r: Request, mode: Mode, ofst: nat, n: nat, granted: bool) returns (rc: bool)
      requires InSlotRange(r) && KernelOk()
      requires match mode
        case ReadLock => r == LockShared(ofst) && n == 1
        case WriteLock => r == LockExclusive(ofst, n)
        case Unlocked => r == Unlock(ofst, n)
      modifies this`kernel, this`os
      ensures KernelOk()
      ensures rc == (granted || !inFile)
      ensures os == if rc then SetSlots(old(os), r, mode) else old(os)
    {
      assert n == 1 || mode != ReadLock;
      assert 1 <= n < SQLITE_SHM_NLOCK;
      rc := true;
      if inFile {
        rc := SetLk(r, mode, ofst, n, granted);
      }
      if rc {
        os := SetSlots(os, r, mode);
      }
    }

    /** fcntl(F_SETLK) on the bytes of n slots. */
    method SetLk(ghost r: Request, mode: Mode, ofst: nat, n: nat, granted: bool) returns (rc: bool)
      requires InSlotRange(r) && ofst + n <= SQLITE_SHM_NLOCK
      requires forall i: Slot :: Covers(r, i) <==> ofst <= i < ofst + n
      modifies this`kernel
      ensures rc == granted
      ensures kernel == if granted then SetSlots(old(kernel), r, mode) else old(kernel)
    {
      rc := granted;
      if granted {
        var i := ofst;
        while i < ofst + n
          invariant ofst <= i <= ofst + n
          invariant forall j: Slot :: kernel[j] == if ofst <= j < i then mode else old(kernel)[j]
        {
          kernel := kernel[i := mode];
          i := i + 1;
        }
        assert kernel == SetSlots(old(kernel), r, mode);
      }
    }

    method UnlockSlots(p: ShmConn, ofst: nat, n: nat, granted: bool) returns (rc: bool)
      requires Linked() && Indexed() && NodeInv(Table(), os) && KernelOk()
      requires p in conns && InSlotRange(Unlock(ofst, n))
      modifies this`kernel, this`os, p
      ensures var l := LocalAnswer(old(Table()), p.id, Unlock(ofst, n)); rc == (l.NoCall? || granted || !inFile)
      ensures Linked() && Indexed() && KernelOk()
      ensures Table() == if rc then Grant(old(Table()), p.id, Unlock(ofst, n)) else old(Table())
      ensures os == if rc then SlotsAfter(old(Table()), old(os), p.id, Unlock(ofst, n)) else old(os)
    {
      ghost var r := Unlock(ofst, n);
      hide Has, InSlots, Or, Meets, Mask, Without, ReadAmong, LocallyExclusive, MasksInSlots, LocalAnswer, Grant,
        SetSlots, Joined, Table, Indexed, Linked;
      var mask := Mask(ofst, n);
      var allMask := SharedBySiblings(p);
      UnlockMask(p, ofst, n, allMask);
      if !Meets(mask, allMask) {
        rc := UnixShmSystemLock(r, Unlocked, ofst, n, granted);
      } else {
        rc := true;
      }
      if rc {
        SetMasks(p, Without(p.sharedMask, mask), Without(p.exclMask, mask), r);
      }
    }

    /** No connection, p included, holds a slot of the mask exclusively. */
    ghost predicate Unowned(k: nat, mask: bv16)
      requires k <= |conns|
      reads this`conns, conns
    {
      forall j :: 0 <= j < k ==> !Meets(conns[j].exclMask, mask)
    }

    lemma UnownedAll(mask: bv16, r: Request)
      requires Indexed() && InSlotRange(r) && InSlots(mask) && (forall i: Slot :: Has(mask, i) <==> Covers(r, i))
      requires MasksInSlots(Table())
      ensures Unowned(|conns|, mask) <==> forall d, i: Slot :: Covers(r, i) ==> !HasExcl(Table(), d, i)
    {
      hide Has, Meets, InSlots;
      forall j | 0 <= j < |conns|
        ensures !Meets(conns[j].exclMask, mask) <==>
          forall i: Slot :: Covers(r, i) ==> !HasExcl(Table(), conns[j].id, i)
      {
        MasksOf(conns[j]);
        DisjointBits(conns[j].exclMask, mask);
        hide HasExcl;
        forall i: Slot
          ensures Has(conns[j].exclMask, i) <==> HasExcl(Table(), conns[j].id, i)
        {
          HasAt(conns[j], i);
        }
      }
      forall d | d in byId
        ensures exists j :: 0 <= j < |conns| && conns[j].id == d
      {
        assert byId[d] in conns;
      }
    }

    /** The loop of a shared request: stop at an exclusive holder, else collect the readers. */
    method ScanShared(mask: bv16) returns (busy: bool, allShared: bv16)
      requires Linked() && Indexed() && MasksInSlots(Table())
      ensures busy <==> !Unowned(|conns|, mask)
      ensures !busy ==> InSlots(allShared) && forall i: Slot :: Has(allShared, i) <==> ReadAmong(|conns|, null, i)
    {
      hide Has, InSlots, Or, Meets, ReadAmong, MasksInSlots, Indexed, Table;
      busy, allShared := false, 0;
      NoBits();
      NoneAmong(null);
      var x := first;
      ghost var k := 0;
      while x != null
        invariant 0 <= k <= |conns| && x == NextAt(k)
        invariant !busy && Unowned(k, mask)
        invariant InSlots(allShared)
        invariant forall i: Slot :: Has(allShared, i) <==> ReadAmong(k, null, i)
        decreases |conns| - k
      {
        if Meets(x.exclMask, mask) {
          busy := true;
          return;
        }
        forall i: Slot {
          ReadAmongNext(k, null, i);
        }
        MasksOf(x);
        OrEach(allShared, x.sharedMask);
        allShared := Or(allShared, x.sharedMask);
        x := x.next;
        k := k + 1;
      }
    }

    ghost predicate Unread(k: nat, mask: bv16)
      requires k <= |conns|
      reads this`conns, conns
    {
      forall j :: 0 <= j < k ==> !Meets(conns[j].sharedMask, mask)
    }

    lemma UnreadAll(mask: bv16, r: Request)
      requires Indexed() && InSlotRange(r) && InSlots(mask) && (forall i: Slot :: Has(mask, i) <==> Covers(r, i))
      requires MasksInSlots(Table())
      ensures Unread(|conns|, mask) <==> forall d, i: Slot :: Covers(r, i) ==> !HasShared(Table(), d, i)
    {
      hide Has, Meets, InSlots;
      forall j | 0 <= j < |conns|
        ensures !Meets(conns[j].sharedMask, mask) <==>
          forall i: Slot :: Covers(r, i) ==> !HasShared(Table(), conns[j].id, i)
      {
        MasksOf(conns[j]);
        DisjointBits(conns[j].sharedMask, mask);
        hide HasShared;
        forall i: Slot
          ensures Has(conns[j].sharedMask, i) <==> HasShared(Table(), conns[j].id, i)
        {
          HasAt(conns[j], i);
        }
      }
      forall d | d in byId
        ensures exists j :: 0 <= j < |conns| && conns[j].id == d
      {
        assert byId[d] in conns;
      }
    }

    /** The loop of an exclusive request: stop at any holder. */
    method ScanExclusive(mask: bv16) returns (busy: bool)
      requires Linked()
      ensures busy <==> !Unowned(|conns|, mask) || !Unread(|conns|, mask)
    {
      hide Meets;
      busy := false;
      var x := first;
      ghost var k := 0;
      while x != null
        invariant 0 <= k <= |conns| && x == NextAt(k)
        invariant !busy && Unowned(k, mask) && Unread(k, mask)
        decreases |conns| - k
      {
        if Meets(x.exclMask, mask) || Meets(x.sharedMask, mask) {
          busy := true;
          return;
        }
        x := x.next;
        k := k + 1;
      }
    }

    lemma SharedMask(c: Cid, ofst: nat, allShared: bv16)
      requires Indexed() && InSlotRange(LockShared(ofst)) && MasksInSlots(Table())
      requires InSlots(allShared) && forall i: Slot :: Has(allShared, i) <==> ReadAmong(|conns|, null, i)
      requires Unowned(|conns|, Mask(ofst, 1))
      ensures LocalAnswer(Table(), c, LockShared(ofst)) ==
        if Meets(allShared, Mask(ofst, 1)) then NoCall else Fcntl(ReadLock)
    {
      hide Has, Meets, Mask, ReadAmong, InSlots, HasShared, HasExcl, Unowned, Indexed, Table, MasksInSlots;
      var r := LockShared(ofst);
      forall i: Slot
        ensures Has(Mask(ofst, 1), i) <==> Covers(r, i)
      {
        MaskBits(ofst, 1, i);
      }
      MaskSlots(ofst, 1);
      UnownedAll(Mask(ofst, 1), r);
      DisjointBits(allShared, Mask(ofst, 1));
      ReadAmongAll(null, ofst);
      assert Covers(r, ofst);
    }

    lemma SharedRefused(c: Cid, ofst: nat)
      requires Indexed() && InSlotRange(LockShared(ofst)) && MasksInSlots(Table())
      requires !Unowned(|conns|, Mask(ofst, 1))
      ensures LocalAnswer(Table(), c, LockShared(ofst)) == Refused
    {
      hide Has, Meets, Mask, ReadAmong, InSlots, HasShared, HasExcl, Unowned, Indexed, Table, MasksInSlots;
      var r := LockShared(ofst);
      forall i: Slot
        ensures Has(Mask(ofst, 1), i) <==> Covers(r, i)
      {
        MaskBits(ofst, 1, i);
      }
      MaskSlots(ofst, 1);
      UnownedAll(Mask(ofst, 1), r);
    }

    lemma ExclusiveMask(c: Cid, ofst: nat, n: nat)
      requires Indexed() && InSlotRange(LockExclusive(ofst, n)) && MasksInSlots(Table())
      ensures LocalAnswer(Table(), c, LockExclusive(ofst, n)) ==
              if Unowned(|conns|, Mask(ofst, n)) && Unread(|conns|, Mask(ofst, n)) then Fcntl(WriteLock) else Refused
    {
      hide Has, Meets, Mask, ReadAmong, InSlots, HasShared, HasExcl, Unowned, Unread, Indexed, Table, MasksInSlots;
      var r := LockExclusive(ofst, n);
      forall i: Slot
        ensures Has(Mask(ofst, n), i) <==> Covers(r, i)
      {
        MaskBits(ofst, n, i);
      }
      MaskSlots(ofst, n);
      UnownedAll(Mask(ofst, n), r);
      UnreadAll(Mask(ofst, n), r);
      forall d, i: Slot
        ensures HasAny(Table(), d, i) <==> HasShared(Table(), d, i) || HasExcl(Table(), d, i)
      {
      }
    }

    /** A connection that asks for a slot exclusively does not hold it shared, as the code asserts. */
    lemma NothingShared(p: ShmConn, mask: bv16)
      requires p in conns && Unread(|conns|, mask)
      ensures !Meets(p.sharedMask, mask)
    {
    }

    method LockSharedSlot(p: ShmConn, ofst: nat, granted: bool) returns (rc: bool)
      requires Linked() && Indexed() && NodeInv(Table(), os) && KernelOk()
      requires p in conns && InSlotRange(LockShared(ofst))
      modifies this`kernel, this`os, p
      ensures var l := LocalAnswer(old(Table()), p.id, LockShared(ofst));
        rc == (l.NoCall? || (l.Fcntl? && (granted || !inFile)))
      ensures Linked() && Indexed() && KernelOk()
      ensures Table() == if rc then Grant(old(Table()), p.id, LockShared(ofst)) else old(Table())
      ensures os == if rc then SlotsAfter(old(Table()), old(os), p.id, LockShared(ofst)) else old(os)
    {
      ghost var r := LockShared(ofst);
      hide Has, InSlots, Or, Meets, Mask, ReadAmong, Unowned, LocallyExclusive, MasksInSlots, LocalAnswer, Grant,
        SetSlots, Joined, Table, Indexed, Linked;
      var mask := Mask(ofst, 1);
      var busy, allShared := ScanShared(mask);
      if busy {
        SharedRefused(p.id, ofst);
        rc := false;
        return;
      }
      SharedMask(p.id, ofst, allShared);
      if !Meets(allShared, mask) {
        rc := UnixShmSystemLock(r, ReadLock, ofst, 1, granted);
      } else {
        rc := true;
      }
      if rc {
        SetMasks(p, Or(p.sharedMask, mask), p.exclMask, r);
      }
    }

    method LockExclusiveSlots(p: ShmConn, ofst: nat, n: nat, granted: bool) returns (rc: bool)
      requires Linked() && Indexed() && NodeInv(Table(), os) && KernelOk()
      requires p in conns && InSlotRange(LockExclusive(ofst, n))
      modifies this`kernel, this`os, p
      ensures var l := LocalAnswer(old(Table()), p.id, LockExclusive(ofst, n)); rc == (l.Fcntl? && (granted || !inFile))
      ensures Linked() && Indexed() && KernelOk()
      ensures Table() == if rc then Grant(old(Table()), p.id, LockExclusive(ofst, n)) else old(Table())
      ensures os == if rc then SlotsAfter(old(Table()), old(os), p.id, LockExclusive(ofst, n)) else old(os)
    {
      ghost var r := LockExclusive(ofst, n);
      hide Has, InSlots, Or, Meets, Mask, Unowned, Unread, LocallyExclusive, MasksInSlots, LocalAnswer, Grant,
        SetSlots, Joined, Table, Indexed, Linked;
      var mask := Mask(ofst, n);
      var busy := ScanExclusive(mask);
      ExclusiveMask(p.id, ofst, n);
      if busy {
        rc := false;
        return;
      }
      rc := UnixShmSystemLock(r, WriteLock, ofst, n, granted);
      if rc {
        NothingShared(p, mask);
        assert !Meets(p.sharedMask, mask);
        SetMasks(p, p.sharedMask, Or(p.exclMask, mask), r);
      }
    }

    /** unixShmLock(): true is SQLITE_OK, false SQLITE_BUSY.  `granted` is what fcntl() answers, if it
    is called at all; in a node without a file it is not, and the masks alone decide. */
    method UnixShmLock(p: ShmConn, r: Request, granted: bool) returns (rc: bool)
      requires Valid() && p in conns && InSlotRange(r) && HeldByCaller(Table(), p.id, r)
      modifies this`kernel, this`os, p
      ensures Valid()
      ensures rc == match LocalAnswer(old(Table()), p.id, r)
        case Refused => false
        case NoCall => true
        case Fcntl(_) => granted || !inFile
      ensures Table() == if rc then Grant(old(Table()), p.id, r) else old(Table())
      ensures os == if rc then SlotsAfter(old(Table()), old(os), p.id, r) else old(os)
    {
      ghost var was := Table();
      if !LocalAnswer(was, p.id, r).Refused? {
        GrantKeepsNode(was, os, p.id, r);
      }
      hide Table, Linked, Indexed, NodeInv, HeldByCaller, Grant, SlotsAfter;
      match r
      case Unlock(ofst, n) => rc := UnlockSlots(p, ofst, n, granted);
      case LockShared(ofst) => rc := LockSharedSlot(p, ofst, granted);
      case LockExclusive(ofst, n) => rc := LockExclusiveSlots(p, ofst, n, granted);
    }

    /** p becomes the first connection of the node. */
    method Push(p: ShmConn)
      requires Linked() && p !in conns
      modifies this`first, this`conns, p`next
      ensures Linked() && conns == [p] + old(conns)
    {
      p.next := first;
      first := p;
      conns := [p] + conns;
    }

    /** The list is walked to the link that leads to p, which is then set past p.  A null `prev` stands for
    the node's own link to the first connection. */
    method Remove(p: ShmConn) returns (ghost k: nat)
      requires Linked() && p in conns
      modifies this`first, this`conns, conns`next
      ensures Linked() && p !in conns
      ensures k < |old(conns)| && old(conns)[k] == p && conns == old(conns)[..k] + old(conns)[k + 1..]
    {
      var prev: ShmConn? := null;
      var x := first;
      k := 0;
      ghost var n :| 0 <= n < |conns| && conns[n] == p;
      while x != p
        invariant 0 <= k <= n && x == NextAt(k)
        invariant prev == if k == 0 then null else conns[k - 1]
        decreases |conns| - k
      {
        prev := x;
        x := x.next;
        k := k + 1;
      }
      if prev == null {
        first := p.next;
      } else {
        prev.next := p.next;
      }
      conns := conns[..k] + conns[k + 1..];
    }

    /** The last lines of unixOpenSharedMemory(): the new connection joins the list. */
    method Link(p: ShmConn)
      requires Valid() && p !in conns && p.id !in byId && p.sharedMask == 0 && p.exclMask == 0
      modifies this`first, this`conns, this`byId, p`next
      ensures Valid()
      ensures conns == [p] + old(conns)
      ensures Table() == Added(old(Table()), p.id)
    {
      hide NodeInv, Linked;
      ghost var was := Table();
      IdleConn(was, Added(was, p.id), p.id, os);
      Push(p);
      Index(p, was);
    }

    ghost method Index(p: ShmConn, was: Conns)
      requires conns != [] && p == conns[0] && p.id !in byId && p.sharedMask == 0 && p.exclMask == 0
      requires forall x :: x in conns && x != p ==> x.id in byId && byId[x.id] == x
      requires forall c :: c in byId ==> byId[c] in conns && byId[c].id == c
      requires was == map c | c in byId :: Shm(byId[c].sharedMask, byId[c].exclMask)
      modifies this`byId
      ensures Indexed() && Table() == Added(was, p.id)
    {
      byId := byId[p.id := p];
      assert Indexed();
      assert Table() == Added(was, p.id);
    }

    /** unixShmUnmap() takes a connection off the list, whatever it holds.  Masks and kernel locks still
    agree afterwards exactly if the siblings hold what it held. */
    method Unlink(p: ShmConn)
      requires Valid() && p in conns
      modifies this`first, this`conns, this`byId, conns`next
      ensures Linked() && Indexed()
      ensures p !in conns && multiset(conns) == multiset(old(conns)) - multiset{p}
      ensures Table() == Dropped(old(Table()), p.id)
      ensures Valid() <==> old(SafeDrop(Table(), p.id))
    {
      hide NodeInv, Linked, SafeDrop;
      ghost var was := Table();
      assert p.id in was;
      DropKeepsNodeIff(was, os, p.id);
      ghost var k := Remove(p);
      RemovedOne(old(conns), k);
      Unindex(p, was);
    }

    ghost method Unindex(p: ShmConn, was: Conns)
      requires forall x :: x in conns ==> x != p && x.id in byId && byId[x.id] == x
      requires forall c :: c in byId ==> byId[c].id == c && (byId[c] in conns || byId[c] == p)
      requires p.id in byId && byId[p.id] == p
      requires was == map c | c in byId :: Shm(byId[c].sharedMask, byId[c].exclMask)
      modifies this`byId
      ensures Indexed() && Table() == Dropped(was, p.id)
    {
      byId := map c | c in byId && c != p.id :: byId[c];
      assert Indexed();
      assert Table() == Dropped(was, p.id);
    }

    static lemma RemovedOne(s: seq<ShmConn>, k: nat)
      requires k < |s|
      ensures multiset(s[..k] + s[k + 1..]) == multiset(s) - multiset{s[k]}
      ensures forall x :: x in s && x != s[k] ==> x in s[..k] + s[k + 1..]
      ensures forall x :: x in s[..k] + s[k + 1..] ==> x in s
    {
      assert s == s[..k] + [s[k]] + s[k + 1..];
    }
  }
}
