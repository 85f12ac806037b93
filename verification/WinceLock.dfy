/** The emulation of LockFile() on Windows CE: counters and flags in memory shared by all handles,
kept beside local ones under a named mutex. */
module WinceLock {
  import opened PosixOs

  ghost function ReadersOf(hs: set<Handle>): set<Handle>
    reads hs`readers
  {
    set f | f in hs && f.readers > 0
  }

  /** A flag is set iff one of the handles owns it, and then only one does. */
  ghost predicate FlagsOf(hs: set<Handle>, exclusive: bool, pending: bool, reserved: bool)
    reads hs`exclusive, hs`pending, hs`reserved
  {
    && (exclusive <==> exists f :: f in hs && f.exclusive)
    && (pending <==> exists f :: f in hs && f.pending)
    && (reserved <==> exists f :: f in hs && f.reserved)
    && (forall f, g :: f in hs && g in hs && f.exclusive && g.exclusive ==> f == g)
    && (forall f, g :: f in hs && g in hs && f.pending && g.pending ==> f == g)
    && (forall f, g :: f in hs && g in hs && f.reserved && g.reserved ==> f == g)
  }

  /** The flags without one handle's own. */
  lemma FlagsWithout(hs: set<Handle>, f: Handle, e: bool, p: bool, r: bool)
    requires FlagsOf(hs, e, p, r) && f in hs
    ensures FlagsOf(hs - {f}, e && !f.exclusive, p && !f.pending, r && !f.reserved)
  {
  }

  lemma ReadersWithout(hs: set<Handle>, f: Handle)
    requires f in hs
    ensures |ReadersOf(hs - {f})| == |ReadersOf(hs)| - if f.readers > 0 then 1 else 0
  {
    assert ReadersOf(hs - {f}) == ReadersOf(hs) - {f};
  }

  /** struct winceLock: what all handles together hold. */
  class Shared {
    var readers: int
    var pending: bool
    var reserved: bool
    var exclusive: bool

    /** The handles that have the memory mapped. */
    ghost var handles: set<Handle>

    ghost function Readers(): set<Handle>
      reads this`handles, handles`readers
    {
      ReadersOf(handles)
    }

    /** The reader count and each flag describe the handles. */
    ghost predicate Valid()
      reads this, handles
    {
      && (forall f :: f in handles ==> f.memory == this && f.mutex && f.readers >= 0)
      && readers == |Readers()|
      && FlagsOf(handles, exclusive, pending, reserved)
      && (exclusive ==> readers == 0)
    }

    /** The memory is zeroed by whoever creates it. */
    constructor ()
      ensures Valid() && handles == {}
    {
      readers, pending, reserved, exclusive := 0, false, false, false;
      handles := {};
    }

    /** An exclusive owner excludes every reader, itself included. */
    lemma ExclusiveMeansNoReaders(f: Handle, g: Handle)
      requires Valid() && f in handles && g in handles && f.exclusive
      ensures g.readers == 0
    {
      assert Readers() == {};
      assert g !in ReadersOf(handles);
    }

    /** The reader count is zero exactly when no handle reads. */
    lemma NoReaders()
      requires Valid()
      ensures readers == 0 <==> forall f :: f in handles ==> f.readers == 0
    {
      if readers == 0 {
        assert Readers() == {};
        assert forall f :: f in handles ==> f !in ReadersOf(handles);
      } else {
        var f :| f in Readers();
      }
    }
  }

  class Handle {
    const memory: Shared
    var mutex: bool
    var readers: int
    var pending: bool
    var reserved: bool
    var exclusive: bool

    /** winceCreateLock() */
    constructor (m: Shared)
      requires m.Valid()
      modifies m`handles
      ensures m.Valid() && memory == m && m.handles == old(m.handles) + {this}
      ensures readers == 0 && !pending && !reserved && !exclusive
    {
      memory := m;
      mutex := true;
      readers, pending, reserved, exclusive := 0, false, false, false;
      new;
      m.handles := m.handles + {this};
      assert m.Readers() == old(m.Readers());
    }

    /** LockFile() on the whole shared range: an exclusive lock. */
    method LockWhole() returns (r: bool)
      requires memory.Valid() && this in memory.handles
      modifies memory`exclusive, this`exclusive
      ensures memory.Valid()
      ensures r <==> old(forall g :: g in memory.handles ==> g.readers == 0 && !g.exclusive)
      ensures exclusive == (old(exclusive) || r)
    {
      memory.NoReaders();
      r := memory.readers == 0 && !memory.exclusive;
      if r {
        memory.exclusive := true;
        exclusive := true;
      }
      assert memory.Readers() == old(memory.Readers());
    }

    lemma OwnExclusive()
      requires memory.Valid()
      ensures memory.exclusive <==> exists g :: g in memory.handles && g.exclusive
    {
    }

    /** LockFile() on one byte of the shared range: a read lock. */
    method LockReader() returns (r: bool)
      requires memory.Valid() && this in memory.handles
      modifies memory`readers, this`readers
      ensures memory.Valid()
      ensures r <==> old(forall g :: g in memory.handles ==> !g.exclusive)
      ensures readers == old(readers) + (if r then 1 else 0)
    {
      hide FlagsOf;
      OwnExclusive();
      r := !memory.exclusive;
      if r {
        readers := readers + 1;
        if readers == 1 {
          memory.readers := memory.readers + 1;
          assert memory.Readers() == old(memory.Readers()) + {this};
        } else {
          assert memory.Readers() == old(memory.Readers());
        }
      } else {
        assert memory.Readers() == old(memory.Readers());
      }
    }

    method LockPending() returns (r: bool)
      requires memory.Valid() && this in memory.handles
      modifies memory`pending, this`pending
      ensures memory.Valid()
      ensures r <==> old(forall g :: g in memory.handles ==> !g.pending)
      ensures pending == (old(pending) || r)
    {
      r := !memory.pending;
      if r {
        memory.pending := true;
        pending := true;
      }
      assert memory.Readers() == old(memory.Readers());
    }

    method LockReserved() returns (r: bool)
      requires memory.Valid() && this in memory.handles
      modifies memory`reserved, this`reserved
      ensures memory.Valid()
      ensures r <==> old(forall g :: g in memory.handles ==> !g.reserved)
      ensures reserved == (old(reserved) || r)
    {
      r := !memory.reserved;
      if r {
        memory.reserved := true;
        reserved := true;
      }
      assert memory.Readers() == old(memory.Readers());
    }

    /** winceLockFile(): the range decides what kind of lock is meant. */
    method LockFile(ofst: int, n: int) returns (r: bool)
      requires memory.Valid() && (mutex <==> this in memory.handles)
      modifies memory`readers, memory`pending, memory`reserved, memory`exclusive
      modifies this`readers, this`pending, this`reserved, this`exclusive
      ensures memory.Valid()
      ensures !mutex ==> r
      ensures mutex ==> (r <==> old(Grantable(ofst, n)))
      ensures readers == old(readers) + (if mutex && r && ofst == SHARED_FIRST && n == 1 then 1 else 0)
      ensures exclusive == (old(exclusive) || (mutex && r && ofst == SHARED_FIRST && n == SHARED_SIZE))
      ensures pending == (old(pending) || (mutex && r && ofst == PENDING_BYTE && n == 1))
      ensures reserved == (old(reserved) || (mutex && r && ofst == RESERVED_BYTE && n == 1))
    {
      r := false;
      if !mutex {
        return true;
      }
      if ofst == SHARED_FIRST && n == SHARED_SIZE {
        r := LockWhole();
      } else if ofst == SHARED_FIRST && n == 1 {
        r := LockReader();
      } else if ofst == PENDING_BYTE && n == 1 {
        r := LockPending();
      } else if ofst == RESERVED_BYTE && n == 1 {
        r := LockReserved();
      }
    }

    /** A table of locks over all handles would grant the request. */
    ghost predicate Grantable(ofst: int, n: int)
      reads this, memory, memory.handles
    {
      if ofst == SHARED_FIRST && n == SHARED_SIZE then
        forall g :: g in memory.handles ==> g.readers == 0 && !g.exclusive
      else if ofst == SHARED_FIRST && n == 1 then forall g :: g in memory.handles ==> !g.exclusive
      else if ofst == PENDING_BYTE && n == 1 then forall g :: g in memory.handles ==> !g.pending
      else if ofst == RESERVED_BYTE && n == 1 then forall g :: g in memory.handles ==> !g.reserved
      else false
    }

    /** UnlockFile() on the shared range: an exclusive lock if there is one, else one read lock. */
    method UnlockShared(n: int) returns (r: bool)
      requires memory.Valid() && this in memory.handles
      requires exclusive ==> n == SHARED_SIZE
      requires readers != 0 ==> n == SHARED_SIZE || n == 1
      modifies memory`readers, memory`exclusive, this`readers, this`exclusive
      ensures memory.Valid()
      ensures r <==> old(exclusive || readers > 0)
      ensures !exclusive
      ensures readers == if old(!exclusive && readers > 0) then old(readers) - 1 else old(readers)
    {
      r := false;
      if exclusive {
        assert n == SHARED_SIZE;
        r := DropWhole();
      } else if readers != 0 {
        assert n == SHARED_SIZE || n == 1;
        r := DropReader();
      }
    }

    method DropWhole() returns (r: bool)
      requires memory.Valid() && this in memory.handles && exclusive
      modifies memory`exclusive, this`exclusive
      ensures memory.Valid() && r && !exclusive
    {
      exclusive := false;
      memory.exclusive := false;
      r := true;
      assert memory.Readers() == old(memory.Readers());
    }

    method DropReader() returns (r: bool)
      requires memory.Valid() && this in memory.handles && readers > 0
      modifies memory`readers, this`readers
      ensures memory.Valid() && r && readers == old(readers) - 1
    {
      hide FlagsOf;
      assert this in memory.Readers();
      readers := readers - 1;
      if readers == 0 {
        memory.readers := memory.readers - 1;
        assert memory.Readers() == old(memory.Readers()) - {this};
      } else {
        assert memory.Readers() == old(memory.Readers());
      }
      r := true;
    }

    method UnlockPending() returns (r: bool)
      requires memory.Valid() && this in memory.handles
      modifies memory`pending, this`pending
      ensures memory.Valid()
      ensures r == old(pending) && !pending
    {
      r := pending;
      if r {
        pending := false;
        memory.pending := false;
      }
      assert memory.Readers() == old(memory.Readers());
    }

    method UnlockReserved() returns (r: bool)
      requires memory.Valid() && this in memory.handles
      modifies memory`reserved, this`reserved
      ensures memory.Valid()
      ensures r == old(reserved) && !reserved
    {
      r := reserved;
      if r {
        reserved := false;
        memory.reserved := false;
      }
      assert memory.Readers() == old(memory.Readers());
    }

    /** winceUnlockFile(): gives up a lock only if this handle owns it, so nobody else's flag is lost. */
    method UnlockFile(ofst: int, n: int) returns (r: bool)
      requires memory.Valid() && (mutex <==> this in memory.handles)
      requires mutex && ofst == SHARED_FIRST && exclusive ==> n == SHARED_SIZE
      requires mutex && ofst == SHARED_FIRST && readers != 0 ==> n == SHARED_SIZE || n == 1
      modifies memory`readers, memory`pending, memory`reserved, memory`exclusive
      modifies this`readers, this`pending, this`reserved, this`exclusive
      ensures memory.Valid()
      ensures !mutex ==> r
      ensures mutex && ofst == SHARED_FIRST ==> r == old(exclusive || readers > 0)
      ensures mutex && ofst == PENDING_BYTE && n == 1 ==> r == old(pending)
      ensures mutex && ofst == RESERVED_BYTE && n == 1 ==> r == old(reserved)
      ensures mutex && ofst != SHARED_FIRST && (n != 1 || (ofst != PENDING_BYTE && ofst != RESERVED_BYTE)) ==> !r
      ensures exclusive == old(exclusive && !(mutex && ofst == SHARED_FIRST))
      ensures readers ==
        if old(mutex && ofst == SHARED_FIRST && !exclusive && readers > 0) then old(readers) - 1 else old(readers)
      ensures pending == old(pending && !(mutex && ofst == PENDING_BYTE && n == 1))
      ensures reserved == old(reserved && !(mutex && ofst == RESERVED_BYTE && n == 1))
    {
      r := false;
      if !mutex {
        return true;
      }
      if ofst == SHARED_FIRST {
        r := UnlockShared(n);
      } else if ofst == PENDING_BYTE && n == 1 {
        r := UnlockPending();
      } else if ofst == RESERVED_BYTE && n == 1 {
        r := UnlockReserved();
      }
    }

    /** The shared record without what this handle holds. */
    method GiveUpAll()
      modifies memory`readers, memory`pending, memory`reserved, memory`exclusive
      ensures memory.readers == old(memory.readers) - if readers != 0 then 1 else 0
      ensures memory.pending == (old(memory.pending) && !pending)
      ensures memory.reserved == (old(memory.reserved) && !reserved)
      ensures memory.exclusive == (old(memory.exclusive) && !exclusive)
    {
      if readers != 0 {
        memory.readers := memory.readers - 1;
      }
      if reserved {
        memory.reserved := false;
      }
      if pending {
        memory.pending := false;
      }
      if exclusive {
        memory.exclusive := false;
      }
    }

    /** winceDestroyLock(): whatever the handle still holds is given up for it. */
    method Destroy()
      requires memory.Valid() && (mutex <==> this in memory.handles)
      modifies memory, this`mutex
      ensures memory.Valid() && !mutex
      ensures memory.handles == old(memory.handles) - {this}
    {
      hide FlagsOf, ReadersOf;
      if mutex {
        FlagsWithout(memory.handles, this, memory.exclusive, memory.pending, memory.reserved);
        ReadersWithout(memory.handles, this);
        GiveUpAll();
        memory.handles := memory.handles - {this};
        mutex := false;
      }
    }
  }
}
