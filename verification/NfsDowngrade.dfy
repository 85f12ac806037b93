/** The four calls of posixUnlock(SHARED_LOCK) on NFS, where a write-lock cannot be turned into a read-lock
in place, and what they do to any set of locks.

The shared range is given up and read-locked in two blocks, all but the last byte and the last byte, so
that a lock on one block covers the gap in the other.  Whether the gap is covered depends on the last
byte being locked on entry; `NfsSystem` says when it is. */
module NfsDowngrade {
  import opened PosixOs

  /** The four fcntl() calls in order. */
  function Stage(i: nat): (Range, Mode)
    requires i < 4
  {
    [(SharedHead, Unlocked), (SharedHead, ReadLock), (SharedTail, Unlocked), (PendingAndReserved, Unlocked)][i]
  }

  /** What the process holds once the first n calls have succeeded. */
  function HeldAfter(h: Held, n: nat): Held
    requires n <= 4
  {
    if n == 0 then h else Apply(HeldAfter(h, n - 1), Stage(n - 1).0, Stage(n - 1).1)
  }

  /** Another process could now write-lock the whole shared range. */
  predicate Window(h: Held) {
    !Blocks(h, SharedRange, WriteLock)
  }

  /** Another process could now get past the PENDING byte and read-lock the shared range. */
  predicate AdmitsReader(h: Held) {
    !Blocks(h, PendingByte, ReadLock) && !Blocks(h, SharedRange, ReadLock)
  }

  lemma Stages(h: Held)
    ensures HeldAfter(h, 1) == h.(head := Unlocked)
    ensures HeldAfter(h, 2) == h.(head := ReadLock)
    ensures HeldAfter(h, 3) == h.(head := ReadLock, tail := Unlocked)
    ensures HeldAfter(h, 4) == Held(Unlocked, Unlocked, ReadLock, Unlocked)
  {
  }

  /** No other process can write-lock the shared range at any point of the downgrade, whichever call
  it stops at, exactly when the last byte of the range is locked on entry. */
  lemma WindowFreeIffTailHeld(h: Held)
    ensures (forall n: nat :: n <= 4 ==> !Window(HeldAfter(h, n))) <==> h.tail != Unlocked
  {
    Stages(h);
    if h.tail != Unlocked {
      forall n: nat | n <= 4
        ensures !Window(HeldAfter(h, n))
      {
        assert n == 0 || n == 1 || n == 2 || n == 3 || n == 4;
      }
    } else {
      assert Window(HeldAfter(h, 1));
    }
  }

  /** From PENDING or EXCLUSIVE no new reader passes before the PENDING byte is dropped, and dropping it
  is the last call. */
  lemma NoReaderBeforePendingDropped(h: Held, n: nat)
    requires h.pending == WriteLock && n <= 4
    ensures AdmitsReader(HeldAfter(h, n)) <==> n == 4
  {
    Stages(h);
    assert n == 0 || n == 1 || n == 2 || n == 3 || n == 4;
  }
}
