/** The kernel's advisory record locks, as the unix VFS uses them.

POSIX record locks belong to a process, not to a descriptor.  The VFS only ever touches the
locking page, and only through seven ranges; `Held` therefore keeps one mode for each part of the
locking page that some request treats as a unit.  `ApplyIsBytewise` and `BlocksIsBytewise` show
that nothing is lost against the byte-by-byte rules of fcntl() (IEEE Std 1003.1-2017, System
Interfaces, chapter 3).
 */
module PosixOs {

  const PENDING_BYTE: int := 0x40000000
  const RESERVED_BYTE: int := PENDING_BYTE + 1
  const SHARED_FIRST: int := PENDING_BYTE + 2
  const SHARED_SIZE: int := 510

  /** F_UNLCK, F_RDLCK and F_WRLCK. */
  datatype Mode = Unlocked | ReadLock | WriteLock

  /** The locks one process holds.  The shared range is kept in two parts because the NFS downgrade
  locks its last byte separately from the rest. */
  datatype Held = Held(pending: Mode, reserved: Mode, head: Mode, tail: Mode)

  const NO_LOCKS := Held(Unlocked, Unlocked, Unlocked, Unlocked)

  /** The ranges named in some `struct flock`. */
  datatype Range =
    | PendingByte
    | ReservedByte
    | PendingAndReserved
    | SharedRange
    | SharedHead
    | SharedTail
    | WholeFile

  /** l_start and the first byte past the range; l_len zero means up to the end of the file. */
  predicate InRange(r: Range, b: int) {
    match r
    case PendingByte => b == PENDING_BYTE
    case ReservedByte => b == RESERVED_BYTE
    case PendingAndReserved => PENDING_BYTE <= b < PENDING_BYTE + 2
    case SharedRange => SHARED_FIRST <= b < SHARED_FIRST + SHARED_SIZE
    case SharedHead => SHARED_FIRST <= b < SHARED_FIRST + (SHARED_SIZE - 1)
    case SharedTail => SHARED_FIRST + (SHARED_SIZE - 1) <= b < SHARED_FIRST + SHARED_SIZE
    case WholeFile => 0 <= b
  }

  /** The lock a process holds on one byte of the file. */
  function ByteMode(h: Held, b: int): Mode {
    if b == PENDING_BYTE then h.pending
    else if b == RESERVED_BYTE then h.reserved
    else if SHARED_FIRST <= b < SHARED_FIRST + SHARED_SIZE - 1 then h.head
    else if b == SHARED_FIRST + SHARED_SIZE - 1 then h.tail
    else Unlocked
  }

  /** A successful F_SETLK. */
  function Apply(h: Held, r: Range, m: Mode): Held {
    match r
    case PendingByte => h.(pending := m)
    case ReservedByte => h.(reserved := m)
    case PendingAndReserved => h.(pending := m, reserved := m)
    case SharedRange => h.(head := m, tail := m)
    case SharedHead => h.(head := m)
    case SharedTail => h.(tail := m)
    case WholeFile => Held(m, m, m, m)
  }

  /** Two processes' locks on one byte exclude each other. */
  predicate Clash(a: Mode, b: Mode) {
    (a == WriteLock && b != Unlocked) || (b == WriteLock && a != Unlocked)
  }

  /** Another process holding `other` makes a request for mode `m` on `r` fail. */
  predicate Blocks(other: Held, r: Range, m: Mode) {
    match r
    case PendingByte => Clash(other.pending, m)
    case ReservedByte => Clash(other.reserved, m)
    case PendingAndReserved => Clash(other.pending, m) || Clash(other.reserved, m)
    case SharedRange => Clash(other.head, m) || Clash(other.tail, m)
    case SharedHead => Clash(other.head, m)
    case SharedTail => Clash(other.tail, m)
    case WholeFile =>
      Clash(other.pending, m) || Clash(other.reserved, m) || Clash(other.head, m) || Clash(other.tail, m)
  }

  /** The kernel never lets two processes hold clashing locks. */
  predicate Compatible(a: Held, b: Held) {
    && !Clash(a.pending, b.pending)
    && !Clash(a.reserved, b.reserved)
    && !Clash(a.head, b.head)
    && !Clash(a.tail, b.tail)
  }

  lemma ApplyIsBytewise(h: Held, r: Range, m: Mode, b: int)
    requires r == WholeFile ==> m == Unlocked
    ensures ByteMode(Apply(h, r, m), b) == if InRange(r, b) then m else ByteMode(h, b)
  {
  }

  /** A request is refused exactly when some byte of it is locked incompatibly. */
  lemma BlocksIsBytewise(other: Held, r: Range, m: Mode)
    ensures Blocks(other, r, m) <==> exists b :: InRange(r, b) && Clash(ByteMode(other, b), m)
  {
    var pending := InRange(r, PENDING_BYTE) && Clash(ByteMode(other, PENDING_BYTE), m);
    var reserved := InRange(r, RESERVED_BYTE) && Clash(ByteMode(other, RESERVED_BYTE), m);
    var head := InRange(r, SHARED_FIRST) && Clash(ByteMode(other, SHARED_FIRST), m);
    var last := SHARED_FIRST + SHARED_SIZE - 1;
    var tail := InRange(r, last) && Clash(ByteMode(other, last), m);
    assert Blocks(other, r, m) <==> pending || reserved || head || tail;
  }

  /** Two processes' lock tables are compatible exactly when they are so on every byte. */
  lemma CompatibleIsBytewise(x: Held, y: Held)
    ensures Compatible(x, y) <==> forall b :: !Clash(ByteMode(x, b), ByteMode(y, b))
  {
    if forall b :: !Clash(ByteMode(x, b), ByteMode(y, b)) {
      assert !Clash(ByteMode(x, PENDING_BYTE), ByteMode(y, PENDING_BYTE));
      assert !Clash(ByteMode(x, RESERVED_BYTE), ByteMode(y, RESERVED_BYTE));
      assert !Clash(ByteMode(x, SHARED_FIRST), ByteMode(y, SHARED_FIRST));
      var last := SHARED_FIRST + SHARED_SIZE - 1;
      assert !Clash(ByteMode(x, last), ByteMode(y, last));
    }
  }

  /** A granted request keeps the lock tables of two processes compatible. */
  lemma ApplyCompatible(a: Held, b: Held, r: Range, m: Mode)
    requires Compatible(a, b) && !Blocks(b, r, m)
    ensures Compatible(Apply(a, r, m), b)
  {
  }
}
