/** The five levels of a lock on a database file (src/libcu.ext/sqlite/os.h:85-89), in ascending order. */
module LockLevels {
  const NO_LOCK: nat := 0
  const SHARED_LOCK: nat := 1
  const RESERVED_LOCK: nat := 2
  const PENDING_LOCK: nat := 3
  const EXCLUSIVE_LOCK: nat := 4
}
