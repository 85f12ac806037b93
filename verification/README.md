# Locks, page cache and file handling of the OS layer: a Dafny model with proofs

The repository ports SQLite's OS layer and page cache.  This project models the parts of it in which
correctness rests on an argument over many steps, and proves that argument.

* **File locks over POSIX byte ranges.**  Locks belong to the process and are lost when any descriptor
  of the file is closed; the levels NO < SHARED < RESERVED < PENDING < EXCLUSIVE belong to connections.
  `PosixOs` is the kernel's table of advisory locks (IEEE Std 1003.1-2017, System Interfaces, chapter 3,
  `fcntl()`).  `PosixFile` is one process as a step function whose steps are single `fcntl()` calls,
  `PosixFileInv`, `PosixFileSteps` and `PosixFileClose` are what each step keeps, `PosixSystem` puts any
  number of processes over one table, and `PosixTheorems`, `PosixDescriptors` and `PosixScenario` say
  what follows for every run.  `PosixAnswers` and `PosixOutcome` say what a whole lock or unlock request
  comes to, given the siblings' levels and the kernel's answers.  `UnixVfs` is the code itself, over the
  fields it updates, proved to take exactly those steps whatever the kernel answers; the source's assertions
  are kept as assertions.
  `InodeList` is the process-wide list of inode records.
* **Staged downgrades on NFS.**  `NfsDowngrade` is what the four calls do to any set of locks,
  `NfsProcess` a process of `PosixFile` that downgrades with them, `NfsSystem` any number of such processes
  and the history of their runs, `NfsTheorems` what is left of the lock protocol, `NfsScenario` a run that
  goes wrong, `NfsVfs` the code over the fields of `UnixVfs`.
* **Locks of the WAL index.**  `ShmMask` is the arithmetic of the 16-bit masks, `ShmLocks` one process,
  `ShmSystem` all processes against one flat table of reader/writer locks, `UnixShm` the code over its
  linked list of connections.  `ShmNodeLife` is the life of the shared-memory node under its two
  mutexes, with the dead-man switch.
* **Page cache.**  `PageCache` is the dirty list, the reference counts, the pins and the choice of a
  page to spill, over page objects with their links; `PageCacheSort` is the merge sort of dirty pages.
* **Windows.**  `WinFile` is `winLock()`/`winUnlock()` for one handle, one system call at a time,
  `WinSystem` any number of handles, `WinScenario` a run that goes wrong, `WinAnswers` what a whole request
  comes to, `WinVfs` the code over its fields.  `WinceLock` is the lock emulation of Windows CE.
* **Shared.**  `LockLevels` names the five lock levels, `Lists` two facts about lists, `Wrappers` a value
  that may be missing.
* **Smaller parts.**  `RecursiveMutex` steps the home-grown recursive mutex at every read and write of its
  volatile fields, and `UnixMutex` is its code with interference from other threads at each of those
  points.  `VxworksName` is the in-place path canonicaliser.  `UnixFileIo` is the read loop and the
  preallocation fallback.

`dafny verify dfyconfig.toml` checks everything.

## How the parts fit

A step function (`PosixFile.StepProc`, `ShmLocks.Grant`, `WinFile.Step`, ...) says what the code does
between two calls of the operating system.  Invariants are proved of the step function, theorems of every
run of any number of processes follow from them, and a class with the source's fields is proved to take
exactly the steps of that function.  The kernel may refuse any lock for reasons of its own, except where a
statement says otherwise; it never grants two clashing locks.  Inside a process the global mutex makes a
call atomic, except for the write of `eFileLock` after the mutex is dropped, which is a step of its own.

## Where the code does not do what it is meant to do

* *A waiting writer keeps new readers out.*  It does so across processes only for processes that have no
  reader: a connection can still go from NO_LOCK to SHARED beside a reader of its own process, because
  that request makes no system call (src/libcu.ext/vsystem-unix.cpp:1035-1043).
  `PosixScenario.ReaderJoinsWhileWriterWaits` is such a run.  `PosixTheorems.NewReadersJoinSiblings`
  gives the exact condition, and `PosixTheorems.ReadingProcessesShrink` what is left of the property.
* *The staged NFS downgrade never opens a window.*  At any time in any run it is safe exactly when no
  earlier downgrade of the process got past its third call since the process last locked the whole range
  (`NfsSystem.WindowFreeIff`; in exclusive mode a downgrade makes no calls).  There are two ways to start
  one that is not.  A connection that came down to SHARED no longer has the last byte of the range; if it
  takes RESERVED and is downgraded again, the first call gives up the rest.  And if the fourth call of a
  downgrade fails after the third, the connection keeps its level, and the retry gives up the rest (`NfsProcess.RetriedDowngradeOpensWindow`).  From every
  reachable state with such a downgrade under way and a writer of another process waiting at PENDING, and
  nobody else on the range, the writer gets EXCLUSIVE while the connection stays above SHARED
  (`NfsScenario.WriterTakesTheWindow`); `NfsScenario.SecondDowngradeBreaksExclusion` is a run with EXCLUSIVE
  beside RESERVED.  An exclusive-mode process can use the window as well, even past the PENDING byte
  (`NfsScenario.ExclusiveModeTakesTheWindow`).  Where no downgrade starts in that way, EXCLUSIVE excludes
  all (`NfsTheorems.ExclusiveExcludes`).
* *The kernel's lock on a WAL slot is the join of the connections' masks.*  An unlock that covers slots
  the caller does not hold can leave a read lock behind (`ShmLocks.LeakedReadLock`);
  `ShmLocks.UnlockKeepsJoinIff` gives the exact condition, for held and unheld slots alike.  So can
  unixShmUnmap() on a connection that still holds some (`ShmLocks.DropKeepsNodeIff`).
* *winUnlock() reports SHARED even if the read lock could not be taken back.*  The source comments that
  this never happens.  It never happens because of a clash (`WinSystem.RereadAlwaysGranted`).  After a call
  of winLock() or winUnlock() the level stands for the locks held if and only if no such reread was refused
  in it (`WinVfs.WinHandle.Lock`, `WinVfs.WinHandle.Unlock`).  From every reachable state with a handle that
  reports a level without its read lock, an unlocked handle and no other lock, the unlocked one can get to
  EXCLUSIVE beside it (`WinScenario.BrokenHandleAdmitsExclusive`).
* *The preallocation fallback touches each block of the extension.*  It does so exactly if the extension
  begins and ends at the boundary of a block (`UnixFileIo.AllTouchedIff`).  Otherwise the block the file
  ended in, or the last block that the rounded size ends in, stays untouched
  (`UnixFileIo.UntouchedBlocks`); the blocks it touches are those that lie wholly in the extension
  (`UnixFileIo.TouchedIffWhole`).
* *Moving the first dirty page to the front would be a no-op* (src/libcu.sqlite/pcache.c:516-519).  It
  would leave the list as it is, but not always pSynced: it would set it to a page that needs no sync if
  there is no hint, and clear it from a page that needs one (`PageCache.PCache.SkippedFront`).  Either way
  an exact hint stays exact.
* *The overflow arm of the page sort* is reached with the 2^31st page, not with the 2^32nd as its comment
  says (src/libcu.sqlite/pcache.c:752-757), and then merges an empty bucket, which pcacheMergeDirtyList()
  asserts not to be one (`PageCacheSort.Insert`, `PageCacheSort.Distribute`).

## Model

| member | source | states |
|---|---|---|
| PosixOs.ApplyIsBytewise | src/libcu.ext/vsystem-unix.cpp:937 | the kernel table kept per part of the locking page answers, for every byte of the file, as a byte-by-byte table would after a granted request |
| PosixOs.BlocksIsBytewise | src/libcu.ext/vsystem-unix.cpp:937 | a request is refused exactly when some byte of its range is locked incompatibly by the other process |
| PosixOs.CompatibleIsBytewise | src/libcu.ext/sqlite/os.h:147-153 | two processes' tables are compatible exactly when no byte carries clashing locks |
| PosixFileSteps.LockEnterKeeps | src/libcu.ext/vsystem-unix.cpp:1001-1066 | unixLock() up to its first call keeps the inode's counters, levels, backing locks and descriptor ownership, including the sibling join |
| PosixFileSteps.ProcessLockKeeps | src/libcu.ext/vsystem-unix.cpp:918-944 | an exclusive-mode process that takes its process lock keeps the invariant, and does so only at the first call of a SHARED request |
| PosixFileSteps.LockCallKeeps | src/libcu.ext/vsystem-unix.cpp:1049-1158 | every answer to every call of unixLock() leads to a state that keeps the process invariant |
| PosixFileSteps.WholeFileKeeps | src/libcu.ext/vsystem-unix.cpp:1297-1326 | the last reader's unlock keeps the invariant whether or not the call succeeds; deferred closes lose no lock of another connection |
| PosixFileSteps.CallKeeps | src/libcu.ext/vsystem-unix.cpp:918-1332 | every call of unixLock() and posixUnlock(), answered either way, keeps the process invariant |
| PosixFileClose.CloseKeeps | src/libcu.ext/vsystem-unix.cpp:1360-1382 | closing keeps the invariant: the descriptor is deferred while locks are outstanding, else closed, and the last close frees the record |
| PosixFileClose.StepKeeps | src/libcu.ext/vsystem-unix.cpp:761-1382 | every step of one process keeps the invariant, whatever the kernel and the other processes do |
| PosixSystem.GuardedRangeStaysFree | src/libcu.ext/vsystem-unix.cpp:1046-1066 | while one process reads and holds the PENDING byte or the whole range, no step gives another process anything on the shared range |
| PosixSystem.StepKeepsSysInv | src/libcu.ext/vsystem-unix.cpp:918-1332 | the system invariant (no clashing locks; a process at EXCLUSIVE shuts all others out of the shared range) is inductive |
| PosixSystem.ReachableInv | src/libcu.ext/vsystem-unix.cpp:918-1382 | it holds in every state of every run of any number of processes and connections |
| PosixTheorems.ExclusiveExcludes | src/libcu.ext/vsystem-unix.cpp:918-1332 | in every reachable state a connection at EXCLUSIVE implies that every other connection of every process, not in the middle of an unlock, is at NO_LOCK |
| PosixTheorems.OnePendingOrExclusive | src/libcu.ext/vsystem-unix.cpp:946-1332 | at most one connection anywhere is at PENDING or EXCLUSIVE |
| PosixTheorems.OneReserved | src/libcu.ext/vsystem-unix.cpp:946-1332 | at most one connection anywhere is at exactly RESERVED |
| PosixTheorems.Accounting | src/libcu.ext/vsystem-unix.cpp:1012-1331 | between calls nShared is the number of connections at SHARED or above, nLock is that plus one for a process lock, eFileLock is the highest level, at most one connection is above SHARED, and EXCLUSIVE means one reader |
| PosixTheorems.NewReadersJoinSiblings | src/libcu.ext/vsystem-unix.cpp:1024-1066 | while a connection is at PENDING or above, a connection goes from NO_LOCK to a lock if and only if the step is a SHARED request in a process whose inode is at SHARED or RESERVED |
| PosixTheorems.ReadingProcessesShrink | src/libcu.ext/vsystem-unix.cpp:1046-1103 | while a connection is at PENDING or above, no process without readers gets one |
| PosixTheorems.ExclusiveGetsThrough | src/libcu.ext/vsystem-unix.cpp:1105-1158 | once no other lock or leaked lock is left, the writer's EXCLUSIVE request reaches its call and the kernel has no reason to refuse it, whatever other processes do meanwhile; it then is at EXCLUSIVE |
| PosixScenario.ReaderJoinsWhileWriterWaits | src/libcu.ext/vsystem-unix.cpp:1035-1043 | a reachable state with a writer at PENDING in one process in which a connection of another process goes from NO_LOCK to SHARED |
| PosixDescriptors.ClosedOnlyWhenUnlocked | src/libcu.ext/vsystem-unix.cpp:761-791 | a step closes a descriptor of the inode only when no other connection of the process that is still open, at any point of any call, has a lock behind it |
| PosixDescriptors.OneOwnerOrClosed | src/libcu.ext/vsystem-unix.cpp:1167-1174 | each descriptor ever opened is closed or has exactly one owner among the connections, the opens in progress and the unused list |
| PosixDescriptors.ClosedOnce | src/libcu.ext/vsystem-unix.cpp:1338-1382 | what a step closes was open, closed descriptors stay closed, and none is handed out again |
| UnixVfs.UnixProcess.UnixFileLock | src/libcu.ext/vsystem-unix.cpp:918-944 | an ordinary connection's lock goes to the kernel as asked; in exclusive mode one write lock on the shared range stands for all of them |
| UnixVfs.UnixProcess.LockCall | src/libcu.ext/vsystem-unix.cpp:918-944 | one call of unixFileLock() with the code behind it is exactly one step of the process, for either answer |
| PosixAnswers.AnswersKeepInv | src/libcu.ext/vsystem-unix.cpp:918-1332 | from a point that keeps the process invariant, every prefix of the answers to the calls of unixLock() or posixUnlock() leads to such a point |
| PosixOutcome.LockOutcomeIs | src/libcu.ext/vsystem-unix.cpp:1001-1163 | unixLock() decides without a call exactly if a sibling is above the caller: a reader joins unless a sibling is at PENDING or above, anything else is refused; else it makes the three, one, two or one requests of its level, in order, stopping at a refusal as the code does, reaches the level exactly if all are granted and no other reader stands in the way of EXCLUSIVE, else stays or ends at PENDING, and holds what the granted requests gave |
| PosixOutcome.UnlockOutcomeIs | src/libcu.ext/vsystem-unix.cpp:1176-1332 | posixUnlock() makes exactly the requests of its level and target, in order, succeeds exactly if all are granted, unlocks the whole file exactly for the last reader, closes exactly then what waited, and holds what the requests left |
| UnixVfs.UnixProcess.UnixLock | src/libcu.ext/vsystem-unix.cpp:946-1165 | unixLock() takes exactly the process's steps for the answers it gets, keeps the invariant at every one of its calls, comes to what the siblings' levels and the answers say, returns OK exactly when the level was reached, and BUSY where no answer was a refusal; its assertions hold |
| UnixVfs.UnixProcess.PosixUnlock | src/libcu.ext/vsystem-unix.cpp:1176-1332 | posixUnlock() takes exactly the process's steps up to the mutex's release, keeping the invariant at every one of its calls, and then writes the level; it comes to what the siblings' levels and the answers say, and succeeds exactly if all answers do; its assertions hold |
| UnixVfs.UnixProcess.ClosePendingFds | src/libcu.ext/vsystem-unix.cpp:761-771 | every descriptor on the unused list is closed, and only those |
| UnixVfs.UnixProcess.ReleaseInodeInfo | src/libcu.ext/vsystem-unix.cpp:773-795 | one user fewer; the record is reset and its unused descriptors are closed exactly when nRef reaches zero |
| UnixVfs.UnixProcess.CloseAfterUnlock | src/libcu.ext/vsystem-unix.cpp:1360-1382 | one user fewer; the descriptor waits on the unused list while locks are outstanding and is closed otherwise, the last user closes all that wait and frees the record, and the invariant is kept |
| UnixVfs.UnixProcess.UnixClose | src/libcu.ext/vsystem-unix.cpp:1360-1382 | unlock and close keep the invariant and leave the other connections alone; the connection survives, as a lock, exactly if its unlock failed before it left the readers and others use the record |
| UnixVfs.UnixProcess.FindReusableFd | src/libcu.ext/vsystem-unix.cpp:3847-3887 | the first unused descriptor with the wanted flags leaves the list, the others keep their order |
| UnixVfs.UnixProcess.TakeDescriptor | src/libcu.ext/vsystem-unix.cpp:4058-4124 | if stat() works and an unused descriptor has the flags, the open goes on with the first such, which leaves the list while the others keep their order, and no descriptor is new; else with a new one, and the list stays; either has exactly one owner afterwards |
| UnixVfs.UnixProcess.FillInUnixFile | src/libcu.ext/vsystem-unix.cpp:3635-3661 | the connection joins the inode record at NO_LOCK, is counted and owns its descriptor, or, when a new record cannot be allocated, its descriptor is closed at once, which loses no lock; nothing else changes |
| InodeList.Inodes.FindInodeInfo | src/libcu.ext/vsystem-unix.cpp:797-875 | the one record of the file is returned with a further reference; it is created at the head of the list only if there was none |
| InodeList.Inodes.Unlink | src/libcu.ext/vsystem-unix.cpp:781-791 | both neighbours of the record, or the head of the list, are relinked around it; the source's assertions hold |
| InodeList.Inodes.ReleaseInodeInfo | src/libcu.ext/vsystem-unix.cpp:773-795 | the record is unlinked and freed exactly when the last connection that uses it leaves; all others stay |
| InodeList.Inodes.ListedIffUsed | src/libcu.ext/vsystem-unix.cpp:773-875 | a record is on the list exactly while an open connection uses it |
| NfsDowngrade.WindowFreeIffTailHeld | src/libcu.ext/vsystem-unix.cpp:1209-1265 | at no stage can another process write-lock the whole shared range, if and only if the range's last byte is locked on entry |
| NfsDowngrade.NoReaderBeforePendingDropped | src/libcu.ext/vsystem-unix.cpp:1209-1295 | from PENDING or above a new reader gets past the PENDING byte only after the last call |
| NfsProcess.NfsStepKeeps | src/libcu.ext/vsystem-unix.cpp:1225-1332 | each of the staged calls, answered either way, and every other step keeps of the process all that holds with the one-call downgrade, but for the lock on the shared range, of which it keeps how it differs |
| NfsProcess.DowngradeSteps | src/libcu.ext/vsystem-unix.cpp:1225-1295 | the four calls of a downgrade ask for what the stages say, leave the process with those locks, and end where the one-call downgrade ends |
| NfsProcess.WindowFreeIffUncut | src/libcu.ext/vsystem-unix.cpp:1209-1295 | a downgrade of a process lets no other process write-lock the range, at whichever call it stops, if and only if the last byte was not given up since the range was last locked |
| NfsProcess.CutDowngradeOpensWindow | src/libcu.ext/vsystem-unix.cpp:1225-1252 | a downgrade asked for after the last byte was given up leaves nothing on the range after its first call |
| NfsProcess.RetriedDowngradeOpensWindow | src/libcu.ext/vsystem-unix.cpp:1253-1295 | when the third call succeeds and the fourth fails, the connection keeps its level, and the retried downgrade leaves nothing on the range after its first call |
| NfsSystem.ReachableInv | src/libcu.ext/vsystem-unix.cpp:1176-1332 | in every state of every run of any number of processes with staged downgrades each process keeps that invariant, and no locks clash |
| NfsSystem.CutIffDowngradedSince | src/libcu.ext/vsystem-unix.cpp:1253-1265 | the last byte is given up if and only if, in the run so far, a third call succeeded and no later step of the process dealt with the whole range |
| NfsSystem.WindowFreeIff | src/libcu.ext/vsystem-unix.cpp:1209-1295 | at any time in any run, a downgrade that a process outside exclusive mode starts now is free of windows if and only if no earlier downgrade of the process got past its third call since the process last dealt with the whole range |
| NfsTheorems.OneWriter | src/libcu.ext/vsystem-unix.cpp:946-1332 | however the downgrades went, at most one connection anywhere is at RESERVED and at most one at PENDING or EXCLUSIVE, outside exclusive mode |
| NfsTheorems.OneWriterCarefully | src/libcu.ext/vsystem-unix.cpp:946-1332 | in every run in which no downgrade starts without the last byte the same holds of all connections, in exclusive mode or not |
| NfsScenario.TwoReserved | src/libcu.ext/vsystem-unix.cpp:918-944 | otherwise a connection at RESERVED and another at RESERVED in an exclusive-mode process are reachable together |
| NfsScenario.ExclusiveModeTakesTheWindow | src/libcu.ext/vsystem-unix.cpp:918-944 | from every reachable state in which a downgrade without the last byte is under way beside an unlocked exclusive-mode process, and nobody else is on the range, that process can get its first reader during the downgrade, whatever bytes the other holds, and then RESERVED |
| NfsTheorems.NoNewReadingProcess | src/libcu.ext/vsystem-unix.cpp:1209-1295 | in every reachable state, while a process holds the PENDING byte, in the middle of a downgrade or not, no step of another process gives a process without readers its first one, outside exclusive mode |
| NfsTheorems.NoNewReadingProcessCarefully | src/libcu.ext/vsystem-unix.cpp:1209-1295 | in every run in which no downgrade starts without the last byte this holds during a downgrade for exclusive-mode processes too |
| NfsScenario.ReaderPassesPending | src/libcu.ext/vsystem-unix.cpp:918-944 | otherwise an exclusive-mode process can get its first reader while another is in the middle of a downgrade with the PENDING byte |
| NfsTheorems.OwnCallsKeepReadersOut | src/libcu.ext/vsystem-unix.cpp:1225-1295 | each call of a downgrade from PENDING or above, answered either way, leaves the file closed to new readers of other processes, if and only if it is not the fourth one succeeding |
| NfsTheorems.ExclusiveExcludes | src/libcu.ext/vsystem-unix.cpp:946-1332 | in every state of every run in which no downgrade starts without the last byte, EXCLUSIVE implies that every other settled connection of every process is at NO_LOCK |
| NfsScenario.WriterTakesTheWindow | src/libcu.ext/vsystem-unix.cpp:1225-1252 | from every reachable state in which such a downgrade is under way and a writer of another process waits at PENDING, a run leads to that writer at EXCLUSIVE and the downgraded connection still above SHARED |
| NfsScenario.SecondDowngradeBreaksExclusion | src/libcu.ext/vsystem-unix.cpp:1209-1295 | two processes reach EXCLUSIVE and RESERVED together: the second one after one good downgrade, RESERVED again and a second downgrade |
| NfsVfs.StagedLock | src/libcu.ext/vsystem-unix.cpp:1225-1265 | each staged unixFileLock() with the code behind it is exactly one step of the process, for either answer |
| NfsVfs.DowngradeOutcomeIs | src/libcu.ext/vsystem-unix.cpp:1225-1295 | a staged downgrade makes its four calls up to the first that fails, succeeds exactly if all do, and leaves the locks that the stages say |
| NfsVfs.NfsUnlock | src/libcu.ext/vsystem-unix.cpp:1176-1332 | nfsUnlock(), to either target, takes exactly the steps of the process for the answers it gets, over the inode record, levels and siblings, and keeps the invariant at every one of its calls; its outcome is that of the staged downgrade, or of posixUnlock() towards NO_LOCK; its assertions hold |
| ShmMask.MaskBits | src/libcu.ext/vsystem-unix.cpp:3215-3216 | the mask has exactly the bits of the requested slots |
| ShmMask.DisjointBits | src/libcu.ext/vsystem-unix.cpp:3229 | two masks meet exactly when they share a slot |
| ShmLocks.GrantBits | src/libcu.ext/vsystem-unix.cpp:3218-3289 | a granted request changes the caller's masks on the requested slots and nothing else |
| ShmLocks.InsideJoin | src/libcu.ext/vsystem-unix.cpp:3218-3289 | on a requested slot the join of the connections' masks becomes what the siblings' masks made the code ask of the kernel, or stays if no call was made |
| ShmLocks.GrantKeepsNode | src/libcu.ext/vsystem-unix.cpp:3190-3294 | a granted request of what the caller may ask keeps: kernel lock of each slot equals the join of the masks, and an exclusive holder has no sibling on its slot |
| ShmLocks.UnlockKeepsJoinIff | src/libcu.ext/vsystem-unix.cpp:3218-3239 | any unlock, of held or unheld slots, keeps the kernel locks equal to the join if and only if: when a sibling reads in the range the caller gives up nothing that no sibling reads, and otherwise no sibling writes in it |
| ShmLocks.LeakedReadLock | src/libcu.ext/vsystem-unix.cpp:3218-3239 | two connections and one unlock of two slots after which the kernel holds a read lock nobody has |
| ShmSystem.ReachableInv | src/libcu.ext/vsystem-unix.cpp:2862-3294 | every run of any number of processes and connections keeps join, local exclusion, and compatibility between processes |
| ShmSystem.KernelHoldsTheJoin | src/libcu.ext/vsystem-unix.cpp:2862-2928 | in every reachable state a process's kernel lock on a slot is the join of its connections' locks |
| ShmSystem.GrantedIffFlatAllows | src/libcu.ext/vsystem-unix.cpp:3190-3294 | absent system faults a request is granted exactly when one flat table over all connections of all processes allows it |
| ShmSystem.FlatAfter | src/libcu.ext/vsystem-unix.cpp:3218-3289 | seen in that table, a request changes exactly the caller's requested slots, and only if it succeeds |
| ShmSystem.ExclusiveIsAlone | src/libcu.ext/vsystem-unix.cpp:3240-3289 | in every reachable state an exclusive holder of a slot is alone on it among all connections of all processes |
| UnixShm.ShmNode.SharedBySiblings | src/libcu.ext/vsystem-unix.cpp:3219-3226 | the loop over the list collects exactly the slots that siblings read; its assertion holds |
| UnixShm.ShmNode.ScanShared | src/libcu.ext/vsystem-unix.cpp:3241-3253 | the loop stops exactly if some connection holds the slot exclusively, else it has collected the readers |
| UnixShm.ShmNode.ScanExclusive | src/libcu.ext/vsystem-unix.cpp:3272-3277 | the loop refuses exactly if some connection, the caller included, holds a requested slot in either mode |
| UnixShm.ShmNode.UnixShmSystemLock | src/libcu.ext/vsystem-unix.cpp:2862-2890 | the kernel is asked for exactly the requested bytes, and only if the node has a file; without one the call always succeeds; the source's assertions hold |
| UnixShm.ShmNode.UnixShmLock | src/libcu.ext/vsystem-unix.cpp:3190-3294 | unixShmLock() returns and leaves, in masks and kernel locks, exactly what the specification of one process says, for either answer of the kernel, and keeps the invariant; in a node without a file the kernel is not asked and the masks alone decide |
| UnixShm.ShmNode.Link | src/libcu.ext/vsystem-unix.cpp:3065-3068 | a new connection without locks joins at the head of the list and changes nothing for its siblings |
| ShmLocks.DropKeepsNodeIff | src/libcu.ext/vsystem-unix.cpp:3304-3330 | when a connection goes, with whatever it holds, the kernel's locks stay the join of the masks if and only if it held nothing exclusively and siblings read what it read |
| UnixShm.ShmNode.Unlink | src/libcu.ext/vsystem-unix.cpp:3304-3330 | exactly the connection leaves the list, whatever it holds; the node stays consistent if and only if its siblings hold what it held |
| ShmNodeLife.RefCountIsUsers | src/libcu.ext/vsystem-unix.cpp:2954-3077 | in every interleaving nRef is the number of connections that are opened but not linked, linked, or unlinked but not released, and the list holds exactly the linked ones |
| ShmNodeLife.NodeInUseIsThere | src/libcu.ext/vsystem-unix.cpp:3049-3068 | whoever still has to link, unlink or release, and the thread that is opening the file, finds the node in place |
| ShmNodeLife.FreedIffUnused | src/libcu.ext/vsystem-unix.cpp:2930-2952 | a step frees the node exactly when it leaves nobody using or opening it; its list is then empty and its locks are gone |
| ShmNodeLife.NeverTruncatedInUse | src/libcu.ext/vsystem-unix.cpp:3033-3045 | while a process may truncate the file, and until it has its read lock or gave up, no other process has completed its open or completes it |
| ShmNodeLife.StepKeepsInv | src/libcu.ext/vsystem-unix.cpp:2930-3343 | each critical section and each answer of the kernel keeps count, list, opening state and dead-man switch consistent |
| ShmNodeLife.ConnectionsMove | src/libcu.ext/vsystem-unix.cpp:2949-3085 | a connection goes from absent to counted, linked, unlinked and absent again by exactly its own steps, and no step moves another |
| ShmNodeLife.BeginAsks | src/libcu.ext/vsystem-unix.cpp:2966-3037 | the first connection of a process outside exclusive mode goes on to ask for the dead-man switch |
| ShmNodeLife.OpenFailsIff | src/libcu.ext/vsystem-unix.cpp:3036-3046 | an open under way is given up exactly when the file cannot be truncated or the read-lock is refused, and completed exactly when the read-lock is granted |
| ShmNodeLife.OpenCompletes | src/libcu.ext/vsystem-unix.cpp:3036-3060 | from every reachable state in which no other process has the switch for writing, the steps of the opening process alone lead to its connection being counted, whichever way the write request is answered |
| ShmNodeLife.WinnerTruncatesFirst | src/libcu.ext/vsystem-unix.cpp:3036-3046 | in every run a thread that has won the write-lock is counted, in the same open, only after it has truncated the file |
| ShmNodeLife.OnlyWinnerTruncates | src/libcu.ext/vsystem-unix.cpp:3036-3041 | a thread comes to truncate exactly by winning the write-lock |
| PageCache.CutList | src/libcu.sqlite/pcache.c:173-195 | a page bypassed in both directions is off the list, and the rest is one chain with inverse links and the right ends |
| PageCache.HintCut | src/libcu.sqlite/pcache.c:168-171 | if every page older than pSynced needs a sync, this stays so when a page is removed; every operation that removes one says so |
| PageCache.HintAdd | src/libcu.sqlite/pcache.c:213-222 | and when a page is added |
| PageCache.HintFront | src/libcu.sqlite/pcache.c:158-225 | and when a page is moved to the front, in one formula for both changes |
| PageCache.HintAfterSearch | src/libcu.sqlite/pcache.c:419-427 | a search keeps it if and only if every page it passed needs a sync |
| PageCache.SearchKeepsExactIff | src/libcu.sqlite/pcache.c:414-427 | a spill search from an exact hint leaves it exact if and only if the oldest page that needs no sync is unreferenced, or there is none: the case that the source calls incorrect |
| PageCache.HintCutBack | src/libcu.sqlite/pcache.c:168-171 | removing the hint or a page that needs a sync does not make an inexact hint exact |
| PageCache.NewestCut | src/libcu.sqlite/pcache.c:164-196 | removing a page keeps the list in the order in which its pages were last added |
| PageCache.PCache.RemoveFromDirtyList | src/libcu.sqlite/pcache.c:164-196 | exactly p leaves the list, pSynced moves to the next newer page if it was p, eCreate, ends and links stay right, the list stays in the order of the times at which its pages were added, which do not change, and an exact hint stays exact |
| PageCache.PCache.AddToDirtyList | src/libcu.sqlite/pcache.c:197-223 | p becomes the newest page and only its time of adding changes, pSynced becomes p only if there was none and p needs no sync, an exact hint stays exact, and the list invariant is kept |
| PageCache.PCache.MoveToFront | src/libcu.sqlite/pcache.c:158-225 | removing and adding in one call: p is first and newest, all others keep their order and times, and an exact hint stays exact |
| PageCache.PCache.SkippedFront | src/libcu.sqlite/pcache.c:510-524 | for the first page, the move that the code skips leaves the list as it is, leaves pSynced as it is if and only if not (no hint and no sync needed) and not (page is the hint and needs a sync), and keeps an exact hint exact |
| PageCache.PCache.Release | src/libcu.sqlite/pcache.c:510-524 | one reference fewer; the last one unpins a clean page and moves a dirty one to the front; for a page that is first already neither pSynced nor its time changes; an exact hint stays exact |
| PageCache.PCache.Ref | src/libcu.sqlite/pcache.c:529-534 | one reference more, on the page and in the sum |
| PageCache.PCache.Drop | src/libcu.sqlite/pcache.c:541-549 | the page, its pin and its one reference leave the cache, and the list if it was on it, with pSynced on the next newer page if it was the hint; an exact hint stays exact |
| PageCache.PCache.MakeDirty | src/libcu.sqlite/pcache.c:555-568 | a clean page becomes the newest dirty page; a dirty one only loses DONT_WRITE and keeps its place and time; an exact hint stays exact |
| PageCache.PCache.MakeClean | src/libcu.sqlite/pcache.c:574-587 | the page leaves the list and loses its flags, and is unpinned if nobody references it; an exact hint stays exact |
| PageCache.PCache.CleanAll | src/libcu.sqlite/pcache.c:592-598 | no dirty page is left, pSynced is null and eCreate is 2 |
| PageCache.PCache.ClearWritable | src/libcu.sqlite/pcache.c:603-610 | no dirty page needs a sync or is writeable, and pSynced, now the tail, is exact |
| PageCache.PCache.ClearSyncFlags | src/libcu.sqlite/pcache.c:615-621 | no dirty page needs a sync, and pSynced, now the tail, is exact |
| PageCache.PCache.Move | src/libcu.sqlite/pcache.c:626-637 | the page has its new number, a page that had it is gone, page numbers stay unlike; a page that needs a sync is at the front of the list and newest; an exact hint stays exact |
| PageCache.PCache.Truncate | src/libcu.sqlite/pcache.c:648-676 | the dirty list keeps, in order, the pages up to the limit; pSynced is the nearest kept page at or newer than the old one; exactly the pages up to the limit stay in the cache, page 1 too if references remain; page 1 is then there, its content is zero and no other content changes; an exact hint stays exact |
| PageCache.PCache.RecyclableIsIdle | src/libcu.sqlite/pcache.c:231-237 | a page the pluggable cache may recycle is clean, unreferenced and off the list |
| PageCache.PCache.FetchFinish | src/libcu.sqlite/pcache.c:461-504 | a fetched page has one reference more, a new one starts clean with one and a number no other page has; whatever unpinned pages were recycled to make room, the invariant is kept |
| PageCache.PCache.RefSumIsTotal | src/libcu.sqlite/pcache.c:487-549 | nRefSum is the sum of nRef over the pages in the cache |
| PageCache.PCache.FindSynced | src/libcu.sqlite/pcache.c:423-426 | the first loop finds the first page at or newer than pSynced that is unreferenced and needs no sync, or there is none |
| PageCache.PCache.ChooseVictim | src/libcu.sqlite/pcache.c:414-430 | the page chosen is dirty and unreferenced; if it needs a sync, no page that does not was free at or newer than pSynced, and it is the oldest free page; none is chosen only if all are referenced; an exact pSynced stays exact if and only if the oldest page that needs no sync is not referenced |
| PageCache.PCache.ExactHintIsOptimal | src/libcu.sqlite/pcache.c:414-430 | while pSynced is exact, a page that needs a sync is offered only if every free dirty page does |
| PageCache.PCache.Stress | src/libcu.sqlite/pager.c:4498-4563 | xStress() offered a page: a journal sync clears the sync flag of every dirty page and makes the hint exact; a written page leaves the list clean; an exact hint stays exact, and an inexact one becomes exact only by the sync, or by writing a page that needs none and is not the hint |
| PageCache.PCache.FetchStress | src/libcu.sqlite/pcache.c:405-450 | above szSpill a page is offered exactly if some dirty page is unreferenced, and it leaves the list exactly if it was written; an exact hint stays exact if and only if no search was made, xStress() synced the journal, or the oldest page that needs no sync was not referenced; whatever unpinned pages the last xFetch() recycles, the invariant is kept |
| PageCacheSort.MergedPages | src/libcu.sqlite/pcache.c:698-722 | merging two lists keeps every page |
| PageCacheSort.MergedAscending | src/libcu.sqlite/pcache.c:698-722 | merging two ascending lists without common numbers gives an ascending list |
| PageCacheSort.Merge | src/libcu.sqlite/pcache.c:698-722 | pcacheMergeDirtyList() links the merged list in place, writing only pDirty fields of the two lists |
| PageCacheSort.MergeBucket | src/libcu.sqlite/pcache.c:747-750 | merging bucket i with 2^i pages in hand empties it and leaves 2^(i+1) ascending pages in hand, all other buckets intact |
| PageCacheSort.Insert | src/libcu.sqlite/pcache.c:743-757 | after each page every bucket i is empty or an ascending list of exactly 2^i pages; the overflow arm is reached if and only if this is the 2^31st page, and all buckets are then empty |
| PageCacheSort.Distribute | src/libcu.sqlite/pcache.c:739-758 | all pages of the input, and only those, end up in the buckets, unless the input has 2^31 pages or more, and exactly then the overflow arm is reached |
| PageCacheSort.Collect | src/libcu.sqlite/pcache.c:759-764 | the buckets become one ascending list of all their pages |
| PageCacheSort.SortDirtyList | src/libcu.sqlite/pcache.c:735-765 | the result is a permutation of the input, linked by pDirty and strictly ascending in page number; no other field of any page is written |
| PageCacheSort.DirtyList | src/libcu.sqlite/pcache.c:770-776 | the same for the dirty pages of a cache, whose invariant, with its unlike page numbers, is kept |
| WinFile.StepKeepsHandle | src/libcu.ext/vsystem-win.cpp:2409-2565 | every step of a handle other than a refused reread keeps what each level and each point of the code stands for |
| WinFile.ExclusiveOwnsPending | src/libcu.ext/vsystem-win.cpp:2474-2487 | exclusive ownership of the shared range comes with the PENDING byte, whatever the handle is in the middle of |
| WinFile.CallKeepsBroken | src/libcu.ext/vsystem-win.cpp:2481-2565 | once a reread is refused, no later call of the same winLock() or winUnlock() gives back the read lock that the level stands for |
| WinFile.StepKeepsLoose | src/libcu.ext/vsystem-win.cpp:2409-2565 | whatever rereads fail, every step leaves a handle as it should be, or so but for its read lock |
| WinSystem.ReachableInv | src/libcu.ext/vsystem-win.cpp:2409-2565 | every run of any number of handles without a spurious reread failure keeps the handles' invariants and has no clashing locks |
| WinSystem.AnyReachableInv | src/libcu.ext/vsystem-win.cpp:2409-2565 | in every state of every run, whatever rereads fail, each handle is as it should be, or so but for its read lock, and no locks clash |
| WinSystem.ExclusiveRangeImpliesPending | src/libcu.ext/vsystem-win.cpp:2433-2503 | at every system call of every such run, who owns the shared range exclusively owns PENDING |
| WinSystem.RereadAlwaysGranted | src/libcu.ext/vsystem-win.cpp:2481-2487 | the read lock dropped by winLock(), and the one retaken by winUnlock(), is never refused for a clash |
| WinSystem.FailedExclusiveEndsPending | src/libcu.ext/vsystem-win.cpp:2474-2501 | a refused EXCLUSIVE request ends at PENDING with the PENDING byte and the read lock |
| WinSystem.ExclusiveExcludes | src/libcu.ext/vsystem-win.cpp:2409-2565 | a handle at EXCLUSIVE implies that all other handles not in the middle of an unlock are at NO_LOCK |
| WinSystem.OnePendingOrExclusive | src/libcu.ext/vsystem-win.cpp:2409-2565 | at most one handle is at PENDING or EXCLUSIVE |
| WinSystem.OneReserved | src/libcu.ext/vsystem-win.cpp:2466-2472 | at most one handle is at RESERVED |
| WinSystem.NoNewReaders | src/libcu.ext/vsystem-win.cpp:2433-2464 | while a handle holds the PENDING byte no other handle goes from NO_LOCK to a read lock |
| WinSystem.ExclusiveGrantedIff | src/libcu.ext/vsystem-win.cpp:2481-2487 | the last step to EXCLUSIVE can be granted exactly if no other handle holds the shared range, and then the level is EXCLUSIVE |
| WinSystem.ReservedGrantedIff | src/libcu.ext/vsystem-win.cpp:2466-2472 | in every reachable state a handle at SHARED that asks for RESERVED makes a call that can be granted exactly if no other handle has the RESERVED byte, and is then at RESERVED with it |
| WinSystem.SharedGrantedIff | src/libcu.ext/vsystem-win.cpp:2433-2464 | in every reachable state a handle at NO_LOCK that asks for SHARED first asks for the PENDING byte, which can be granted exactly if no other handle has it, and then nothing stands in the way of its read lock |
| WinScenario.SpuriousRereadBreaksExclusion | src/libcu.ext/vsystem-win.cpp:2549-2562 | after one refusal of a reread without cause, a handle at SHARED and another at EXCLUSIVE are reachable together |
| WinScenario.BrokenHandleAdmitsExclusive | src/libcu.ext/vsystem-win.cpp:2409-2565 | from every reachable state with a handle between calls that reports SHARED or more without its read lock, an unlocked handle, and no lock of a third one, a run leads to the unlocked handle at EXCLUSIVE and the other still at SHARED or above |
| WinVfs.WinHandle.LockPending | src/libcu.ext/vsystem-win.cpp:2433-2456 | up to three tries at the PENDING byte, ended early by an invalid handle, are that many steps of the handle |
| WinAnswers.LockOutcomeIs | src/libcu.ext/vsystem-win.cpp:2409-2504 | RESERVED from SHARED is one call and is reached exactly if it is granted; SHARED and EXCLUSIVE from below PENDING first win the PENDING byte within three tries, or give up; then the read lock decides on SHARED, and the shared range on EXCLUSIVE, whose refusal ends at PENDING with one more call for the read lock; from PENDING only the range is asked for |
| WinVfs.WinHandle.Lock | src/libcu.ext/vsystem-win.cpp:2409-2504 | winLock() makes exactly the handle's calls for the answers it gets and comes to that outcome, returns OK exactly when the level is reached and an I/O error exactly when the tries ended with an invalid handle, and afterwards the level stands for the locks held if and only if no reread was refused |
| WinVfs.WinHandle.Unlock | src/libcu.ext/vsystem-win.cpp:2541-2565 | winUnlock() makes exactly the handle's calls, as many as its level and target say, ends at the target level, and succeeds if and only if afterwards the level stands for the locks held, that is if no reread was refused; it cannot fail towards NO_LOCK |
| WinceLock.Handle.LockFile | src/libcu.ext/vsystem-win.cpp:1785-1835 | the emulation grants a request exactly if a table over all handles would, and records it for this handle only |
| WinceLock.Handle.UnlockFile | src/libcu.ext/vsystem-win.cpp:1838-1888 | a handle gives up only what it owns; reader count and flags stay those of the handles |
| WinceLock.Handle.Destroy | src/libcu.ext/vsystem-win.cpp:1761-1782 | whatever the handle still holds leaves the shared record with it |
| WinceLock.Shared.ExclusiveMeansNoReaders | src/libcu.ext/vsystem-win.cpp:1796-1813 | an exclusive owner excludes every reader, itself included |
| WinceLock.Shared.NoReaders | src/libcu.ext/vsystem-win.cpp:1797-1811 | shared.readers is zero exactly when no handle has local readers |
| RecursiveMutex.StepKeepsInv | src/libcu.ext/mutex-unix.cpp:198-291 | each single read or write by any thread keeps: threads outside are at most testing, and the fields are what the holder's position says |
| RecursiveMutex.MutualExclusion | src/libcu.ext/mutex-unix.cpp:198-217 | no two threads have entered at once |
| RecursiveMutex.TestIsExact | src/libcu.ext/mutex-unix.cpp:208-212 | the unsynchronised test comes out true exactly for a thread that has entered |
| RecursiveMutex.RefsIsDepth | src/libcu.ext/mutex-unix.cpp:198-291 | outside its own calls the holder is the owner and Refs is its nesting depth |
| RecursiveMutex.FreeMeansZero | src/libcu.ext/mutex-unix.cpp:280-291 | when no thread has entered or is in a call, the mutex is open with Refs and Owner zero |
| RecursiveMutex.NoRefsAfterLock | src/libcu.ext/mutex-unix.cpp:212-215 | the source's assertion after the underlying lock holds |
| RecursiveMutex.NeverWaitsForItself | src/libcu.ext/mutex-unix.cpp:209-212 | no thread waits for, or is turned away by, a lock it holds |
| UnixMutex.OthersRely | src/libcu.ext/mutex-unix.cpp:198-291 | what another thread's step does to the fields is what the code below allows for |
| UnixMutex.Mutex.HeldBySelf | src/libcu.ext/mutex-unix.cpp:209 | with other threads acting before each of its two reads, the test answers whether the thread has entered |
| UnixMutex.Mutex.Enter | src/libcu.ext/mutex-unix.cpp:198-217 | the thread is inside one level deeper, by the increment or by the underlying lock |
| UnixMutex.Mutex.TryEnter | src/libcu.ext/mutex-unix.cpp:233-256 | it fails only for a thread outside, while another is inside, and else enters |
| UnixMutex.Mutex.Leave | src/libcu.ext/mutex-unix.cpp:280-291 | the thread is one level less deep, and the mutex is open after the last |
| VxworksName.Idempotent | src/libcu.ext/vsystem-unix.cpp:580-602 | simplifying twice is simplifying once |
| VxworksName.EmptyIff | src/libcu.ext/vsystem-unix.cpp:583-601 | the result is empty exactly for the empty name and for two or more slashes alone |
| VxworksName.ResolvedProper | src/libcu.ext/vsystem-unix.cpp:585-597 | no component but the last is ever empty, a dot or a double dot |
| VxworksName.ResolvedJoin | src/libcu.ext/vsystem-unix.cpp:580-602 | joining proper components and resolving the result gives the components back |
| VxworksName.DoubleDot | src/libcu.ext/vsystem-unix.cpp:591-595 | a double dot goes together with the proper component before it, whatever stands in front and behind |
| VxworksName.DoubleDotAtRoot | src/libcu.ext/vsystem-unix.cpp:591-595 | at the root it goes alone |
| VxworksName.SingleDot | src/libcu.ext/vsystem-unix.cpp:587-590 | a dot goes |
| VxworksName.DoubleSlash | src/libcu.ext/vsystem-unix.cpp:586 | of two slashes one goes |
| VxworksName.TrailingSlash | src/libcu.ext/vsystem-unix.cpp:583 | a slash at the end of a name goes |
| VxworksName.ProperStays | src/libcu.ext/vsystem-unix.cpp:583-597 | a name of proper components, with any last one, is left as it is |
| VxworksName.Pop | src/libcu.ext/vsystem-unix.cpp:592-593 | backing up over the output of some components leaves that of all but the last, and nothing of nothing |
| VxworksName.SkipAt | src/libcu.ext/vsystem-unix.cpp:586-596 | the lookaheads at a slash consume exactly an empty, dot or double-dot component |
| VxworksName.SimplifyName | src/libcu.ext/vsystem-unix.cpp:580-602 | in place, with the write index never past the read index, the result is the name with all components but the last resolved on a stack and the last kept as it is; two or more slashes alone become the empty name |
| UnixFileIo.UnixFile.SeekAndRead | src/libcu.ext/vsystem-unix.cpp:2218-2264 | whatever partial and interrupted reads occur, the result is -1 exactly after another error, else the number of requested bytes the file has, and the buffer starts with them |
| UnixFileIo.UnixFile.Read | src/libcu.ext/vsystem-unix.cpp:2266-2297 | OK comes with exactly the requested bytes, SHORT_READ with what the file has and zeros behind it, an error only from the system |
| UnixFileIo.ChunkRoundedIsLeast | src/libcu.ext/vsystem-unix.cpp:2617 | the required size is the least multiple of the chunk size that holds the requested bytes |
| UnixFileIo.FirstWriteOffset | src/libcu.ext/vsystem-unix.cpp:2643 | the first write goes to the last byte of the first block that starts at or after the old end |
| UnixFileIo.UnixFile.TouchBlocks | src/libcu.ext/vsystem-unix.cpp:2643-2648 | the last bytes of the whole blocks of the extension are written, no other offset is, and no content changes; on failure some of them are |
| UnixFileIo.UnixFile.SizeHint | src/libcu.ext/vsystem-unix.cpp:2610-2654 | on success the file is the old content and zeros up to the rounded size, and the offsets written are exactly the last bytes of the whole blocks of the extension; on failure too the old bytes stay, only zeros follow and no other offset is written |
| UnixFileIo.TouchedIffWhole | src/libcu.ext/vsystem-unix.cpp:2643-2648 | a block is touched if and only if it lies wholly in the extension |
| UnixFileIo.AllTouchedIff | src/libcu.ext/vsystem-unix.cpp:2630-2648 | every block that has a byte in the extension is touched if and only if the old size and the new one are multiples of the block size |
| UnixFileIo.UntouchedBlocks | src/libcu.ext/vsystem-unix.cpp:2630-2648 | a file grown from 1 byte to 4, and one grown from 0 to 6, with blocks of 4 bytes, each have a block of the extension untouched |

## Left out

- Read-only connections and the mixing of exclusive-mode with other connections on one inode in one process: the lock protocol does not cover them.
- unixCheckReservedLock() and winCheckReservedLock(): they report, and take a lock only for an instant.
- errno values: a failed call is busy or an I/O error without more detail, and lastErrno is not kept.
- fstat() failing in findInodeInfo(): the source itself gives up the guarantee about descriptors there.
- Memory allocation failing anywhere but in findInodeInfo() and unixOpenSharedMemory().
- AFP, flock, dot-file, semaphore and proxy locking: variants of the same levels with weaker structure.
- unixShmMap(): growing and mapping the regions of the WAL index has no locking logic; read-only WAL indexes are not modelled.
- UnixShm.ShmNode.UnixShmLock: does not model requests for all eight slots at once, which unixShmSystemLock() asserts against.
- ShmNodeLife: the two mutexes are modelled as the atomicity of the sections they guard.
- The content of pages other than its being zeroed, changes of page size, cache sizes and the pluggable cache itself, which is modelled by what it may do: recycle pages that are not pinned, and discard one when another takes its number.
- PageCache.PCache.FetchStress: of what the pager does in xStress() the cache's part is modelled: clearing the sync flags after a journal sync, and making the page clean; its journal and error state are not.
- Counter widths: nRef is 16 bits and nRefSum, nShared and nLock are int in the source; all are unbounded here.
- sqlite3PcacheSetPageSize() and the setting of NEED_SYNC and WRITEABLE, which the pager does itself.
- The random byte that winGetReadLock() locks on Windows 95: only the range lock of Windows NT is modelled.
- winceCreateLock(): naming the mutex and mapping the memory; the named mutex is the atomicity of each call.
- Built-in recursive mutexes, static mutexes and allocation in mutex-unix.cpp.
- UnixMutex.Mutex.Enter: waiting for the underlying lock is modelled by what holds when the wait ends, so progress is not stated.
- posix_fallocate(): only the fallback without it is modelled; unixWrite() and its retry loop are left out.
- UnixFileIo.UnixFile.Read: other processes do not change the file during a read, and interruptions are finite.
- vxworksFindFileId() and its list of file ids.
