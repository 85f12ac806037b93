/** The page cache's list of dirty pages, its reference counts and its pins.

The pluggable cache underneath appears by contract only: `pinned` is the set of pages it may not
recycle, which xFetch() enters and xUnpin() leaves. */
module PageCache {
  import opened Lists


  /** struct PgHdr.  Each PGHDR_ flag is a field of its own. */
  class PgHdr {
    var pgno: nat
    /** The page buffer behind pData. */
    var data: seq<bv8>
    var clean: bool
    var isDirty: bool
    var writeable: bool
    var needSync: bool
    var dontWrite: bool
    var nRef: int
    var pDirty: PgHdr?
    var pDirtyNext: PgHdr?
    var pDirtyPrev: PgHdr?

    constructor (n: nat, bytes: seq<bv8>)
      ensures pgno == n && data == bytes && clean && !isDirty && !writeable && !needSync && !dontWrite && nRef == 0
      ensures pDirty == pDirtyNext == pDirtyPrev == null
    {
      pgno, data := n, bytes;
      clean, isDirty, writeable, needSync, dontWrite := true, false, false, false, false;
      nRef := 0;
      pDirty, pDirtyNext, pDirtyPrev := null, null, null;
    }
  }

  /** The k-th page of a list, or null outside it. */
  ghost function Nth(s: seq<PgHdr>, k: int): PgHdr? {
    if 0 <= k < |s| then s[k] else null
  }

  /** Next and previous links follow s. */
  ghost predicate Chained(s: seq<PgHdr>)
    reads s`pDirtyNext, s`pDirtyPrev
  {
    && (forall k {:trigger s[k].pDirtyNext} :: 0 <= k < |s| ==> s[k].pDirtyNext == Nth(s, k + 1))
    && (forall k {:trigger s[k].pDirtyPrev} :: 0 <= k < |s| ==> s[k].pDirtyPrev == Nth(s, k - 1))
  }

  /** Pages off the list have no links. */
  ghost predicate Loose(all: set<PgHdr>, s: seq<PgHdr>)
    reads all`pDirtyNext, all`pDirtyPrev
  {
    forall x :: x in all && x !in s ==> x.pDirtyNext == null && x.pDirtyPrev == null
  }

  lemma CutDistinct(s: seq<PgHdr>, k: nat)
    requires k < |s| && Distinct(s)
    ensures Distinct(Cut(s, k))
    ensures forall x :: x in Cut(s, k) ==> x in s && x != s[k]
    ensures forall x :: x in s && x != s[k] ==> x in Cut(s, k)
  {
  }

  /** What bypassing s[k] leaves on the other pages. */
  ghost predicate BypassNext(s: seq<PgHdr>, k: nat)
    reads s`pDirtyNext
  {
    forall j {:trigger s[j].pDirtyNext} :: 0 <= j < |s| && j != k ==>
      s[j].pDirtyNext == if j == k - 1 then Nth(s, k + 1) else Nth(s, j + 1)
  }

  ghost predicate BypassPrev(s: seq<PgHdr>, k: nat)
    reads s`pDirtyPrev
  {
    forall j {:trigger s[j].pDirtyPrev} :: 0 <= j < |s| && j != k ==>
      s[j].pDirtyPrev == if j == k + 1 then Nth(s, k - 1) else Nth(s, j - 1)
  }

  lemma CutLength(s: seq<PgHdr>, k: nat, i: nat)
    requires k < |s|
    ensures |Cut(s, k)| == |s| - 1
    ensures i < |s| - 1 ==> Cut(s, k)[i] == s[if i < k then i else i + 1]
  {
  }

  /** A bypassed page without links is off the list, and the rest is chained. */
  lemma CutList(all: set<PgHdr>, s: seq<PgHdr>, k: nat)
    requires k < |s| && BypassNext(s, k) && BypassPrev(s, k) && Distinct(s) && Loose(all, s)
    requires s[k].pDirtyNext == null && s[k].pDirtyPrev == null
    ensures Chained(Cut(s, k)) && Distinct(Cut(s, k)) && Loose(all, Cut(s, k))
    ensures |Cut(s, k)| == |s| - 1 && forall x :: x in Cut(s, k) ==> x in s
    ensures Nth(Cut(s, k), 0) == if k == 0 then Nth(s, 1) else Nth(s, 0)
    ensures Nth(Cut(s, k), |s| - 2) == if k == |s| - 1 then Nth(s, k - 1) else Nth(s, |s| - 1)
  {
  }

  /** Every page older than `synced`, or every page if there is none, needs a sync: the search for a
  page that does not may then start at `synced` and go towards newer ones. */
  ghost predicate HintExact(s: seq<PgHdr>, synced: PgHdr?)
    reads s`needSync
  {
    && (synced == null ==> forall x :: x in s ==> x.needSync)
    && (forall j, m :: 0 <= m < j < |s| && s[m] == synced ==> s[j].needSync)
  }

  /** pSynced after s[k] is removed, and after p is added. */
  ghost function SyncedWithout(s: seq<PgHdr>, k: nat, synced: PgHdr?): PgHdr?
    requires k < |s|
  {
    if synced == s[k] then Nth(s, k - 1) else synced
  }

  ghost function SyncedWith(p: PgHdr, synced: PgHdr?): PgHdr?
    reads p`needSync
  {
    if synced == null && !p.needSync then p else synced
  }

  lemma HintCut(s: seq<PgHdr>, k: nat, synced: PgHdr?)
    requires k < |s| && Distinct(s) && HintExact(s, synced) && (synced == null || synced in s)
    ensures HintExact(Cut(s, k), SyncedWithout(s, k, synced))
  {
  }

  lemma HintAdd(s: seq<PgHdr>, p: PgHdr, synced: PgHdr?)
    requires p !in s && HintExact(s, synced) && (synced == null || synced in s)
    ensures HintExact([p] + s, SyncedWith(p, synced))
  {
  }

  lemma HintFront(s: seq<PgHdr>, k: nat, synced: PgHdr?)
    requires k < |s| && Distinct(s) && HintExact(s, synced) && (synced == null || synced in s)
    ensures HintExact([s[k]] + Cut(s, k), SyncedWith(s[k], SyncedWithout(s, k, synced)))
  {
  }

  /** Newest first: along the list, each page was added later than the next. */
  ghost predicate Newest(s: seq<PgHdr>, at: map<PgHdr, nat>, clock: nat) {
    && (forall k :: 0 <= k < |s| ==> s[k] in at && at[s[k]] < clock)
    && (forall j, k :: 0 <= j < k < |s| ==> s[j] in at && s[k] in at && at[s[j]] > at[s[k]])
  }

  lemma NewestCut(s: seq<PgHdr>, k: nat, at: map<PgHdr, nat>, clock: nat)
    requires k < |s| && Newest(s, at, clock)
    ensures Newest(Cut(s, k), at, clock)
  {
  }

  lemma NewestAdd(s: seq<PgHdr>, p: PgHdr, at: map<PgHdr, nat>, clock: nat)
    requires p !in s && Newest(s, at, clock)
    ensures Newest([p] + s, at[p := clock], clock + 1)
  {
  }

  lemma HintAtTail(s: seq<PgHdr>, tail: PgHdr?)
    requires tail == null ==> s == []
    requires forall m :: 0 <= m < |s| && s[m] == tail ==> m == |s| - 1
    ensures HintExact(s, tail)
  {
  }

  /** A search that moved the hint from place `hint` back to place m keeps it exact iff every page it
  passed needs a sync; passing a referenced page that does not is what makes it inexact. */
  lemma HintAfterSearch(s: seq<PgHdr>, hint: int, m: int)
    requires Distinct(s) && -1 <= m <= hint < |s| && HintExact(s, Nth(s, hint))
    ensures HintExact(s, Nth(s, m)) <==> forall j :: m < j <= hint ==> s[j].needSync
  {
  }

  /** The oldest page of the list that needs no sync is referenced. */
  ghost predicate OldestFreeOfSyncIsBusy(s: seq<PgHdr>)
    reads s`needSync, s`nRef
  {
    exists j ::
      && 0 <= j < |s| && !s[j].needSync && s[j].nRef != 0
      && forall i :: j < i < |s| ==> s[i].needSync
  }

  lemma {:induction false} OldestFreeOfSync(s: seq<PgHdr>, j: nat) returns (k: nat)
    requires j < |s| && !s[j].needSync
    ensures j <= k < |s| && !s[k].needSync && forall i :: k < i < |s| ==> s[i].needSync
    decreases |s| - j
  {
    k := j;
    if i :| j < i < |s| && !s[i].needSync {
      k := OldestFreeOfSync(s, i);
    }
  }

  /** When the search for a page that is unreferenced and needs no sync starts at an exact hint and ends
  at place m, the place is exact iff the oldest page that needs no sync is unreferenced, or there is none. */
  lemma SearchKeepsExactIff(s: seq<PgHdr>, hint: int, m: int)
    requires Distinct(s) && -1 <= m <= hint < |s| && HintExact(s, Nth(s, hint))
    requires forall j :: m < j <= hint ==> s[j].nRef != 0 || s[j].needSync
    requires m >= 0 ==> s[m].nRef == 0 && !s[m].needSync
    ensures HintExact(s, Nth(s, m)) <==> !OldestFreeOfSyncIsBusy(s)
  {
    HintAfterSearch(s, hint, m);
    if j :| m < j <= hint && !s[j].needSync {
      var k := OldestFreeOfSync(s, j);
      assert hint >= 0 && s[hint] == Nth(s, hint);
      assert k <= hint;
    }
  }

  /** Removing a page that is the hint or needs a sync makes an inexact hint no better. */
  lemma HintCutBack(s: seq<PgHdr>, k: nat, synced: PgHdr?)
    requires k < |s| && Distinct(s) && (synced == null || synced in s) && (synced == s[k] || s[k].needSync)
    requires HintExact(Cut(s, k), SyncedWithout(s, k, synced))
    ensures HintExact(s, synced)
  {
    if synced == s[k] {
      HintCutBackHere(s, k);
    } else {
      HintCutBackElsewhere(s, k, synced);
    }
  }

  lemma HintCutBackHere(s: seq<PgHdr>, k: nat)
    requires k < |s| && Distinct(s) && HintExact(Cut(s, k), Nth(s, k - 1))
    ensures HintExact(s, s[k])
  {
    forall j | k < j < |s|
      ensures s[j].needSync
    {
      assert Cut(s, k)[j - 1] == s[j];
      if k > 0 {
        assert Cut(s, k)[k - 1] == s[k - 1];
      }
    }
  }

  lemma HintCutBackElsewhere(s: seq<PgHdr>, k: nat, synced: PgHdr?)
    requires k < |s| && Distinct(s) && synced != s[k] && s[k].needSync && HintExact(Cut(s, k), synced)
    ensures HintExact(s, synced)
  {
    forall j, m | 0 <= m < j < |s| && s[m] == synced && j != k
      ensures s[j].needSync
    {
      assert m != k;
      assert Cut(s, k)[if m < k then m else m - 1] == s[m];
      assert Cut(s, k)[if j < k then j else j - 1] == s[j];
    }
    if synced == null {
      CutDistinct(s, k);
    }
  }

  /** What xStress() did with the page it was offered. */
  datatype StressAnswer = Wrote | Busy | Failed

  datatype FetchResult = Ok | NoMem | StressError

  ghost predicate FlagsIn(all: set<PgHdr>, list: seq<PgHdr>)
    reads all`clean, all`isDirty, all`writeable
  {
    && (forall x :: x in all ==> x.isDirty != x.clean && (x.writeable ==> x.isDirty))
    && (forall x :: x in all && x.isDirty ==> x in list)
    && (forall x :: x in all && x in list ==> x.isDirty)
  }

  ghost predicate RefsIn(all: set<PgHdr>, refs: multiset<PgHdr>)
    reads all`nRef
  {
    && (forall x :: x in all ==> refs[x] == x.nRef)
    && (forall x :: x in refs ==> x in all)
  }

  ghost predicate PinsIn(all: set<PgHdr>, pinned: set<PgHdr>, purgeable: bool)
    reads all`clean, all`nRef
  {
    && pinned <= all
    && forall x :: x in all ==> (x in pinned <==> !(purgeable && x.clean && x.nRef == 0))
  }

  /** Page numbers are positive, and no two pages have the same. */
  ghost predicate NumbersIn(all: set<PgHdr>)
    reads all`pgno
  {
    && (forall x :: x in all ==> x.pgno > 0)
    && (forall x, y :: x in all && y in all && x.pgno == y.pgno ==> x == y)
  }

  lemma NumbersJoin(all: set<PgHdr>, p: PgHdr)
    requires NumbersIn(all) && p.pgno > 0 && forall x :: x in all ==> x.pgno != p.pgno
    ensures NumbersIn(all + {p})
  {
  }

  /** Pages that are off the list may leave. */
  lemma FlagsShrink(all: set<PgHdr>, s: seq<PgHdr>, gone: set<PgHdr>, t: seq<PgHdr>)
    requires FlagsIn(all, s)
    requires forall x :: x in t ==> x in s
    requires forall x :: x in s && x !in gone ==> x in t
    ensures FlagsIn(all - gone, t)
  {
  }

  lemma NumbersShrink(all: set<PgHdr>, gone: set<PgHdr>)
    requires NumbersIn(all)
    ensures NumbersIn(all - gone)
  {
  }

  lemma PinsShrink(all: set<PgHdr>, pinned: set<PgHdr>, purgeable: bool, gone: set<PgHdr>)
    requires PinsIn(all, pinned, purgeable)
    ensures PinsIn(all - gone, pinned - gone, purgeable)
  {
  }

  lemma RefsShrink(all: set<PgHdr>, refs: multiset<PgHdr>, gone: set<PgHdr>)
    requires RefsIn(all, refs) && gone <= all && forall x :: x in gone ==> x.nRef == 0
    ensures RefsIn(all - gone, refs)
  {
  }

  lemma RefsDrop(all: set<PgHdr>, refs: multiset<PgHdr>, p: PgHdr)
    requires RefsIn(all, refs) && p in all && p.nRef == 1
    ensures RefsIn(all - {p}, refs - multiset{p}) && |refs - multiset{p}| == |refs| - 1
  {
  }

  class PCache {
    var pDirty: PgHdr?
    var pDirtyTail: PgHdr?
    var pSynced: PgHdr?
    var nRefSum: int
    var szSpill: int
    var eCreate: int
    const bPurgeable: bool
    const szPage: nat

    /** The dirty list from head to tail. */
    ghost var dirty: seq<PgHdr>
    /** The pages in the cache. */
    ghost var pages: set<PgHdr>
    ghost var pinned: set<PgHdr>
    /** One element for every reference that a user of the cache holds. */
    ghost var refs: multiset<PgHdr>
    /** When each page was last put on the list. */
    ghost var addedAt: map<PgHdr, nat>
    ghost var clock: nat

    /** sqlite3PcacheOpen() */
    constructor (purgeable: bool, size: nat)
      ensures Valid() && pages == {} && dirty == [] && bPurgeable == purgeable && szPage == size
    {
      bPurgeable, szPage := purgeable, size;
      pDirty, pDirtyTail, pSynced := null, null, null;
      nRefSum, szSpill, eCreate := 0, 1, 2;
      dirty, pages, pinned, refs, addedAt, clock := [], {}, {}, multiset{}, map[], 0;
    }

    /** Head, tail and links describe the list `dirty`; no other page has a link. */
    ghost predicate ListOk()
      reads this`pDirty, this`pDirtyTail, this`dirty, this`pages, pages`pDirtyNext, pages`pDirtyPrev
    {
      && pDirty == Nth(dirty, 0) && pDirtyTail == Nth(dirty, |dirty| - 1)
      && (forall x :: x in dirty ==> x in pages)
      && Chained(dirty)
      && Distinct(dirty)
      && Loose(pages, dirty)
    }

    ghost predicate SyncedOk()
      reads this`pSynced, this`dirty
    {
      pSynced == null || pSynced in dirty
    }

    /** pSynced is exact: the search for a page that needs no sync misses none. */
    ghost predicate HintOk()
      reads this`pSynced, this`dirty, dirty`needSync
    {
      HintExact(dirty, pSynced)
    }

    ghost predicate CreateOk()
      reads this`eCreate, this`dirty
    {
      eCreate == if bPurgeable && dirty != [] then 1 else 2
    }

    ghost predicate TimeOk()
      reads this`dirty, this`addedAt, this`clock
    {
      Newest(dirty, addedAt, clock)
    }

    /** The page after p now follows p's predecessor. */
    method BypassBackward(p: PgHdr, ghost k: nat)
      requires Chained(dirty) && Distinct(dirty) && k < |dirty| && dirty[k] == p
      requires pDirtyTail == Nth(dirty, |dirty| - 1)
      modifies this`pDirtyTail, dirty`pDirtyPrev
      ensures BypassPrev(dirty, k) && p.pDirtyPrev == Nth(dirty, k - 1)
      ensures pDirtyTail == if k == |dirty| - 1 then Nth(dirty, k - 1) else old(pDirtyTail)
    {
      if p.pDirtyNext != null {
        p.pDirtyNext.pDirtyPrev := p.pDirtyPrev;
      } else {
        assert p == pDirtyTail;
        pDirtyTail := p.pDirtyPrev;
      }
    }

    /** The page before p is now followed by p's successor. */
    method BypassForward(p: PgHdr, ghost k: nat)
      requires Distinct(dirty) && k < |dirty| && dirty[k] == p && p.pDirtyPrev == Nth(dirty, k - 1)
      requires forall j {:trigger dirty[j].pDirtyNext} :: 0 <= j < |dirty| ==> dirty[j].pDirtyNext == Nth(dirty, j + 1)
      requires pDirty == Nth(dirty, 0)
      modifies this`pDirty, dirty`pDirtyNext
      ensures BypassNext(dirty, k)
      ensures pDirty == if k == 0 then Nth(dirty, 1) else old(pDirty)
    {
      if p.pDirtyPrev != null {
        p.pDirtyPrev.pDirtyNext := p.pDirtyNext;
      } else {
        assert p == pDirty;
        pDirty := p.pDirtyNext;
      }
    }

    /** The bypassed page keeps no links. */
    method ClearLinks(p: PgHdr, ghost k: nat)
      requires Distinct(dirty) && k < |dirty| && dirty[k] == p && BypassNext(dirty, k) && BypassPrev(dirty, k)
      modifies p`pDirtyNext, p`pDirtyPrev
      ensures BypassNext(dirty, k) && BypassPrev(dirty, k) && p.pDirtyNext == null && p.pDirtyPrev == null
    {
      p.pDirtyNext := null;
      p.pDirtyPrev := null;
    }

    /** pcacheManageDirtyList(p, PCACHE_DIRTYLIST_REMOVE): the links. */
    method Bypass(p: PgHdr, ghost k: nat)
      requires ListOk() && k < |dirty| && dirty[k] == p
      modifies this`pDirty, this`pDirtyTail, dirty`pDirtyNext, dirty`pDirtyPrev
      ensures BypassNext(dirty, k) && BypassPrev(dirty, k) && p.pDirtyNext == null && p.pDirtyPrev == null
      ensures pDirty == if k == 0 then Nth(dirty, 1) else old(pDirty)
      ensures pDirtyTail == if k == |dirty| - 1 then Nth(dirty, k - 1) else old(pDirtyTail)
    {
      hide Loose;
      assert p.pDirtyNext != null || p == pDirtyTail;
      assert p.pDirtyPrev != null || p == pDirty;
      BypassBackward(p, k);
      BypassForward(p, k);
      hide Chained, Distinct, BypassNext, BypassPrev, Nth;
      ClearLinks(p, k);
    }

    method Unchain(p: PgHdr, ghost k: nat)
      requires ListOk() && k < |dirty| && dirty[k] == p
      modifies this`pDirty, this`pDirtyTail, this`dirty, dirty`pDirtyNext, dirty`pDirtyPrev
      ensures ListOk() && dirty == Cut(old(dirty), k) && (pDirty == null <==> dirty == [])
    {
      hide Chained, Distinct, BypassNext, BypassPrev;
      Bypass(p, k);
      assert Loose(pages, dirty);
      CutList(pages, dirty, k);
      hide Cut, Loose;
      dirty := Cut(dirty, k);
    }

    /** pcacheManageDirtyList(p, PCACHE_DIRTYLIST_ADD): the links. */
    method Chain(p: PgHdr)
      requires ListOk() && p in pages && p !in dirty
      modifies this`pDirty, this`pDirtyTail, this`dirty, p`pDirtyNext, dirty`pDirtyPrev
      ensures ListOk() && dirty == [p] + old(dirty)
    {
      assert p.pDirtyNext == null && p.pDirtyPrev == null && pDirty != p;
      p.pDirtyNext := pDirty;
      if p.pDirtyNext != null {
        assert p.pDirtyNext.pDirtyPrev == null;
        p.pDirtyNext.pDirtyPrev := p;
      } else {
        pDirtyTail := p;
      }
      pDirty := p;
      dirty := [p] + dirty;
    }

    ghost predicate DirtyOk()
      reads this`pDirty, this`pDirtyTail, this`pSynced, this`eCreate, this`dirty, this`pages, this`addedAt, this`clock
      reads pages`pDirtyNext, pages`pDirtyPrev
    {
      ListOk() && SyncedOk() && CreateOk() && TimeOk()
    }

    lemma DirtyFacts()
      requires DirtyOk()
      ensures Distinct(dirty) && (pDirty == null <==> dirty == []) && forall x :: x in dirty ==> x in pages
      ensures pSynced == null || pSynced in dirty
    {
    }

    lemma ListFacts()
      requires ListOk()
      ensures Distinct(dirty) && (pDirty == null <==> dirty == []) && forall x :: x in dirty ==> x in pages
      ensures forall k :: 0 <= k < |dirty| ==> dirty[k].pDirtyPrev == Nth(dirty, k - 1)
    {
    }

    /** pcacheManageDirtyList(p, PCACHE_DIRTYLIST_REMOVE) */
    method RemoveFromDirtyList(p: PgHdr, ghost k: nat)
      requires DirtyOk() && k < |dirty| && dirty[k] == p
      modifies this`pDirty, this`pDirtyTail, this`pSynced, this`eCreate, this`dirty
      modifies dirty`pDirtyNext, dirty`pDirtyPrev
      ensures DirtyOk()
      ensures dirty == Cut(old(dirty), k)
      ensures pSynced == SyncedWithout(old(dirty), k, old(pSynced))
      ensures old(HintOk()) ==> HintOk()
    {
      hide ListOk, Distinct, Cut, Nth, Newest, HintExact;
      ListFacts();
      CutSynced(dirty, k);
      if HintOk() {
        HintCut(dirty, k, pSynced);
      }
      NewestCut(dirty, k, addedAt, clock);
      CutLength(dirty, k, 0);
      if pSynced == p {
        pSynced := p.pDirtyPrev;
      }
      Unchain(p, k);
      if pDirty == null {
        assert !bPurgeable || eCreate == 1;
        eCreate := 2;
      }
    }

    static lemma CutSynced(s: seq<PgHdr>, k: nat)
      requires k < |s| && Distinct(s)
      ensures Nth(s, k - 1) == null || Nth(s, k - 1) in Cut(s, k)
      ensures forall x :: x in Cut(s, k) ==> x in s && x != s[k]
      ensures forall x :: x in s && x != s[k] ==> x in Cut(s, k)
    {
    }

    /** pcacheManageDirtyList(p, PCACHE_DIRTYLIST_ADD) */
    method AddToDirtyList(p: PgHdr)
      requires DirtyOk() && p in pages && p !in dirty
      modifies this`pDirty, this`pDirtyTail, this`pSynced, this`eCreate, this`dirty, this`addedAt, this`clock
      modifies p`pDirtyNext, dirty`pDirtyPrev
      ensures DirtyOk()
      ensures dirty == [p] + old(dirty)
      ensures pSynced == SyncedWith(p, old(pSynced))
      ensures addedAt == old(addedAt)[p := old(clock)] && clock == old(clock) + 1
      ensures old(HintOk()) ==> HintOk()
    {
      hide ListOk, Distinct, Nth, Newest, HintExact;
      ListFacts();
      if HintOk() {
        HintAdd(dirty, p, pSynced);
      }
      NewestAdd(dirty, p, addedAt, clock);
      var first := pDirty == null;
      Chain(p);
      if first && bPurgeable {
        assert eCreate == 2;
        eCreate := 1;
      }
      if pSynced == null && !p.needSync {
        pSynced := p;
      }
      addedAt, clock := addedAt[p := clock], clock + 1;
    }

    /** A page is on the dirty list iff its DIRTY flag is set, and then CLEAN is not. */
    ghost predicate FlagsFor(list: seq<PgHdr>)
      reads this`pages, pages`clean, pages`isDirty, pages`writeable
    {
      FlagsIn(pages, list)
    }

    ghost predicate FlagsOk()
      reads this`pages, this`dirty, pages`clean, pages`isDirty, pages`writeable
    {
      FlagsFor(dirty)
    }

    lemma FlagsSame(s: seq<PgHdr>, t: seq<PgHdr>)
      requires FlagsFor(s)
      requires forall x :: x in s ==> x in t
      requires forall x :: x in t ==> x in s
      ensures FlagsFor(t)
    {
    }

    /** nRef and nRefSum count the references that are held. */
    ghost predicate RefsOk()
      reads this`pages, this`refs, this`nRefSum, pages`nRef
    {
      nRefSum == |refs| && RefsIn(pages, refs)
    }

    /** The pluggable cache may recycle a page of a purgeable cache iff it is clean and unreferenced. */
    ghost predicate PinsOk()
      reads this`pages, this`pinned, pages`clean, pages`nRef
    {
      PinsIn(pages, pinned, bPurgeable)
    }

    ghost predicate NumbersOk()
      reads this`pages, pages`pgno
    {
      NumbersIn(pages)
    }

    ghost predicate Valid()
      reads this, pages
    {
      DirtyOk() && FlagsOk() && RefsOk() && PinsOk() && NumbersOk()
    }

    /** Where p is on the list. */
    ghost function Place(p: PgHdr): (k: nat)
      requires p in dirty
      reads this`dirty
      ensures k < |dirty| && dirty[k] == p
    {
      var k :| 0 <= k < |dirty| && dirty[k] == p;
      k
    }

    /** pcacheUnpin() */
    method Unpin(p: PgHdr)
      requires PinsExcept(p) && p.clean && p.nRef == 0
      modifies this`pinned
      ensures PinsOk()
      ensures pinned == if bPurgeable then old(pinned) - {p} else old(pinned)
    {
      if bPurgeable {
        pinned := pinned - {p};
      }
    }

    /** pSynced after p is removed and added again. */
    ghost function SyncedFront(p: PgHdr): PgHdr?
      requires p in dirty
      reads this`dirty, this`pSynced, p`needSync
    {
      SyncedWith(p, SyncedWithout(dirty, Place(p), pSynced))
    }

    /** pcacheManageDirtyList(p, PCACHE_DIRTYLIST_FRONT) */
    method MoveToFront(p: PgHdr)
      requires DirtyOk() && p in dirty
      modifies this`pDirty, this`pDirtyTail, this`pSynced, this`eCreate, this`dirty, this`addedAt, this`clock
      modifies dirty`pDirtyNext, dirty`pDirtyPrev
      ensures DirtyOk()
      ensures dirty == [p] + Cut(old(dirty), old(Place(p)))
      ensures pSynced == old(SyncedFront(p))
      ensures addedAt == old(addedAt)[p := old(clock)] && clock == old(clock) + 1
      ensures old(HintOk()) ==> HintOk()
    {
      hide ListOk, SyncedOk, CreateOk, TimeOk, Distinct, Cut, SyncedWith, SyncedWithout, HintExact;
      ghost var k := Place(p);
      DirtyFacts();
      CutDistinct(dirty, k);
      ghost var was := dirty;
      RemoveFromDirtyList(p, k);
      forall j | 0 <= j < |dirty|
        ensures dirty[j] in was
      {
        assert dirty[j] in dirty;
      }
      AddToDirtyList(p);
    }

    /** The list after p is put at its front. */
    ghost function Fronted(p: PgHdr): seq<PgHdr>
      requires p in dirty
      reads this`dirty
    {
      [p] + Cut(dirty, Place(p))
    }

    lemma SameMembers(p: PgHdr)
      requires p in dirty && Distinct(dirty)
      ensures forall x :: x in Fronted(p) ==> x in dirty
      ensures forall x :: x in dirty ==> x in Fronted(p)
    {
    }

    /** A page without a predecessor is the first. */
    lemma HeadIsFront(p: PgHdr)
      requires DirtyOk() && p in dirty
      ensures p.pDirtyPrev == null <==> p == dirty[0]
      ensures p == dirty[0] ==> Place(p) == 0 && Fronted(p) == dirty
    {
      assert dirty[Place(p)].pDirtyPrev == Nth(dirty, Place(p) - 1);
    }

    /** Moving the first page to the front, which the code skips, leaves the list as it is.  It leaves
    pSynced as it is only unless that page needs no sync and pSynced is null, or needs a sync and is
    pSynced.  Either way an exact hint stays exact. */
    lemma SkippedFront(p: PgHdr)
      requires DirtyOk() && dirty != [] && p == dirty[0]
      ensures Fronted(p) == dirty
      ensures SyncedFront(p) == pSynced <==> !(pSynced == null && !p.needSync) && !(pSynced == p && p.needSync)
      ensures HintOk() ==> HintExact(Fronted(p), SyncedFront(p))
    {
      HeadIsFront(p);
      if HintOk() {
        HintFront(dirty, 0, pSynced);
      }
    }

    /** The move to the front is made only for a page that has a predecessor on the list. */
    method FrontUnlessHead(p: PgHdr)
      requires DirtyOk() && p in dirty
      modifies this`pDirty, this`pDirtyTail, this`pSynced, this`eCreate, this`dirty, this`addedAt, this`clock
      modifies dirty`pDirtyNext, dirty`pDirtyPrev
      ensures DirtyOk()
      ensures dirty == old(Fronted(p))
      ensures pSynced == if p == old(dirty[0]) then old(pSynced) else old(SyncedFront(p))
      ensures addedAt == if p == old(dirty[0]) then old(addedAt) else old(addedAt)[p := old(clock)]
      ensures clock == old(clock) + if p == old(dirty[0]) then 0 else 1
      ensures old(HintOk()) ==> HintOk()
      ensures forall x :: x in dirty ==> x in old(dirty)
      ensures forall x :: x in old(dirty) ==> x in dirty
    {
      hide DirtyOk, Distinct, Cut, Place, HintOk, SyncedWith, SyncedWithout, SyncedFront;
      DirtyFacts();
      SameMembers(p);
      HeadIsFront(p);
      if p.pDirtyPrev != null {
        MoveToFront(p);
      }
    }

    /** Every page but p is pinned as it should be, and p is pinned. */
    ghost predicate PinsExcept(p: PgHdr)
      reads this`pages, this`pinned, pages`clean, pages`nRef
    {
      && pinned <= pages && p in pinned
      && forall x :: x in pages && x != p ==> (x in pinned <==> !(bPurgeable && x.clean && x.nRef == 0))
    }

    lemma FlagsAt(p: PgHdr)
      requires FlagsOk() && p in pages
      ensures p.isDirty != p.clean && (p.isDirty <==> p in dirty)
    {
    }

    lemma PinsBack(p: PgHdr)
      requires PinsExcept(p) && !(bPurgeable && p.clean && p.nRef == 0)
      ensures PinsOk()
    {
    }

    method DropRef(p: PgHdr)
      requires RefsOk() && PinsOk() && p in pages && p.nRef > 0
      modifies this`nRefSum, this`refs, p`nRef
      ensures RefsOk() && PinsExcept(p)
      ensures refs == old(refs) - multiset{p} && p.nRef == old(p.nRef) - 1
    {
      assert p in refs;
      nRefSum := nRefSum - 1;
      p.nRef := p.nRef - 1;
      refs := refs - multiset{p};
    }

    /** FrontUnlessHead(), which leaves the flags as they should be. */
    method KeepDirty(p: PgHdr)
      requires DirtyOk() && FlagsOk() && p in dirty
      modifies this`pDirty, this`pDirtyTail, this`pSynced, this`eCreate, this`dirty, this`addedAt, this`clock
      modifies dirty`pDirtyNext, dirty`pDirtyPrev
      ensures DirtyOk() && FlagsOk()
      ensures dirty == old(Fronted(p))
      ensures pSynced == if p == old(dirty[0]) then old(pSynced) else old(SyncedFront(p))
      ensures addedAt == if p == old(dirty[0]) then old(addedAt) else old(addedAt)[p := old(clock)]
      ensures clock == old(clock) + if p == old(dirty[0]) then 0 else 1
      ensures old(HintOk()) ==> HintOk()
    {
      hide DirtyOk, Fronted, FlagsFor, HintOk, SyncedFront;
      FrontUnlessHead(p);
      FlagsSame(old(dirty), dirty);
    }

    /** A release of p moves it to the front: it is the last one, and the page is dirty and not first. */
    ghost predicate ReleaseFronts(p: PgHdr)
      reads p`nRef, p`isDirty, this`dirty
    {
      p.nRef == 1 && p.isDirty && dirty != [] && p != dirty[0]
    }

    /** sqlite3PcacheRelease() */
    method Release(p: PgHdr)
      requires Valid() && p in pages && p.nRef > 0
      modifies this`pDirty, this`pDirtyTail, this`pSynced, this`eCreate, this`dirty, this`addedAt, this`clock
      modifies this`nRefSum, this`refs, this`pinned, p`nRef, dirty`pDirtyNext, dirty`pDirtyPrev
      ensures Valid()
      ensures refs == old(refs) - multiset{p} && p.nRef == old(p.nRef) - 1
      ensures dirty == if p.nRef == 0 && p.isDirty then old(Fronted(p)) else old(dirty)
      ensures pSynced == if old(ReleaseFronts(p)) then old(SyncedFront(p)) else old(pSynced)
      ensures addedAt == if old(ReleaseFronts(p)) then old(addedAt)[p := old(clock)] else old(addedAt)
      ensures clock == old(clock) + if old(ReleaseFronts(p)) then 1 else 0
      ensures old(HintOk()) ==> HintOk()
      ensures pinned == if bPurgeable && p.nRef == 0 && p.clean then old(pinned) - {p} else old(pinned)
    {
      hide DirtyOk, RefsOk, PinsOk, NumbersOk, PinsExcept, Fronted, FlagsFor, HintOk, SyncedFront;
      FlagsAt(p);
      DropRef(p);
      if p.nRef == 0 {
        if p.clean {
          Unpin(p);
        } else {
          PinsBack(p);
          KeepDirty(p);
        }
      } else {
        PinsBack(p);
      }
    }

    method AddRef(p: PgHdr)
      requires RefsOk() && PinsExcept(p) && p in pages && p.nRef >= 0
      modifies this`nRefSum, this`refs, p`nRef
      ensures RefsOk() && PinsOk()
      ensures refs == old(refs) + multiset{p} && p.nRef == old(p.nRef) + 1
    {
      nRefSum := nRefSum + 1;
      p.nRef := p.nRef + 1;
      refs := refs + multiset{p};
    }

    /** sqlite3PcacheRef() */
    method Ref(p: PgHdr)
      requires Valid() && p in pages && p.nRef > 0
      modifies this`nRefSum, this`refs, p`nRef
      ensures Valid()
      ensures refs == old(refs) + multiset{p} && p.nRef == old(p.nRef) + 1
    {
      assert PinsExcept(p);
      hide DirtyOk, FlagsOk, RefsOk, PinsOk, NumbersOk, PinsExcept;
      AddRef(p);
    }

    /** The list is the same when pages off it leave. */
    lemma DirtyShrink(gone: set<PgHdr>)
      requires DirtyOk() && forall x :: x in gone ==> x !in dirty
      ensures Loose(pages - gone, dirty) && forall x :: x in dirty ==> x in pages - gone
    {
    }

    /** Pages off the list leave the cache: the list, the flags and the pins stay as they should be. */
    ghost method Shrink(gone: set<PgHdr>, was: seq<PgHdr>)
      requires DirtyOk() && PinsOk() && FlagsFor(was) && forall x :: x in gone ==> x !in dirty
      requires forall x :: x in dirty ==> x in was
      requires forall x :: x in was && x !in gone ==> x in dirty
      modifies this`pages, this`pinned
      ensures DirtyOk() && PinsOk() && FlagsOk()
      ensures pages == old(pages) - gone && pinned == old(pinned) - gone
    {
      hide SyncedOk, CreateOk, TimeOk, Chained, Distinct, Loose, FlagsIn, PinsIn, Nth;
      DirtyShrink(gone);
      FlagsShrink(pages, was, gone, dirty);
      PinsShrink(pages, pinned, bPurgeable, gone);
      pages := pages - gone;
      pinned := pinned - gone;
    }

    /** The last reference goes, and xUnpin() is told to discard: the page leaves the cache. */
    method Discard(p: PgHdr, ghost was: seq<PgHdr>)
      requires DirtyOk() && RefsOk() && PinsOk() && NumbersOk() && FlagsFor(was) && p in pages && p !in dirty
        && p.nRef == 1
      requires forall x :: x in dirty ==> x in was
      requires forall x :: x in was && x != p ==> x in dirty
      modifies this`pages, this`pinned, this`refs, this`nRefSum
      ensures Valid()
      ensures pages == old(pages) - {p} && pinned == old(pinned) - {p} && refs == old(refs) - multiset{p}
    {
      hide DirtyOk, PinsOk, FlagsFor, RefsIn, NumbersIn;
      NumbersShrink(pages, {p});
      RefsDrop(pages, refs, p);
      Shrink({p}, was);
      nRefSum := nRefSum - 1;
      refs := refs - multiset{p};
    }

    /** sqlite3PcacheDrop() */
    method Drop(p: PgHdr)
      requires Valid() && p in pages && p.nRef == 1
      modifies this`pDirty, this`pDirtyTail, this`pSynced, this`eCreate, this`dirty
      modifies this`nRefSum, this`refs, this`pinned, this`pages, dirty`pDirtyNext, dirty`pDirtyPrev
      ensures Valid()
      ensures pages == old(pages) - {p} && pinned == old(pinned) - {p} && refs == old(refs) - multiset{p}
      ensures dirty == if p.isDirty then Cut(old(dirty), old(Place(p))) else old(dirty)
      ensures pSynced == if p.isDirty then SyncedWithout(old(dirty), old(Place(p)), old(pSynced)) else old(pSynced)
      ensures old(HintOk()) ==> HintOk()
    {
      hide DirtyOk, RefsOk, PinsOk, NumbersOk, FlagsFor, Cut, HintOk, SyncedWithout, Place, Distinct;
      ghost var was := dirty;
      FlagsAt(p);
      DirtyFacts();
      if p.isDirty {
        ghost var k := Place(p);
        CutDistinct(dirty, k);
        RemoveFromDirtyList(p, k);
      }
      Discard(p, was);
    }

    /** A clean page turns dirty, ahead of its joining the list. */
    method FlipToDirty(p: PgHdr)
      requires FlagsOk() && PinsOk() && p in pages && p.clean && p.nRef > 0
      modifies p`isDirty, p`clean
      ensures FlagsFor([p] + dirty) && PinsOk() && p.isDirty && !p.clean
    {
      p.isDirty, p.clean := !p.isDirty, !p.clean;
    }

    /** sqlite3PcacheMakeDirty() */
    method MakeDirty(p: PgHdr)
      requires Valid() && p in pages && p.nRef > 0
      modifies this`pDirty, this`pDirtyTail, this`pSynced, this`eCreate, this`dirty, this`addedAt, this`clock
      modifies p`isDirty, p`clean, p`dontWrite, p`pDirtyNext, dirty`pDirtyPrev
      ensures Valid()
      ensures p.isDirty && !p.clean && !p.dontWrite
      ensures dirty == if old(p.clean) then [p] + old(dirty) else old(dirty)
      ensures pSynced == if old(p.clean) then SyncedWith(p, old(pSynced)) else old(pSynced)
      ensures addedAt == if old(p.clean) then old(addedAt)[p := old(clock)] else old(addedAt)
      ensures clock == old(clock) + if old(p.clean) then 1 else 0
      ensures old(HintOk()) ==> HintOk()
    {
      hide DirtyOk, RefsOk, PinsOk, NumbersOk, FlagsFor, SyncedWith, HintOk;
      FlagsAt(p);
      if p.clean || p.dontWrite {
        p.dontWrite := false;
        if p.clean {
          FlipToDirty(p);
          assert p.isDirty && !p.clean;
          AddToDirtyList(p);
        }
      }
    }

    /** A page that has left the list turns clean, loses the flags of a dirty one, and is unpinned if nobody
    references it. */
    method FlipToClean(p: PgHdr, ghost was: seq<PgHdr>)
      requires FlagsFor(was) && PinsOk() && p in pages && p !in dirty && p.isDirty
      requires forall x :: x in dirty ==> x in was
      requires forall x :: x in was && x != p ==> x in dirty
      modifies p`isDirty, p`clean, p`needSync, p`writeable, this`pinned
      ensures FlagsOk() && PinsOk() && p.clean && !p.isDirty && !p.needSync && !p.writeable
      ensures pinned == if bPurgeable && p.nRef == 0 then old(pinned) - {p} else old(pinned)
    {
      p.isDirty, p.needSync, p.writeable := false, false, false;
      p.clean := true;
      if p.nRef == 0 {
        Unpin(p);
      }
    }

    /** sqlite3PcacheMakeClean() */
    method MakeClean(p: PgHdr)
      requires Valid() && p in dirty
      modifies this`pDirty, this`pDirtyTail, this`pSynced, this`eCreate, this`dirty, this`pinned
      modifies p`isDirty, p`clean, p`needSync, p`writeable, dirty`pDirtyNext, dirty`pDirtyPrev
      ensures Valid()
      ensures p.clean && !p.isDirty && !p.needSync && !p.writeable
      ensures dirty == Cut(old(dirty), old(Place(p)))
      ensures pSynced == SyncedWithout(old(dirty), old(Place(p)), old(pSynced))
      ensures old(HintOk()) ==> HintOk()
      ensures pinned == if bPurgeable && p.nRef == 0 then old(pinned) - {p} else old(pinned)
    {
      hide DirtyOk, RefsOk, PinsOk, NumbersOk, FlagsFor, Cut, SyncedWithout, Distinct, Place;
      ghost var was := dirty;
      DirtyFacts();
      FlagsAt(p);
      ghost var k := Place(p);
      CutDistinct(dirty, k);
      RemoveFromDirtyList(p, k);
      assert p !in dirty;
      FlipToClean(p, was);
    }

    lemma EmptyList()
      requires Valid() && dirty == []
      ensures pSynced == null && eCreate == 2
      ensures forall x :: x in pages ==> x.clean && !x.isDirty
    {
    }

    /** sqlite3PcacheCleanAll() */
    method CleanAll()
      requires Valid()
      modifies this`pDirty, this`pDirtyTail, this`pSynced, this`eCreate, this`dirty, this`pinned
      modifies pages`isDirty, pages`clean, pages`needSync, pages`writeable, pages`pDirtyNext, pages`pDirtyPrev
      ensures Valid()
      ensures dirty == [] && pDirty == null && pSynced == null && eCreate == 2 && HintOk()
      ensures forall x :: x in pages ==> x.clean && !x.isDirty
    {
      hide DirtyOk, RefsOk, PinsOk, NumbersOk, FlagsFor, Cut, Distinct, Place, SyncedWithout;
      DirtyFacts();
      while pDirty != null
        invariant Valid() && Distinct(dirty) && (pDirty == null <==> dirty == [])
        invariant forall x :: x in dirty ==> x in pages
        decreases |dirty|
      {
        var p := pDirty;
        HeadOnList();
        CutLength(dirty, Place(p), 0);
        MakeClean(p);
        DirtyFacts();
      }
      EmptyList();
    }

    lemma HeadOnList()
      requires DirtyOk() && pDirty != null
      ensures pDirty in dirty
    {
    }

    /** The loop of sqlite3PcacheClearWritable(). */
    method ClearFlags()
      requires ListOk()
      modifies dirty`needSync, dirty`writeable
      ensures forall x :: x in dirty ==> !x.needSync && !x.writeable
      ensures old(FlagsOk()) ==> FlagsOk()
    {
      hide Loose;
      var p := pDirty;
      ghost var k := 0;
      while p != null
        invariant 0 <= k <= |dirty| && p == Nth(dirty, k)
        invariant forall j :: 0 <= j < k ==> !dirty[j].needSync && !dirty[j].writeable
        decreases |dirty| - k
      {
        p.needSync, p.writeable := false, false;
        p := p.pDirtyNext;
        k := k + 1;
      }
    }

    /** The loop of sqlite3PcacheClearSyncFlags(). */
    method ClearSync()
      requires ListOk()
      modifies dirty`needSync
      ensures forall x :: x in dirty ==> !x.needSync
    {
      hide Loose;
      var p := pDirty;
      ghost var k := 0;
      while p != null
        invariant 0 <= k <= |dirty| && p == Nth(dirty, k)
        invariant forall j :: 0 <= j < k ==> !dirty[j].needSync
        decreases |dirty| - k
      {
        p.needSync := false;
        p := p.pDirtyNext;
        k := k + 1;
      }
    }

    /** sqlite3PcacheClearSyncFlags() */
    method ClearSyncFlags()
      requires Valid()
      modifies this`pSynced, dirty`needSync
      ensures Valid()
      ensures forall x :: x in dirty ==> !x.needSync
      ensures pSynced == pDirtyTail && HintOk()
    {
      hide ListOk, CreateOk, TimeOk, RefsOk, PinsOk, NumbersOk, FlagsIn, HintExact;
      ClearSync();
      TailFacts();
      HintAtTail(dirty, pDirtyTail);
      pSynced := pDirtyTail;
    }

    lemma TailFacts()
      requires ListOk()
      ensures pDirtyTail == null || pDirtyTail in dirty
      ensures pDirtyTail == null ==> dirty == []
      ensures forall m :: 0 <= m < |dirty| && dirty[m] == pDirtyTail ==> m == |dirty| - 1
    {
    }

    /** sqlite3PcacheClearWritable() */
    method ClearWritable()
      requires Valid()
      modifies this`pSynced, dirty`needSync, dirty`writeable
      ensures Valid()
      ensures forall x :: x in dirty ==> !x.needSync && !x.writeable
      ensures pSynced == pDirtyTail && HintOk()
    {
      hide ListOk, CreateOk, TimeOk, RefsOk, PinsOk, NumbersOk, FlagsIn, HintExact;
      ClearFlags();
      TailFacts();
      HintAtTail(dirty, pDirtyTail);
      pSynced := pDirtyTail;
    }

    // ---------------------------------------------------------------- truncating

    /** The pages of the list that a truncation to n keeps. */
    static ghost function Kept(s: seq<PgHdr>, n: nat): seq<PgHdr>
      reads s`pgno
    {
      if s == [] then [] else (if s[0].pgno > n then [] else [s[0]]) + Kept(s[1..], n)
    }

    static lemma {:induction false} KeptMembers(s: seq<PgHdr>, n: nat)
      ensures |Kept(s, n)| <= |s|
      ensures forall x :: x in Kept(s, n) <==> x in s && x.pgno <= n
    {
      if s == [] {
      } else {
        KeptMembers(s[1..], n);
        assert s == [s[0]] + s[1..];
      }
    }

    /** The page at or newer than place m that a truncation to n keeps; null if there is none. */
    static ghost function SyncedKept(s: seq<PgHdr>, m: int, n: nat): PgHdr?
      requires m < |s|
      reads s`pgno
    {
      if m < 0 then null else if s[m].pgno <= n then s[m] else SyncedKept(s, m - 1, n)
    }

    /** The loop has dealt with `was` up to `rest`: it kept `kept`, and pSynced, which was at place hint,
    is now synced. */
    static ghost predicate Swept(was: seq<PgHdr>, kept: seq<PgHdr>, rest: seq<PgHdr>, n: nat, hint: int, synced: PgHdr?)
      requires hint < |was|
      reads was`pgno, rest`pgno
    {
      && |rest| <= |was| && rest == was[|was| - |rest|..] && hint >= -1
      && Kept(was, n) == kept + Kept(rest, n)
      && Nth(kept, |kept| - 1) == SyncedKept(was, |was| - |rest| - 1, n)
      && synced == if hint < |was| - |rest| then SyncedKept(was, hint, n) else was[hint]
    }

    static lemma SweptAtStart(was: seq<PgHdr>, n: nat, hint: int)
      requires -1 <= hint < |was|
      ensures Swept(was, [], was, n, hint, Nth(was, hint))
    {
      assert was[0..] == was;
    }

    static lemma SweptAtEnd(was: seq<PgHdr>, kept: seq<PgHdr>, rest: seq<PgHdr>, n: nat, hint: int, synced: PgHdr?)
      requires hint < |was| && rest == [] && Swept(was, kept, rest, n, hint, synced)
      ensures kept + rest == Kept(was, n) && synced == SyncedKept(was, hint, n)
    {
    }

    /** A page found at or before a place is not one after it. */
    static lemma {:induction false} KeptBefore(was: seq<PgHdr>, i: nat, n: nat, hint: int)
      requires Distinct(was) && hint < i < |was|
      ensures SyncedKept(was, hint, n) != was[i]
    {
      if hint < 0 || was[hint].pgno <= n {
      } else {
        KeptBefore(was, i, n, hint - 1);
      }
    }

    static lemma KeptHead(kept: seq<PgHdr>, rest: seq<PgHdr>, n: nat)
      requires rest != []
      ensures kept + rest == kept + [rest[0]] + rest[1..]
      ensures kept + Kept(rest, n) == (if rest[0].pgno > n then kept else kept + [rest[0]]) + Kept(rest[1..], n)
    {
      assert rest == [rest[0]] + rest[1..];
    }

    static lemma SweptOneMore(was: seq<PgHdr>, kept: seq<PgHdr>, rest: seq<PgHdr>, n: nat, hint: int, synced: PgHdr?)
      requires hint < |was| && Distinct(was) && rest != [] && Swept(was, kept, rest, n, hint, synced)
      ensures kept + rest == kept + [rest[0]] + rest[1..]
      ensures Swept(was, if rest[0].pgno > n then kept else kept + [rest[0]], rest[1..], n, hint,
        if rest[0].pgno > n && synced == rest[0] then Nth(kept, |kept| - 1) else synced)
    {
      hide Kept;
      KeptHead(kept, rest, n);
      var i := |was| - |rest|;
      assert rest[0] == was[i];
      assert rest[1..] == was[i + 1..];
      if hint < i {
        KeptBefore(was, i, n, hint);
      }
    }

    /** Removing the page after a prefix of a list. */
    static lemma CutAfter(s: seq<PgHdr>, t: seq<PgHdr>, p: PgHdr, k: nat)
      requires Distinct(s + [p] + t) && k < |s + [p] + t| && (s + [p] + t)[k] == p
      ensures k == |s| && Cut(s + [p] + t, k) == s + t
      ensures Nth(s + [p] + t, k - 1) == Nth(s, |s| - 1)
    {
      assert (s + [p] + t)[|s|] == p;
      assert k == |s|;
    }

    lemma HeadIs()
      requires DirtyOk()
      ensures pDirty == Nth(dirty, 0)
    {
    }

    /** One page of the loop: it becomes clean if it is past n. */
    method CleanOne(p: PgHdr, ghost kept: seq<PgHdr>, ghost rest: seq<PgHdr>, n: nat) returns (pNext: PgHdr?)
      requires Valid() && dirty == kept + [p] + rest
      modifies this`pDirty, this`pDirtyTail, this`pSynced, this`eCreate, this`dirty, this`pinned
      modifies p`isDirty, p`clean, p`needSync, p`writeable, dirty`pDirtyNext, dirty`pDirtyPrev
      ensures Valid()
      ensures dirty == if p.pgno > n then kept + rest else kept + [p] + rest
      ensures pSynced == if p.pgno > n && old(pSynced) == p then Nth(kept, |kept| - 1) else old(pSynced)
      ensures old(HintOk()) ==> HintOk()
      ensures pNext == Nth(rest, 0)
    {
      hide DirtyOk, RefsOk, PinsOk, NumbersOk, FlagsFor, Cut, Distinct, Place, HintOk;
      DirtyFacts();
      assert dirty == kept + ([p] + rest);
      assert p in dirty;
      NextOf(p, kept, rest);
      pNext := p.pDirtyNext;
      FlagsAt(p);
      if p.pgno > n {
        assert p.isDirty;
        CutAfter(kept, rest, p, Place(p));
        MakeClean(p);
      }
    }

    /** The loop of sqlite3PcacheTruncate(): pages past n become clean. */
    method CleanPast(n: nat)
      requires Valid()
      modifies this`pDirty, this`pDirtyTail, this`pSynced, this`eCreate, this`dirty, this`pinned
      modifies pages`isDirty, pages`clean, pages`needSync, pages`writeable, pages`pDirtyNext, pages`pDirtyPrev
      ensures Valid()
      ensures dirty == Kept(old(dirty), n)
      ensures pSynced == SyncedKept(old(dirty), old(HintPlace()), n)
      ensures old(HintOk()) ==> HintOk()
    {
      hide DirtyOk, FlagsOk, RefsOk, PinsOk, NumbersOk, Distinct, Kept, HintOk, Swept, SyncedKept;
      HeadIs();
      DirtyFacts();
      ghost var was, kept, rest, hint := dirty, [], dirty, HintPlace();
      SweptAtStart(was, n, hint);
      var p := pDirty;
      while p != null
        invariant Valid() && pages == old(pages) && (old(HintOk()) ==> HintOk())
        invariant forall x :: x in dirty ==> x in pages
        invariant dirty == kept + rest && p == Nth(rest, 0)
        invariant Swept(was, kept, rest, n, hint, pSynced)
        decreases |rest|
      {
        SweptOneMore(was, kept, rest, n, hint, pSynced);
        assert p in dirty;
        ghost var keeps := p.pgno <= n;
        p := CleanOne(p, kept, rest[1..], n);
        kept, rest := if keeps then kept + [rest[0]] else kept, rest[1..];
        DirtyFacts();
      }
      SweptAtEnd(was, kept, rest, n, hint, pSynced);
    }

    lemma NextOf(p: PgHdr, s: seq<PgHdr>, t: seq<PgHdr>)
      requires DirtyOk() && dirty == s + ([p] + t)
      ensures p.pDirtyNext == Nth(t, 0)
    {
      assert dirty[|s|] == p;
    }

    /** xTruncate(limit + 1), or the pluggable cache recycling: unreferenced clean pages leave. */
    ghost method Evict(gone: set<PgHdr>)
      requires Valid() && gone <= pages
      requires forall x :: x in gone ==> x.nRef == 0 && x !in dirty
      modifies this`pages, this`pinned
      ensures Valid()
      ensures pages == old(pages) - gone && pinned == old(pinned) - gone
    {
      hide DirtyOk, PinsOk, FlagsFor, RefsIn, NumbersIn;
      NumbersShrink(pages, gone);
      RefsShrink(pages, refs, gone);
      Shrink(gone, dirty);
    }

    /** If only page 1 may be referenced and some page is, then page 1 is in the cache. */
    lemma PageOne()
      requires RefsOk() && nRefSum != 0
      requires forall x :: x in pages && x.nRef > 0 ==> x.pgno == 1
      ensures exists x :: x in pages && x.pgno == 1
    {
    }

    /** A page of zeros. */
    function Zeros(): (z: seq<bv8>)
      ensures |z| == szPage && forall k :: 0 <= k < |z| ==> z[k] == 0
    {
      seq(szPage, _ => 0)
    }

    /** The part of sqlite3PcacheTruncate() about page 1: `page1` is what xFetch() answers for it. */
    method KeepPageOne(n: nat, page1: PgHdr?) returns (limit: nat)
      requires Valid()
      requires forall x :: x in pages && x.nRef > 0 && x.pgno > n ==> n == 0 && x.pgno == 1
      requires if page1 != null then page1 in pages && page1.pgno == 1 else forall x :: x in pages ==> x.pgno != 1
      modifies pages`data
      ensures limit == if n == 0 && nRefSum != 0 then 1 else n
      ensures forall x :: x in pages && x.pgno > limit ==> x.nRef == 0
      ensures n == 0 && nRefSum != 0 ==> exists x :: x in pages && x.pgno == 1
      ensures forall x :: x in pages ==>
        x.data == if n == 0 && nRefSum != 0 && x.pgno == 1 then Zeros() else old(x.data)
    {
      hide DirtyOk, FlagsOk, PinsOk, RefsIn, Zeros;
      PagePositive();
      RefsPositive();
      limit := n;
      if n == 0 && nRefSum != 0 {
        PageOne();
        assert page1 != null;
        page1.data := Zeros();
        limit := 1;
      }
    }

    lemma PagePositive()
      requires NumbersOk()
      ensures forall x :: x in pages ==> x.pgno > 0
    {
    }

    /** sqlite3PcacheTruncate(): callers hold no reference past n, except perhaps to page 1 when n is 0.
    `page1` is what xFetch() answers when it is asked for page 1. */
    method Truncate(n: nat, page1: PgHdr?) returns (limit: nat)
      requires Valid()
      requires forall x :: x in pages && x.nRef > 0 && x.pgno > n ==> n == 0 && x.pgno == 1
      requires if page1 != null then page1 in pages && page1.pgno == 1 else forall x :: x in pages ==> x.pgno != 1
      modifies this`pDirty, this`pDirtyTail, this`pSynced, this`eCreate, this`dirty, this`pinned, this`pages
      modifies pages`isDirty, pages`clean, pages`needSync, pages`writeable, pages`pDirtyNext, pages`pDirtyPrev
      modifies pages`data
      ensures Valid()
      ensures limit == if n == 0 && nRefSum != 0 then 1 else n
      ensures pages == set x | x in old(pages) && x.pgno <= limit
      ensures dirty == Kept(old(dirty), n)
      ensures pSynced == SyncedKept(old(dirty), old(HintPlace()), n)
      ensures forall x :: x in old(pages) ==>
        x.data == if n == 0 && nRefSum != 0 && x.pgno == 1 then Zeros() else old(x.data)
      ensures n == 0 && nRefSum != 0 ==> exists x :: x in pages && x.pgno == 1
      ensures old(HintOk()) ==> HintOk()
    {
      hide DirtyOk, FlagsOk, PinsOk, NumbersOk, RefsOk, Kept, SyncedKept, HintOk, Zeros, Place;
      CleanPast(n);
      KeptMembers(old(dirty), n);
      limit := KeepPageOne(n, page1);
      Evict(set x | x in pages && x.pgno > limit);
    }

    lemma RefsPositive()
      requires RefsOk()
      ensures forall x :: x in pages ==> x.nRef >= 0
      ensures nRefSum == 0 ==> forall x :: x in pages ==> x.nRef == 0
    {
    }

    // ---------------------------------------------------------------- fetching

    /** A page that the pluggable cache of a purgeable cache is free to recycle is clean, unreferenced
    and off the dirty list. */
    lemma RecyclableIsIdle(x: PgHdr)
      requires Valid() && x in pages && x !in pinned
      ensures bPurgeable && x.clean && x.nRef == 0 && x !in dirty
    {
    }

    /** Any choice of pages that the pluggable cache makes among the unpinned ones is safe. */
    ghost method Recycle(gone: set<PgHdr>)
      requires Valid() && gone <= pages - pinned
      modifies this`pages, this`pinned
      ensures Valid()
      ensures pages == old(pages) - gone && pinned == old(pinned)
    {
      forall x | x in gone
        ensures x.nRef == 0 && x !in dirty
      {
        RecyclableIsIdle(x);
      }
      hide DirtyOk, FlagsOk, RefsOk, PinsOk, NumbersOk;
      Evict(gone);
    }

    /** xRekey(): the page has its new number, and a page that had it is gone. */
    method Rekey(p: PgHdr, newPgno: nat)
      requires Valid() && p in pages && newPgno > 0
      requires forall x :: x in pages && x != p && x.pgno == newPgno ==> x !in pinned
      modifies this`pages, this`pinned, p`pgno
      ensures Valid()
      ensures p.pgno == newPgno && pinned == old(pinned)
      ensures pages == set x | x in old(pages) && (x == p || old(x.pgno) != newPgno)
    {
      hide DirtyOk, FlagsOk, RefsOk, PinsOk, NumbersIn;
      Recycle(set x | x in pages && x != p && x.pgno == newPgno);
      NumbersShrink(pages, {p});
      p.pgno := newPgno;
      NumbersJoin(pages - {p}, p);
      assert pages - {p} + {p} == pages;
    }

    /** sqlite3PcacheMove().  The pluggable cache is promised that a page with the new number, which
    xRekey() discards, is not pinned. */
    method Move(p: PgHdr, newPgno: nat)
      requires Valid() && p in pages && p.nRef > 0 && newPgno > 0
      requires forall x :: x in pages && x != p && x.pgno == newPgno ==> x !in pinned
      modifies this`pDirty, this`pDirtyTail, this`pSynced, this`eCreate, this`dirty, this`addedAt, this`clock
      modifies this`pages, this`pinned, p`pgno, dirty`pDirtyNext, dirty`pDirtyPrev
      ensures Valid()
      ensures p.pgno == newPgno && pinned == old(pinned)
      ensures pages == set x | x in old(pages) && (x == p || old(x.pgno) != newPgno)
      ensures dirty == if p.isDirty && p.needSync then old(Fronted(p)) else old(dirty)
      ensures pSynced == if p.isDirty && p.needSync then old(SyncedFront(p)) else old(pSynced)
      ensures addedAt == if p.isDirty && p.needSync then old(addedAt)[p := old(clock)] else old(addedAt)
      ensures clock == old(clock) + if p.isDirty && p.needSync then 1 else 0
      ensures old(HintOk()) ==> HintOk()
    {
      hide DirtyOk, RefsOk, PinsOk, NumbersOk, FlagsFor, Cut, Distinct, Place, SyncedFront, HintOk;
      Rekey(p, newPgno);
      DirtyFacts();
      FlagsAt(p);
      if p.isDirty && p.needSync {
        SameMembers(p);
        MoveToFront(p);
        FlagsSame(old(dirty), dirty);
      }
    }

    /** The header of a new page: no links, no references, clean. */
    static ghost predicate Blank(p: PgHdr)
      reads p
    {
      && p.pDirtyNext == null && p.pDirtyPrev == null
      && p.nRef == 0 && p.clean && !p.isDirty && !p.writeable && !p.needSync
    }

    lemma JoinDirty(all: set<PgHdr>, p: PgHdr)
      requires DirtyOk() && Blank(p) && p !in pages && all == pages + {p}
      ensures Loose(all, dirty) && p !in dirty
    {
    }

    /** A blank header becomes a page of the cache, pinned. */
    ghost method Join(p: PgHdr)
      requires DirtyOk() && FlagsOk() && RefsOk() && PinsOk() && Blank(p) && p !in pages
      modifies this`pages, this`pinned
      ensures DirtyOk() && FlagsOk() && RefsOk() && PinsExcept(p)
      ensures pages == old(pages) + {p} && pinned == old(pinned) + {p}
    {
      JoinDirty(pages + {p}, p);
      hide SyncedOk, CreateOk, TimeOk, Distinct, Chained, Loose;
      assert p !in refs;
      pages := pages + {p};
      pinned := pinned + {p};
    }

    static method Clear(p: PgHdr, pgno: nat)
      modifies p
      ensures p.pgno == pgno && Blank(p)
    {
      p.pDirty, p.pDirtyNext, p.pDirtyPrev := null, null, null;
      p.pgno, p.nRef := pgno, 0;
      p.clean, p.isDirty, p.writeable, p.needSync, p.dontWrite := true, false, false, false, false;
    }

    /** pcacheFetchFinishWithInit(), before it counts the reference. */
    method Init(p: PgHdr, pgno: nat)
      requires Valid() && p !in pages && pgno > 0 && forall x :: x in pages ==> x.pgno != pgno
      modifies p, this`pages, this`pinned
      ensures DirtyOk() && FlagsOk() && RefsOk() && PinsExcept(p) && NumbersOk()
      ensures p.pgno == pgno && Blank(p)
      ensures pages == old(pages) + {p} && pinned == old(pinned) + {p}
    {
      hide DirtyOk, FlagsOk, RefsOk, PinsOk, NumbersIn, PinsExcept, Blank;
      Clear(p, pgno);
      NumbersJoin(pages, p);
      Join(p);
    }

    /** xFetch() pins the page it finds. */
    ghost method PinAgain(p: PgHdr)
      requires PinsOk() && p in pages
      modifies this`pinned
      ensures PinsExcept(p) && pinned == old(pinned) + {p}
    {
      pinned := pinned + {p};
    }

    /** sqlite3PcacheFetchFinish() on what xFetch() returned: a page of the cache, now pinned, or a
    header without a page (pPage is null), perhaps that of a recycled page, if no page has that number; to
    make room, xFetch() may have recycled any unpinned pages. */
    method FetchFinish(p: PgHdr, pgno: nat, hasPage: bool, ghost gone: set<PgHdr>)
      requires Valid() && gone <= pages - pinned && pgno > 0
      requires hasPage <==> p in pages && p !in gone
      requires hasPage ==> p.pgno == pgno
      requires !hasPage ==> forall x :: x in pages && x !in gone ==> x.pgno != pgno
      modifies this`pages, this`pinned, this`refs, this`nRefSum, p
      ensures Valid()
      ensures pages == old(pages) - gone + {p} && refs == old(refs) + multiset{p}
      ensures p.pgno == pgno
      ensures hasPage ==> p.nRef == old(p.nRef) + 1 && p.isDirty == old(p.isDirty) && p.data == old(p.data)
      ensures !hasPage ==> p.nRef == 1 && p.clean
      ensures old(HintOk()) ==> HintOk()
    {
      hide DirtyOk, FlagsOk, RefsOk, PinsOk, NumbersOk, PinsExcept, HintExact;
      Recycle(gone);
      DirtyFacts();
      RefsPositive();
      if hasPage {
        PinAgain(p);
      } else {
        Init(p, pgno);
      }
      AddRef(p);
    }

    /** The sum of nRef over some pages. */
    static ghost function Total(ps: set<PgHdr>): int
      reads ps`nRef
    {
      if ps == {} then 0 else
        var x :| x in ps;
        x.nRef + Total(ps - {x})
    }

    static lemma {:induction false} TotalCounts(ps: set<PgHdr>, ms: multiset<PgHdr>)
      requires forall x :: x in ps ==> ms[x] == x.nRef
      requires forall x :: x in ms ==> x in ps
      ensures Total(ps) == |ms|
    {
      if ps == {} {
        assert ms == multiset{};
      } else {
        var x :| x in ps && Total(ps) == x.nRef + Total(ps - {x});
        TotalCounts(ps - {x}, ms[x := 0]);
        assert ms == ms[x := 0] + multiset{}[x := ms[x]];
      }
    }

    /** nRefSum is the sum of nRef over the pages in the cache. */
    lemma RefSumIsTotal()
      requires Valid()
      ensures nRefSum == Total(pages)
    {
      TotalCounts(pages, refs);
    }

    // ---------------------------------------------------------------- spilling

    /** Position of the hint on the list; -1 if there is none. */
    ghost function HintPlace(): (m: int)
      requires SyncedOk()
      reads this`pSynced, this`dirty
      ensures -1 <= m < |dirty| && pSynced == Nth(dirty, m)
    {
      if pSynced == null then -1 else Place(pSynced)
    }

    /** The first place from m towards newer pages whose page is unreferenced and needs no sync, or -1. */
    ghost function SearchFrom(m: int): int
      requires m < |dirty|
      reads this`dirty, dirty`nRef, dirty`needSync
    {
      if m < 0 then -1 else if dirty[m].nRef == 0 && !dirty[m].needSync then m else SearchFrom(m - 1)
    }

    /** pSynced after the search. */
    ghost function Searched(): PgHdr?
      requires SyncedOk()
      reads this`dirty, this`pSynced, dirty`nRef, dirty`needSync
    {
      Nth(dirty, SearchFrom(HintPlace()))
    }

    /** The first loop of sqlite3PcacheFetchStress(): from pSynced towards newer pages. */
    method FindSynced() returns (pPg: PgHdr?, ghost m: int)
      requires ListOk() && SyncedOk()
      ensures -1 <= m <= HintPlace() && pPg == Nth(dirty, m) && pPg == Searched()
      ensures pPg != null ==> pPg.nRef == 0 && !pPg.needSync
      ensures forall j :: m < j <= HintPlace() ==> dirty[j].nRef != 0 || dirty[j].needSync
    {
      hide Loose;
      pPg := pSynced;
      m := HintPlace();
      while pPg != null && (pPg.nRef != 0 || pPg.needSync)
        invariant -1 <= m <= HintPlace() && pPg == Nth(dirty, m)
        invariant SearchFrom(m) == SearchFrom(HintPlace())
        invariant forall j :: m < j <= HintPlace() ==> dirty[j].nRef != 0 || dirty[j].needSync
        decreases m + 1
      {
        pPg := pPg.pDirtyPrev;
        m := m - 1;
      }
    }

    /** The second loop: the oldest page without references. */
    method FindOldest() returns (pPg: PgHdr?, ghost m: int)
      requires ListOk()
      ensures -1 <= m < |dirty| && pPg == Nth(dirty, m)
      ensures pPg != null ==> pPg.nRef == 0
      ensures forall j :: m < j < |dirty| ==> dirty[j].nRef != 0
    {
      hide Loose;
      pPg := pDirtyTail;
      m := |dirty| - 1;
      while pPg != null && pPg.nRef != 0
        invariant -1 <= m < |dirty| && pPg == Nth(dirty, m)
        invariant forall j :: m < j < |dirty| ==> dirty[j].nRef != 0
        decreases m + 1
      {
        pPg := pPg.pDirtyPrev;
        m := m - 1;
      }
    }

    /** Which page sqlite3PcacheFetchStress() may spill: one that needs no sync, found at or newer than
    pSynced; failing that, the oldest unreferenced one. */
    ghost predicate Victim(x: PgHdr, hint: int)
      requires hint < |dirty|
      reads this`dirty, dirty`nRef, dirty`needSync
    {
      && x in dirty && x.nRef == 0
      && (x.needSync ==>
        && (forall j :: 0 <= j <= hint ==> dirty[j].nRef != 0 || dirty[j].needSync)
        && (forall j, m :: 0 <= m < j < |dirty| && dirty[m] == x ==> dirty[j].nRef != 0))
    }

    method ChooseVictim() returns (pPg: PgHdr?)
      requires Valid()
      modifies this`pSynced
      ensures Valid()
      ensures pPg != null ==> Victim(pPg, old(HintPlace()))
      ensures pPg == null ==> forall x :: x in dirty ==> x.nRef != 0
      ensures pSynced == old(Searched())
      ensures old(HintOk()) ==> (HintOk() <==> !OldestFreeOfSyncIsBusy(dirty))
      ensures old(HintOk()) && pPg != null ==> pPg == pSynced || pPg.needSync
      ensures pSynced != null ==> pPg == pSynced
    {
      hide CreateOk, TimeOk, FlagsOk, RefsOk, PinsOk, NumbersOk, Chained, Loose, HintExact, OldestFreeOfSyncIsBusy;
      ghost var m, n;
      pPg, m := FindSynced();
      assert pPg == null <==> m == -1;
      SearchedIsExactIff(m);
      pSynced := pPg;
      if pPg == null {
        pPg, n := FindOldest();
        if pPg != null {
          OnlyPlace(n);
        }
      }
    }

    /** What the first loop found tells whether pSynced, moved there, is still exact. */
    lemma SearchedIsExactIff(m: int)
      requires SyncedOk() && Distinct(dirty) && -1 <= m <= HintPlace()
      requires forall j :: m < j <= HintPlace() ==> dirty[j].nRef != 0 || dirty[j].needSync
      requires m >= 0 ==> dirty[m].nRef == 0 && !dirty[m].needSync
      ensures HintOk() ==> (HintExact(dirty, Nth(dirty, m)) <==> !OldestFreeOfSyncIsBusy(dirty))
      ensures HintOk() && m == -1 ==> forall y :: y in dirty ==> y.nRef != 0 || y.needSync
    {
      if HintOk() {
        SearchKeepsExactIff(dirty, HintPlace(), m);
        if m == -1 {
          NoneFreeOfSync(m);
        }
      }
    }

    /** A search from an exact pSynced that finds nothing means that every unreferenced page needs a
    sync. */
    lemma NoneFreeOfSync(m: int)
      requires SyncedOk() && HintOk() && m == -1
      requires forall j :: m < j <= HintPlace() ==> dirty[j].nRef != 0 || dirty[j].needSync
      ensures forall y :: y in dirty ==> y.nRef != 0 || y.needSync
    {
      forall j | 0 <= j < |dirty|
        ensures dirty[j].nRef != 0 || dirty[j].needSync
      {
        if j > HintPlace() {
          assert pSynced == null || dirty[HintPlace()] == pSynced;
        }
      }
    }

    lemma OnlyPlace(n: nat)
      requires Distinct(dirty) && n < |dirty|
      ensures forall m :: 0 <= m < |dirty| && dirty[m] == dirty[n] ==> m == n
    {
    }

    /** While the hint is exact, a page that needs a sync is offered only if every unreferenced page
    does. */
    lemma ExactHintIsOptimal(x: PgHdr)
      requires SyncedOk() && HintExact(dirty, pSynced) && Victim(x, HintPlace()) && x.needSync
      ensures forall y :: y in dirty ==> y.nRef != 0 || y.needSync
    {
    }

    lemma VictimFacts(x: PgHdr, hint: int)
      requires Valid() && hint < |dirty| && Victim(x, hint)
      ensures x in dirty && x.isDirty && x.nRef == 0
    {
    }

    lemma OnlyPurgeable()
      requires DirtyOk() && eCreate != 2
      ensures bPurgeable
    {
    }

    /** pSynced after xStress() was offered p. */
    ghost function StressHint(p: PgHdr, answer: StressAnswer, hint: PgHdr?): PgHdr?
      requires p in dirty
      reads this`dirty
    {
      if answer == Wrote then SyncedWithout(dirty, Place(p), hint) else hint
    }

    /** MakeClean() on a page that is the hint or needs a sync: an inexact hint does not become exact. */
    method Spill(p: PgHdr)
      requires Valid() && p in dirty
      modifies this`pDirty, this`pDirtyTail, this`pSynced, this`eCreate, this`dirty, this`pinned
      modifies p`isDirty, p`clean, p`needSync, p`writeable, dirty`pDirtyNext, dirty`pDirtyPrev
      ensures Valid()
      ensures p.clean && !p.needSync && dirty == Cut(old(dirty), old(Place(p)))
      ensures pSynced == old(StressHint(p, Wrote, pSynced))
      ensures old(HintOk()) ==> HintOk()
      ensures old(pSynced == p || p.needSync) && HintOk() ==> old(HintOk())
      ensures pinned == if bPurgeable && p.nRef == 0 then old(pinned) - {p} else old(pinned)
    {
      hide DirtyOk, FlagsOk, RefsOk, PinsOk, NumbersOk, HintExact, Cut, Place, Distinct, SyncedWithout;
      DirtyFacts();
      ghost var k := Place(p);
      CutDistinct(dirty, k);
      if (pSynced == p || p.needSync) && HintExact(Cut(dirty, k), SyncedWithout(dirty, k, pSynced)) {
        HintCutBack(dirty, k, pSynced);
      }
      MakeClean(p);
    }

    /** What xStress() does to the cache when it is offered p: perhaps it syncs the journal, which no
    dirty page then needs any more, and perhaps it writes the page, which is then clean. */
    method Stress(p: PgHdr, answer: StressAnswer, synced: bool)
      requires Valid() && p in dirty
      modifies this`pDirty, this`pDirtyTail, this`pSynced, this`eCreate, this`dirty, this`pinned
      modifies p`isDirty, p`clean, p`writeable, dirty`needSync, dirty`pDirtyNext, dirty`pDirtyPrev
      ensures Valid()
      ensures dirty == if answer == Wrote then Cut(old(dirty), old(Place(p))) else old(dirty)
      ensures pSynced == old(StressHint(p, answer, if synced then pDirtyTail else pSynced))
      ensures forall x :: x in old(dirty) ==> x.needSync == (!synced && (x != p || answer != Wrote) && old(x.needSync))
      ensures synced || old(HintOk()) ==> HintOk()
      ensures !synced && old(pSynced == p || p.needSync) && HintOk() ==> old(HintOk())
      ensures pinned == if answer == Wrote && bPurgeable && p.nRef == 0 then old(pinned) - {p} else old(pinned)
    {
      hide DirtyOk, FlagsOk, RefsOk, PinsOk, NumbersOk, HintOk, Cut, Place, SyncedWithout;
      if synced {
        ClearSyncFlags();
      }
      if answer == Wrote {
        Spill(p);
      }
    }

    /** sqlite3PcacheFetchStress().  `answer` and `synced` are what xStress() does if it is called: write
    the page and make it clean, or leave it, and sync the journal or not.  `got` is what the last xFetch()
    answers; to make room it recycles those pages of `wish` that are unpinned. */
    method FetchStress(pagecount: int, answer: StressAnswer, synced: bool, got: bool, ghost wish: set<PgHdr>)
      returns (rc: FetchResult, offered: PgHdr?, ghost gone: set<PgHdr>)
      requires Valid()
      modifies this`pDirty, this`pDirtyTail, this`pSynced, this`eCreate, this`dirty, this`pinned, this`pages
      modifies dirty`isDirty, dirty`clean, dirty`needSync, dirty`writeable, dirty`pDirtyNext, dirty`pDirtyPrev
      ensures Valid()
      ensures offered != null ==> offered in old(dirty) && old(offered.isDirty && Victim(offered, HintPlace()))
      ensures offered == null <==>
              old(eCreate) == 2 || pagecount <= szSpill || forall x :: x in old(dirty) ==> x.nRef != 0
      ensures dirty == if offered != null && answer == Wrote then Cut(old(dirty), old(Place(offered))) else old(dirty)
      ensures pSynced ==
        if old(eCreate) == 2 || pagecount <= szSpill then old(pSynced)
        else if offered == null then old(Searched())
        else old(StressHint(offered, answer, if synced then pDirtyTail else Searched()))
      ensures old(HintOk()) ==> (HintOk() <==>
        || old(eCreate) == 2 || pagecount <= szSpill
        || (offered != null && synced)
        || !old(OldestFreeOfSyncIsBusy(dirty)))
      ensures offered != null && synced ==> HintOk()
      ensures offered != null && answer == Failed <==> rc == StressError
      ensures pinned == if offered != null && answer == Wrote then old(pinned) - {offered} else old(pinned)
      ensures pages == old(pages) - gone
      ensures gone == if old(eCreate) == 2 || rc == StressError then {} else wish * (old(pages) - pinned)
    {
      hide DirtyOk, FlagsOk, RefsOk, PinsOk, NumbersOk, Victim, Cut, Place, SyncedWithout, HintOk;
      hide Searched, OldestFreeOfSyncIsBusy;
      offered, gone := null, {};
      rc := Ok;
      if eCreate == 2 {
        return;
      }
      OnlyPurgeable();
      if pagecount > szSpill {
        offered := ChooseVictim();
        if offered != null {
          VictimFacts(offered, old(HintPlace()));
          Stress(offered, answer, synced);
          if answer == Failed {
            rc := StressError;
            return;
          }
        }
      }
      gone := wish * (pages - pinned);
      Recycle(gone);
      rc := if got then Ok else NoMem;
    }
  }
}
