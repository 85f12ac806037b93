/** The process-wide list of unixInodeInfo records: findInodeInfo() and releaseInodeInfo(). */
module InodeList {
  import opened Lists


  type Cid = nat

  /** struct unixFileId. */
  datatype FileId = FileId(dev: nat, ino: nat)

  datatype Rc = Ok | NoMem

  class InodeInfo {
    const fileId: FileId
    var nRef: int
    var pNext: InodeInfo?
    var pPrev: InodeInfo?

    constructor (id: FileId)
      ensures fileId == id && nRef == 0 && pNext == null && pPrev == null
    {
      fileId := id;
      nRef, pNext, pPrev := 0, null, null;
    }
  }

  ghost function Nth(s: seq<InodeInfo>, k: int): InodeInfo? {
    if 0 <= k < |s| then s[k] else null
  }

  ghost predicate Chained(s: seq<InodeInfo>)
    reads s`pNext, s`pPrev
  {
    && (forall k {:trigger s[k].pNext} :: 0 <= k < |s| ==> s[k].pNext == Nth(s, k + 1))
    && (forall k {:trigger s[k].pPrev} :: 0 <= k < |s| ==> s[k].pPrev == Nth(s, k - 1))
  }

  /** One record for each file. */
  ghost predicate OnePerFile(s: seq<InodeInfo>) {
    forall j, k :: 0 <= j < k < |s| ==> s[j] != s[k] && s[j].fileId != s[k].fileId
  }

  /** The links once s[k] is bypassed. */
  ghost predicate Bypassed(s: seq<InodeInfo>, k: nat)
    reads s`pNext, s`pPrev
  {
    && (forall j {:trigger s[j].pNext} :: 0 <= j < |s| && j != k ==>
      s[j].pNext == if j == k - 1 then Nth(s, k + 1) else Nth(s, j + 1))
    && (forall j {:trigger s[j].pPrev} :: 0 <= j < |s| && j != k ==>
      s[j].pPrev == if j == k + 1 then Nth(s, k - 1) else Nth(s, j - 1))
  }

  lemma CutNth(s: seq<InodeInfo>, k: nat, i: int)
    requires k < |s|
    ensures Nth(Cut(s, k), i) == if i < k then Nth(s, i) else Nth(s, i + 1)
    ensures |Cut(s, k)| == |s| - 1
    ensures 0 <= i < |s| - 1 ==> Cut(s, k)[i] == s[if i < k then i else i + 1]
  {
  }

  lemma CutChained(s: seq<InodeInfo>, k: nat)
    requires k < |s| && Bypassed(s, k)
    ensures Chained(Cut(s, k))
  {
  }

  lemma CutMembers(s: seq<InodeInfo>, k: nat)
    requires k < |s| && OnePerFile(s)
    ensures OnePerFile(Cut(s, k))
    ensures forall x :: x in Cut(s, k) ==> x in s && x != s[k]
    ensures forall x :: x in s && x != s[k] ==> x in Cut(s, k)
  {
  }

  class Inodes {
    var inodeList: InodeInfo?
    ghost var list: seq<InodeInfo>
    /** The record that each open connection uses. */
    var users: map<Cid, InodeInfo>

    ghost function UsersOf(x: InodeInfo): set<Cid>
      reads this`users
    {
      set c | c in users && users[c] == x
    }

    ghost predicate ListOk()
      reads this`inodeList, this`list, list`pNext, list`pPrev
    {
      inodeList == Nth(list, 0) && Chained(list) && OnePerFile(list)
    }

    /** nRef counts the connections that use a record; a record nobody uses is not on the list. */
    ghost predicate CountsOk()
      reads this`list, this`users, list`nRef
    {
      && (forall x :: x in list ==> x.nRef == |UsersOf(x)| && x.nRef > 0)
      && (forall c :: c in users ==> users[c] in list)
    }

    ghost predicate Valid()
      reads this, list
    {
      ListOk() && CountsOk()
    }

    constructor ()
      ensures Valid() && list == [] && users == map[]
    {
      inodeList, list, users := null, [], map[];
    }

    /** The search of findInodeInfo(). */
    method Search(id: FileId) returns (found: InodeInfo?)
      requires ListOk()
      ensures found != null ==> found in list && found.fileId == id
      ensures found == null ==> forall x :: x in list ==> x.fileId != id
    {
      found := inodeList;
      ghost var k := 0;
      while found != null && found.fileId != id
        invariant 0 <= k <= |list| && found == Nth(list, k)
        invariant forall j :: 0 <= j < k ==> list[j].fileId != id
        decreases |list| - k
      {
        found := found.pNext;
        k := k + 1;
      }
    }

    /** A new record becomes the first of the list, and the former first its successor. */
    method PushFront(p: InodeInfo)
      requires ListOk() && p !in list && p.pPrev == null && forall x :: x in list ==> x.fileId != p.fileId
      modifies this`inodeList, this`list, p`pNext, list`pPrev
      ensures ListOk() && list == [p] + old(list)
    {
      p.pNext := inodeList;
      if inodeList != null {
        inodeList.pPrev := p;
      }
      inodeList := p;
      list := [p] + list;
    }

    /** The last lines of findInodeInfo(): one user more, and the record is handed out. */
    method Join(c: Cid, p: InodeInfo)
      requires c !in users && p in list
      requires forall x :: x in list && x != p ==> x.nRef == |UsersOf(x)| && x.nRef > 0
      requires p.nRef == |UsersOf(p)| + 1 && forall d :: d in users ==> users[d] in list
      modifies this`users
      ensures CountsOk() && users == old(users)[c := p]
    {
      users := users[c := p];
      assert UsersOf(p) == old(UsersOf(p)) + {c};
      forall x | x in list && x != p
        ensures UsersOf(x) == old(UsersOf(x))
      {
      }
    }

    /** findInodeInfo(): the record of the file, made if there is none and memory for it. */
    method FindInodeInfo(c: Cid, id: FileId, outOfMemory: bool) returns (rc: Rc, p: InodeInfo?)
      requires Valid() && c !in users
      modifies this, list
      ensures Valid()
      ensures rc == NoMem <==> outOfMemory && forall x :: x in old(list) ==> x.fileId != id
      ensures rc == NoMem ==> list == old(list) && users == old(users)
      ensures rc == Ok ==> p != null && p.fileId == id && users == old(users)[c := p]
      ensures rc == Ok ==> (if p in old(list) then list == old(list) else list == [p] + old(list))
    {
      p := Search(id);
      rc := Ok;
      hide ListOk;
      if p == null {
        if outOfMemory {
          return NoMem, null;
        }
        p := new InodeInfo(id);
        p.nRef := 1;
        assert UsersOf(p) == {};
        PushFront(p);
      } else {
        p.nRef := p.nRef + 1;
      }
      Join(c, p);
    }

    /** The relinking in releaseInodeInfo(). */
    method Unlink(p: InodeInfo, ghost k: nat)
      requires ListOk() && k < |list| && list[k] == p
      modifies this`inodeList, list`pNext, list`pPrev
      ensures Bypassed(list, k)
      ensures inodeList == if k == 0 then Nth(list, 1) else old(inodeList)
    {
      if p.pPrev != null {
        assert p.pPrev.pNext == p;
        p.pPrev.pNext := p.pNext;
      } else {
        assert inodeList == p;
        inodeList := p.pNext;
      }
      if p.pNext != null {
        assert p.pNext.pPrev == p;
        p.pNext.pPrev := p.pPrev;
      }
    }

    method Remove(p: InodeInfo, ghost k: nat)
      requires ListOk() && k < |list| && list[k] == p
      modifies this`inodeList, this`list, list`pNext, list`pPrev
      ensures ListOk() && list == Cut(old(list), k)
    {
      assert OnePerFile(list);
      hide OnePerFile, Chained, Cut;
      Unlink(p, k);
      CutChained(list, k);
      CutMembers(list, k);
      CutNth(list, k, 0);
      hide Bypassed;
      list := Cut(list, k);
    }

    lemma OnlyUser(c: Cid)
      requires c in users && |UsersOf(users[c])| == 1
      ensures forall d :: d in users && users[d] == users[c] ==> d == c
    {
      var s := UsersOf(users[c]);
      assert c in s;
      assert |s - {c}| == 0;
      forall d | d in users && users[d] == users[c]
        ensures d == c
      {
        assert d in s;
        assert d !in s - {c};
      }
    }

    /** A record is on the list exactly while some open connection uses it. */
    lemma ListedIffUsed(x: InodeInfo)
      requires Valid()
      ensures x in list <==> exists c :: c in users && users[c] == x
    {
    }

    /** The connection forgets its record. */
    method Leave(c: Cid)
      requires c in users
      requires forall x :: x in list ==> x.nRef > 0 && x.nRef == |UsersOf(x)| - if x == users[c] then 1 else 0
      requires forall d :: d in users && d != c ==> users[d] in list
      modifies this`users
      ensures CountsOk() && users == old(users) - {c}
    {
      users := users - {c};
      forall x | x in list
        ensures UsersOf(x) == old(UsersOf(x)) - if x == old(users[c]) then {c} else {}
      {
      }
    }

    /** releaseInodeInfo(): the record is unlinked and freed exactly when its last user leaves. */
    method ReleaseInodeInfo(c: Cid) returns (freed: bool)
      requires Valid() && c in users
      modifies this, list
      ensures Valid() && users == old(users) - {c}
      ensures freed <==> old(|UsersOf(users[c])| == 1)
      ensures freed ==> exists k :: 0 <= k < |old(list)| && old(list)[k] == old(users[c]) && list == Cut(old(list), k)
      ensures !freed ==> list == old(list)
    {
      var p := users[c];
      p.nRef := p.nRef - 1;
      freed := p.nRef == 0;
      assert ListOk();
      hide ListOk, Cut;
      if freed {
        OnlyUser(c);
        ghost var k :| 0 <= k < |list| && list[k] == p;
        CutWithout(list, k);
        Remove(p, k);
      }
      Leave(c);
    }

    lemma CutWithout(s: seq<InodeInfo>, k: nat)
      requires k < |s| && s == list && ListOk()
      ensures forall x :: x in Cut(s, k) ==> x in s && x != s[k]
      ensures forall x :: x in s && x != s[k] ==> x in Cut(s, k)
    {
    }
  }
}
