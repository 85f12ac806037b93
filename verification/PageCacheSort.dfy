/** The merge sort of dirty pages: in-place lists linked by pDirty, held in 32 buckets. */
module PageCacheSort {
  import opened Lists
  import opened PageCache

  /** head begins a null-terminated list of exactly the pages s, linked by pDirty. */
  ghost predicate Linked(head: PgHdr?, s: seq<PgHdr>)
    reads s`pDirty
  {
    && head == Nth(s, 0)
    && forall k {:trigger s[k].pDirty} :: 0 <= k < |s| ==> s[k].pDirty == Nth(s, k + 1)
  }

  ghost predicate Ascending(s: seq<PgHdr>)
    reads s`pgno
  {
    forall j, k :: 0 <= j < k < |s| ==> s[j].pgno < s[k].pgno
  }

  /** No page number occurs in both lists. */
  ghost predicate Unlike(s: seq<PgHdr>, t: seq<PgHdr>)
    reads s`pgno, t`pgno
  {
    forall x, y :: x in s && y in t ==> x.pgno != y.pgno
  }

  /** What pcacheMergeDirtyList() makes of two lists. */
  ghost function Merged(s: seq<PgHdr>, t: seq<PgHdr>): seq<PgHdr>
    reads s`pgno, t`pgno
    decreases |s| + |t|
  {
    if s == [] then t
    else if t == [] then s
    else if s[0].pgno < t[0].pgno then [s[0]] + Merged(s[1..], t)
    else [t[0]] + Merged(s, t[1..])
  }

  lemma {:induction false} MergedPages(s: seq<PgHdr>, t: seq<PgHdr>)
    ensures multiset(Merged(s, t)) == multiset(s) + multiset(t)
    ensures |Merged(s, t)| == |s| + |t|
    decreases |s| + |t|
  {
    if s == [] || t == [] {
    } else if s[0].pgno < t[0].pgno {
      MergedPages(s[1..], t);
      assert s == [s[0]] + s[1..];
    } else {
      MergedPages(s, t[1..]);
      assert t == [t[0]] + t[1..];
    }
  }

  /** A first page below all others. */
  lemma PutFirst(x: PgHdr, s: seq<PgHdr>)
    requires Ascending(s) && forall y :: y in s ==> x.pgno < y.pgno
    ensures Ascending([x] + s)
  {
  }

  lemma BelowRest(x: PgHdr, s: seq<PgHdr>)
    requires Ascending(s) && s != [] && x.pgno < s[0].pgno
    ensures forall y :: y in s ==> x.pgno < y.pgno
  {
  }

  lemma RestAscending(s: seq<PgHdr>)
    requires Ascending(s) && s != []
    ensures Ascending(s[1..]) && forall y :: y in s[1..] ==> s[0].pgno < y.pgno
    ensures forall y :: y in s[1..] ==> y in s
  {
  }

  lemma BelowMerged(x: PgHdr, s: seq<PgHdr>, t: seq<PgHdr>)
    requires forall y :: y in s ==> x.pgno < y.pgno
    requires forall y :: y in t ==> x.pgno < y.pgno
    ensures forall y :: y in Merged(s, t) ==> x.pgno < y.pgno
  {
  }

  lemma {:induction false} MergedAscending(s: seq<PgHdr>, t: seq<PgHdr>)
    requires Ascending(s) && Ascending(t) && Unlike(s, t)
    ensures Ascending(Merged(s, t))
    decreases |s| + |t|
  {
    hide Ascending;
    if s == [] || t == [] {
    } else {
      RestAscending(s);
      RestAscending(t);
      assert s[0] in s && t[0] in t;
      if s[0].pgno < t[0].pgno {
        MergedAscending(s[1..], t);
        BelowRest(s[0], t);
        BelowMerged(s[0], s[1..], t);
        PutFirst(s[0], Merged(s[1..], t));
      } else {
        MergedAscending(s, t[1..]);
        BelowRest(t[0], s);
        BelowMerged(t[0], s, t[1..]);
        PutFirst(t[0], Merged(s, t[1..]));
      }
    }
  }

  /** The part of the result already linked: the last page's link is still to be set. */
  ghost predicate Started(head: PgHdr?, tail: PgHdr?, s: seq<PgHdr>)
    reads s`pDirty
  {
    && head == Nth(s, 0) && tail == Nth(s, |s| - 1)
    && forall k {:trigger s[k].pDirty} :: 0 <= k < |s| - 1 ==> s[k].pDirty == s[k + 1]
  }

  lemma LinkedRest(p: PgHdr, s: seq<PgHdr>)
    requires s != [] && Linked(p, s)
    ensures p == s[0] && Linked(p.pDirty, s[1..])
  {
  }

  lemma LinkedAll(head: PgHdr?, tail: PgHdr, s: seq<PgHdr>, rest: seq<PgHdr>)
    requires Started(head, tail, s) && s != [] && Linked(tail.pDirty, rest)
    ensures Linked(head, s + rest)
  {
  }

  /** x is linked behind the tail and becomes the tail.  A null tail stands for the dummy header in front of
  the first page. */
  method Append(head: PgHdr?, tail: PgHdr?, x: PgHdr, ghost s: seq<PgHdr>) returns (newHead: PgHdr)
    requires Started(head, tail, s) && Distinct(s) && x !in s
    modifies (if tail == null then {} else {tail})`pDirty
    ensures Started(newHead, x, s + [x])
  {
    if tail == null {
      newHead := x;
    } else {
      tail.pDirty := x;
      newHead := head;
    }
  }

  ghost predicate Disjoint(s: seq<PgHdr>, t: seq<PgHdr>) {
    forall x :: x in s ==> x !in t
  }

  /** The pages linked so far and the two remaining lists share nothing. */
  ghost predicate Apart(d: seq<PgHdr>, u: seq<PgHdr>, v: seq<PgHdr>) {
    && Distinct(d) && Distinct(u) && Distinct(v)
    && Disjoint(d, u) && Disjoint(d, v) && Disjoint(u, v)
  }

  lemma ApartSwap(d: seq<PgHdr>, u: seq<PgHdr>, v: seq<PgHdr>)
    requires Apart(d, u, v)
    ensures Apart(d, v, u)
  {
  }

  lemma ApartNext(d: seq<PgHdr>, u: seq<PgHdr>, v: seq<PgHdr>)
    requires Apart(d, u, v) && u != []
    ensures Apart(d + [u[0]], u[1..], v)
    ensures u[0] !in d && forall x :: x in u[1..] ==> x in u
  {
    assert u[0] in u && u[0] !in d && u[0] !in v;
    RestDistinct(u);
    assert Distinct(d + [u[0]]);
  }

  lemma RestDistinct(u: seq<PgHdr>)
    requires Distinct(u) && u != []
    ensures Distinct(u[1..]) && u[0] !in u[1..] && forall x :: x in u[1..] ==> x in u
  {
    forall j, k | 0 <= j < k < |u[1..]|
      ensures u[1..][j] != u[1..][k]
    {
      assert u[1..][j] == u[j + 1] && u[1..][k] == u[k + 1];
    }
    forall j | 0 <= j < |u[1..]|
      ensures u[1..][j] != u[0]
    {
      assert u[1..][j] == u[j + 1];
    }
  }

  /** One turn of the loop: the first page of u is linked behind the result. */
  method Take(head: PgHdr?, tail: PgHdr?, p: PgHdr, q: PgHdr,
              ghost d: seq<PgHdr>, ghost u: seq<PgHdr>, ghost v: seq<PgHdr>)
    returns (newHead: PgHdr, next: PgHdr?)
    requires Started(head, tail, d) && u != [] && Linked(p, u) && Linked(q, v) && Apart(d, u, v)
    modifies (if tail == null then {} else {tail})`pDirty
    ensures Started(newHead, p, d + [p]) && Linked(next, u[1..]) && Linked(q, v)
    ensures Apart(d + [p], u[1..], v)
  {
    ApartNext(d, u, v);
    TailIn(head, tail, d);
    newHead := Append(head, tail, p, d);
    LinkedRest(p, u);
    next := p.pDirty;
  }

  lemma TailIn(head: PgHdr?, tail: PgHdr?, d: seq<PgHdr>)
    requires Started(head, tail, d)
    ensures tail != null ==> tail in d
  {
  }

  /** One list is exhausted: what is left of the other is linked behind the tail. */
  method Finish(head: PgHdr, tail: PgHdr, q: PgHdr, ghost d: seq<PgHdr>, ghost v: seq<PgHdr>)
    requires Started(head, tail, d) && d != [] && Linked(q, v) && Apart(d, [], v)
    modifies tail`pDirty
    ensures Linked(head, d + v)
  {
    TailIn(head, tail, d);
    tail.pDirty := q;
    LinkedAll(head, tail, d, v);
  }

  lemma LinkedNull(p: PgHdr?, u: seq<PgHdr>)
    requires Linked(p, u)
    ensures p == null <==> u == []
    ensures u != [] ==> p == u[0]
  {
  }

  lemma Regroup(d: seq<PgHdr>, x: PgHdr, m: seq<PgHdr>)
    ensures d + ([x] + m) == (d + [x]) + m
  {
  }

  /** The pages still to be merged, after one is taken from u. */
  lemma MergedNext(d: seq<PgHdr>, u: seq<PgHdr>, v: seq<PgHdr>)
    requires u != [] && v != []
    ensures u[0].pgno < v[0].pgno ==> d + Merged(u, v) == (d + [u[0]]) + Merged(u[1..], v)
    ensures !(u[0].pgno < v[0].pgno) ==> d + Merged(u, v) == (d + [v[0]]) + Merged(u, v[1..])
    ensures Merged(u, []) == u && Merged([], v) == v
  {
    Regroup(d, u[0], Merged(u[1..], v));
    Regroup(d, v[0], Merged(u, v[1..]));
  }

  /** pcacheMergeDirtyList() */
  method Merge(a: PgHdr, b: PgHdr, ghost s: seq<PgHdr>, ghost t: seq<PgHdr>) returns (r: PgHdr)
    requires s != [] && t != [] && Linked(a, s) && Linked(b, t) && Distinct(s) && Distinct(t) && Disjoint(s, t)
    modifies s`pDirty, t`pDirty
    ensures Linked(r, Merged(s, t))
  {
    hide Linked, Started, Apart, Merged;
    var pA: PgHdr, pB: PgHdr := a, b;
    var head: PgHdr?, tail: PgHdr? := null, null;
    ghost var d: seq<PgHdr>, u: seq<PgHdr>, v: seq<PgHdr> := [], s, t;
    Nothing(s, t);
    while true
      invariant u != [] && v != [] && Linked(pA, u) && Linked(pB, v) && Started(head, tail, d)
      invariant Apart(d, u, v)
      invariant tail != null ==> tail in s || tail in t
      invariant forall x :: x in u ==> x in s
      invariant forall x :: x in v ==> x in t
      invariant d + Merged(u, v) == Merged(s, t)
      decreases |u| + |v|
    {
      LinkedNull(pA, u);
      LinkedNull(pB, v);
      MergedNext(d, u, v);
      assert u[0] in s && v[0] in t;
      var next: PgHdr?;
      if pA.pgno < pB.pgno {
        head, next := Take(head, tail, pA, pB, d, u, v);
        tail := pA;
        d, u := d + [pA], u[1..];
        LinkedNull(next, u);
        if next == null {
          Finish(head, tail, pB, d, v);
          return head;
        }
        pA := next;
      } else {
        ApartSwap(d, u, v);
        head, next := Take(head, tail, pB, pA, d, v, u);
        tail := pB;
        d, v := d + [pB], v[1..];
        ApartSwap(d, v, u);
        LinkedNull(next, v);
        if next == null {
          ApartSwap(d, u, v);
          Finish(head, tail, pA, d, u);
          return head;
        }
        pB := next;
      }
    }
  }

  lemma Nothing(s: seq<PgHdr>, t: seq<PgHdr>)
    requires Distinct(s) && Distinct(t) && Disjoint(s, t)
    ensures Apart([], s, t) && Started(null, null, []) && [] + Merged(s, t) == Merged(s, t)
  {
  }

  // ---------------------------------------------------------------- the buckets

  const N_SORT_BUCKET := 32

  ghost function Pow2(i: nat): (n: nat)
    ensures n > 0
  {
    if i == 0 then 1 else 2 * Pow2(i - 1)
  }

  lemma Pow2Of31()
    ensures Pow2(31) == 0x8000_0000
  {
    assert Pow2(8) == 0x100;
    assert Pow2(16) == 0x1_0000;
    assert Pow2(24) == 0x100_0000;
  }

  /** All pages in the buckets. */
  ghost function Content(bs: seq<seq<PgHdr>>): multiset<PgHdr> {
    if bs == [] then multiset{} else multiset(bs[0]) + Content(bs[1..])
  }

  lemma {:induction false} ContentAt(bs: seq<seq<PgHdr>>, i: nat)
    requires i < |bs|
    ensures Content(bs) == Content(bs[i := []]) + multiset(bs[i])
    decreases i
  {
    if i > 0 {
      ContentAt(bs[1..], i - 1);
      assert bs[i := []][1..] == bs[1..][i - 1 := []];
    } else {
      assert bs[i := []][1..] == bs[1..];
    }
  }

  ghost predicate NoDup(m: multiset<PgHdr>) {
    forall x :: x in m ==> m[x] == 1
  }

  /** Page numbers are distinct, as they are among the pages of one cache. */
  ghost predicate Numbered(all: set<PgHdr>)
    reads all`pgno
  {
    forall x, y :: x in all && y in all && x.pgno == y.pgno ==> x == y
  }

  lemma NoDupParts(s: seq<PgHdr>, t: seq<PgHdr>, m: multiset<PgHdr>)
    requires NoDup(m) && multiset(s) + multiset(t) <= m
    ensures Distinct(s) && Disjoint(s, t)
  {
    forall x | x in s
      ensures multiset(s)[x] <= 1
    {
      assert multiset(s)[x] <= m[x];
    }
    forall j, k | 0 <= j < k < |s|
      ensures s[j] == s[k] ==> multiset(s)[s[j]] >= 2
    {
      if s[j] == s[k] {
        Twice(s, j, k);
      }
    }
    forall x | x in s
      ensures x !in t
    {
      assert multiset(s)[x] >= 1;
      assert (multiset(s) + multiset(t))[x] <= m[x];
      assert x in t ==> multiset(t)[x] >= 1;
    }
  }

  lemma Twice(s: seq<PgHdr>, j: nat, k: nat)
    requires j < k < |s| && s[j] == s[k]
    ensures multiset(s)[s[j]] >= 2
  {
    assert s == s[..j] + [s[j]] + s[j + 1..];
    assert s[j + 1..][k - j - 1] == s[k];
    assert s[k] in multiset(s[j + 1..]);
  }

  /** Each bucket i is empty or an ascending list of exactly 2^i pages; the last is never used. */
  ghost predicate Bucket(head: PgHdr?, s: seq<PgHdr>, i: nat)
    reads s`pDirty, s`pgno
  {
    Linked(head, s) && Ascending(s) && (s == [] || (|s| == Pow2(i) && i < N_SORT_BUCKET - 1))
  }

  ghost predicate Buckets(a: seq<PgHdr?>, bs: seq<seq<PgHdr>>, all: set<PgHdr>)
    reads all`pDirty, all`pgno
  {
    && |a| == |bs| == N_SORT_BUCKET
    && forall i :: 0 <= i < N_SORT_BUCKET ==> (forall x :: x in bs[i] ==> x in all) && Bucket(a[i], bs[i], i)
  }

  lemma ContentUpdate(bs: seq<seq<PgHdr>>, i: nat, s: seq<PgHdr>)
    requires i < |bs|
    ensures Content(bs[i := s]) + multiset(bs[i]) == Content(bs) + multiset(s)
  {
    ContentAt(bs, i);
    ContentAt(bs[i := s], i);
    assert bs[i := s][i := []] == bs[i := []];
  }

  /** Two buckets, and a bucket and the list in hand, share no page. */
  lemma BucketsApart(bs: seq<seq<PgHdr>>, cur: seq<PgHdr>, i: nat, j: nat)
    requires i < |bs| && j < |bs| && i != j && NoDup(Content(bs) + multiset(cur))
    ensures Disjoint(bs[i], bs[j]) && Disjoint(bs[i], cur)
    ensures Distinct(bs[i])
  {
    ContentAt(bs, i);
    ContentAt(bs[i := []], j);
    NoDupParts(bs[i], bs[j], Content(bs) + multiset(cur));
    NoDupParts(bs[i], cur, Content(bs) + multiset(cur));
  }

  lemma BucketFacts(a: seq<PgHdr?>, bs: seq<seq<PgHdr>>, all: set<PgHdr>, i: nat)
    requires Buckets(a, bs, all) && i < N_SORT_BUCKET
    ensures |a| == |bs| == N_SORT_BUCKET
    ensures Linked(a[i], bs[i]) && Ascending(bs[i]) && (a[i] == null <==> bs[i] == [])
    ensures bs[i] != [] ==> |bs[i]| == Pow2(i) && i < N_SORT_BUCKET - 1
    ensures forall x :: x in bs[i] ==> x in all
  {
  }

  lemma MergedInAll(s: seq<PgHdr>, t: seq<PgHdr>, all: set<PgHdr>)
    requires forall x :: x in s ==> x in all
    requires forall x :: x in t ==> x in all
    ensures forall x :: x in Merged(s, t) ==> x in all
  {
  }

  lemma HandApart(bs: seq<seq<PgHdr>>, cur: seq<PgHdr>, i: nat, all: set<PgHdr>)
    requires i < |bs| && NoDup(Content(bs) + multiset(cur)) && Numbered(all)
    requires forall x :: x in bs[i] ==> x in all
    requires forall x :: x in cur ==> x in all
    ensures Distinct(bs[i]) && Distinct(cur) && Disjoint(bs[i], cur) && Unlike(bs[i], cur)
    ensures forall j :: 0 <= j < |bs| && j != i ==> Disjoint(bs[j], bs[i]) && Disjoint(bs[j], cur)
  {
    ContentAt(bs, i);
    NoDupParts(bs[i], cur, Content(bs) + multiset(cur));
    NoDupParts(cur, bs[i], Content(bs) + multiset(cur));
    forall j | 0 <= j < |bs| && j != i
      ensures Disjoint(bs[j], bs[i]) && Disjoint(bs[j], cur)
    {
      BucketsApart(bs, cur, j, i);
    }
  }

  lemma MergedFacts(bs: seq<seq<PgHdr>>, i: nat, cur: seq<PgHdr>, all: set<PgHdr>)
    requires i < |bs| && |bs[i]| == |cur| == Pow2(i)
    requires Ascending(bs[i]) && Ascending(cur) && Unlike(bs[i], cur)
    requires forall x :: x in bs[i] ==> x in all
    requires forall x :: x in cur ==> x in all
    ensures var m := Merged(bs[i], cur);
      && Ascending(m) && |m| == Pow2(i + 1) && (forall x :: x in m ==> x in all)
      && Content(bs[i := []]) + multiset(m) == Content(bs) + multiset(cur)
  {
    MergedPages(bs[i], cur);
    MergedInAll(bs[i], cur, all);
    MergedAscending(bs[i], cur);
    ContentAt(bs, i);
  }

  lemma EmptyBucket(i: nat)
    ensures Bucket(null, [], i)
  {
  }

  /** A full bucket is merged with the pages in hand and emptied. */
  method MergeBucket(a: array<PgHdr?>, i: nat, p: PgHdr, ghost bs: seq<seq<PgHdr>>, ghost cur: seq<PgHdr>,
    ghost all: set<PgHdr>)
    returns (q: PgHdr)
    requires a.Length == N_SORT_BUCKET && i < N_SORT_BUCKET && a[i] != null && Buckets(a[..], bs, all)
    requires cur != [] && Linked(p, cur) && Ascending(cur) && |cur| == Pow2(i) && forall x :: x in cur ==> x in all
    requires NoDup(Content(bs) + multiset(cur)) && Numbered(all)
    modifies a, bs[i]`pDirty, cur`pDirty
    ensures Buckets(a[..], bs[i := []], all)
    ensures Linked(q, Merged(bs[i], cur)) && Ascending(Merged(bs[i], cur)) && |Merged(bs[i], cur)| == Pow2(i + 1)
    ensures forall x :: x in Merged(bs[i], cur) ==> x in all
    ensures Content(bs[i := []]) + multiset(Merged(bs[i], cur)) == Content(bs) + multiset(cur)
  {
    hide Bucket, Linked, Ascending, Merged, Distinct, Unlike, Content, NoDup, Numbered;
    BucketFacts(a[..], bs, all, i);
    HandApart(bs, cur, i, all);
    EmptyBucket(i);
    ghost var was := a[..];
    q := Merge(a[i], p, bs[i], cur);
    forall j | 0 <= j < N_SORT_BUCKET && j != i
      ensures Bucket(was[j], bs[j], j)
    {
      assert old(Bucket(was[j], bs[j], j));
      assert Disjoint(bs[j], bs[i]) && Disjoint(bs[j], cur);
      assert forall x :: x in bs[j] ==> x.pDirty == old(x.pDirty) && x.pgno == old(x.pgno);
    }
    a[i] := null;
    MergedFacts(bs, i, cur, all);
    forall j | 0 <= j < N_SORT_BUCKET && j != i
      ensures Bucket(a[j], bs[j], j)
    {
      assert a[j] == was[j];
    }
  }

  /** The pages in hand go into an empty bucket. */
  method FillBucket(a: array<PgHdr?>, i: nat, p: PgHdr, ghost bs: seq<seq<PgHdr>>, ghost cur: seq<PgHdr>,
    ghost all: set<PgHdr>)
    requires a.Length == N_SORT_BUCKET && i < N_SORT_BUCKET - 1 && Buckets(a[..], bs, all) && bs[i] == []
    requires Linked(p, cur) && Ascending(cur) && |cur| == Pow2(i) && forall x :: x in cur ==> x in all
    modifies a
    ensures Buckets(a[..], bs[i := cur], all)
    ensures Content(bs[i := cur]) == Content(bs) + multiset(cur)
  {
    hide Linked, Ascending, Content;
    ContentUpdate(bs, i, cur);
    a[i] := p;
  }

  lemma OnePage(p: PgHdr)
    requires p.pDirty == null
    ensures Linked(p, [p]) && Ascending([p]) && |[p]| == Pow2(0)
  {
  }

  ghost predicate Sized(bs: seq<seq<PgHdr>>) {
    && |bs| == N_SORT_BUCKET
    && forall i :: 0 <= i < N_SORT_BUCKET ==> |bs[i]| <= if i < N_SORT_BUCKET - 1 then Pow2(i) else 0
  }

  lemma BucketsSized(a: seq<PgHdr?>, bs: seq<seq<PgHdr>>, all: set<PgHdr>)
    requires Buckets(a, bs, all)
    ensures Sized(bs)
  {
    forall i | 0 <= i < N_SORT_BUCKET
      ensures |bs[i]| <= if i < N_SORT_BUCKET - 1 then Pow2(i) else 0
    {
      BucketFacts(a, bs, all, i);
    }
  }

  /** What bucket k and those behind it hold at most; less if one of them is empty. */
  lemma {:induction false} ContentBound(bs: seq<seq<PgHdr>>, k: nat, hole: nat)
    requires Sized(bs) && k < N_SORT_BUCKET
    ensures |Content(bs[k..])| <= Pow2(N_SORT_BUCKET - 1) - Pow2(k)
    ensures k <= hole < N_SORT_BUCKET - 1 && bs[hole] == [] ==> |Content(bs[k..])| < Pow2(N_SORT_BUCKET - 1) - Pow2(k)
    decreases N_SORT_BUCKET - k
  {
    assert bs[k..] == [bs[k]] + bs[k + 1..];
    assert |Content(bs[k..])| == |bs[k]| + |Content(bs[k + 1..])|;
    if k == N_SORT_BUCKET - 1 {
      assert bs[k + 1..] == [];
    } else {
      ContentBound(bs, k + 1, hole);
    }
  }

  /** With an empty bucket there are fewer than 2^31 - 1 pages in the buckets. */
  lemma HoleMeansRoom(bs: seq<seq<PgHdr>>, hole: nat)
    requires Sized(bs) && hole < N_SORT_BUCKET - 1 && bs[hole] == []
    ensures |Content(bs)| + 1 < 0x8000_0000
  {
    ContentBound(bs, 0, hole);
    assert bs[0..] == bs;
    Pow2Of31();
  }

  /** The body of the outer loop: p goes into the first empty bucket, taking the full ones along.  The
  overflow arm is reached exactly if p is the page number 2^31.  The bucket it would merge is then empty,
  which pcacheMergeDirtyList() asserts not to be the case. */
  method Insert(a: array<PgHdr?>, p: PgHdr, ghost was: seq<seq<PgHdr>>, ghost all: set<PgHdr>)
    returns (overflow: bool, ghost bs: seq<seq<PgHdr>>)
    requires a.Length == N_SORT_BUCKET && Buckets(a[..], was, all) && p in all && p.pDirty == null
    requires NoDup(Content(was) + multiset{p}) && Numbered(all)
    modifies a, Content(was)`pDirty, p`pDirty
    ensures overflow <==> |Content(was)| + 1 == 0x8000_0000
    ensures overflow ==> forall i :: 0 <= i < N_SORT_BUCKET ==> a[i] == null
    ensures !overflow ==> Buckets(a[..], bs, all) && Content(bs) == Content(was) + multiset{p}
  {
    hide Linked, Ascending, Content, Buckets, NoDup, Numbered, Merged, Sized;
    bs := was;
    var q := p;
    ghost var cur := [p];
    OnePage(p);
    BucketFacts(a[..], was, all, 0);
    BucketsSized(a[..], was, all);
    var i := 0;
    while i < N_SORT_BUCKET - 1
      invariant 0 <= i <= N_SORT_BUCKET - 1 && |bs| == |was| == N_SORT_BUCKET
      invariant Buckets(a[..], bs, all)
      invariant cur != [] && Linked(q, cur) && Ascending(cur) && |cur| == Pow2(i) && forall x :: x in cur ==> x in all
      invariant Content(bs) + multiset(cur) == Content(was) + multiset{p}
      invariant forall j :: 0 <= j < i ==> bs[j] == []
      invariant forall j :: i <= j < N_SORT_BUCKET ==> bs[j] == was[j]
    {
      BucketFacts(a[..], bs, all, i);
      if a[i] == null {
        overflow := false;
        FillBucket(a, i, q, bs, cur, all);
        bs := bs[i := cur];
        HoleMeansRoom(was, i);
        return;
      } else {
        PartOf(bs, i, cur, Content(was) + multiset{p});
        assert forall x :: x in Content(was) + multiset{p} ==> x in Content(was) || x == p;
        ghost var m := Merged(bs[i], cur);
        q := MergeBucket(a, i, q, bs, cur, all);
        cur := m;
        bs := bs[i := []];
      }
      i := i + 1;
    }
    overflow := true;
    NoneLeft(a[..], bs, all);
    Pow2Of31();
    assert |Content(was) + multiset{p}| == |cur|;
  }

  lemma NoneLeft(a: seq<PgHdr?>, bs: seq<seq<PgHdr>>, all: set<PgHdr>)
    requires Buckets(a, bs, all) && forall j :: 0 <= j < N_SORT_BUCKET - 1 ==> bs[j] == []
    ensures Content(bs) == multiset{} && forall i :: 0 <= i < N_SORT_BUCKET ==> a[i] == null
  {
    hide Content;
    forall i | 0 <= i < N_SORT_BUCKET
      ensures a[i] == null && bs[i] == []
    {
      BucketFacts(a, bs, all, i);
    }
    EmptyContent(bs);
  }

  lemma PartOf(bs: seq<seq<PgHdr>>, i: nat, cur: seq<PgHdr>, m: multiset<PgHdr>)
    requires i < |bs| && Content(bs) + multiset(cur) == m
    ensures forall x :: x in bs[i] ==> x in m
    ensures forall x :: x in cur ==> x in m
  {
    ContentAt(bs, i);
    forall x | x in bs[i]
      ensures x in m
    {
      assert x in multiset(bs[i]);
    }
    forall x | x in cur
      ensures x in m
    {
      assert x in multiset(cur);
    }
  }

  function NoBuckets(): seq<seq<PgHdr>> {
    seq(N_SORT_BUCKET, _ => [])
  }

  lemma {:induction false} EmptyContent(bs: seq<seq<PgHdr>>)
    requires forall i :: 0 <= i < |bs| ==> bs[i] == []
    ensures Content(bs) == multiset{}
  {
    if bs == [] {
    } else {
      EmptyContent(bs[1..]);
    }
  }

  lemma InContent(bs: seq<seq<PgHdr>>, i: nat)
    requires i < |bs|
    ensures forall x :: x in bs[i] ==> x in Content(bs)
  {
    ContentAt(bs, i);
  }

  /** The first page of the input is taken off it. */
  method PopFront(p: PgHdr, ghost rest: seq<PgHdr>, ghost a: seq<PgHdr?>, ghost bs: seq<seq<PgHdr>>,
    ghost all: set<PgHdr>)
    returns (next: PgHdr?)
    requires rest != [] && Linked(p, rest) && Distinct(rest) && Buckets(a, bs, all) && p !in Content(bs)
    modifies p`pDirty
    ensures p == rest[0] && p.pDirty == null && Linked(next, rest[1..]) && Buckets(a, bs, all)
  {
    next := p.pDirty;
    p.pDirty := null;
    hide Linked, Ascending, Content;
    forall j | 0 <= j < N_SORT_BUCKET
      ensures Bucket(a[j], bs[j], j)
    {
      InContent(bs, j);
      assert old(Bucket(a[j], bs[j], j));
      assert forall x :: x in bs[j] ==> x.pDirty == old(x.pDirty) && x.pgno == old(x.pgno);
    }
  }

  /** The outer loop of pcacheSortDirtyList(): every page goes into a bucket, unless there are 2^31. */
  method Distribute(pIn: PgHdr?, a: array<PgHdr?>, ghost s: seq<PgHdr>, ghost all: set<PgHdr>)
    returns (overflow: bool, ghost bs: seq<seq<PgHdr>>)
    requires a.Length == N_SORT_BUCKET && Buckets(a[..], NoBuckets(), all)
    requires Linked(pIn, s) && Distinct(s) && Numbered(all) && (forall x :: x in s ==> x in all)
    modifies a, s`pDirty
    ensures overflow <==> |s| >= 0x8000_0000
    ensures overflow ==> a[N_SORT_BUCKET - 1] == null
    ensures !overflow ==> Buckets(a[..], bs, all) && Content(bs) == multiset(s)
  {
    hide Linked, Content, Buckets, NoDup, Numbered, NoBuckets, Distinct;
    overflow, bs := false, NoBuckets();
    NoContent();
    var head := pIn;
    ghost var rest := s;
    LinkedNull(head, rest);
    while head != null
      invariant Buckets(a[..], bs, all) && Linked(head, rest) && (head == null <==> rest == [])
      invariant Content(bs) + multiset(rest) == multiset(s) && |Content(bs)| < 0x8000_0000 && !overflow
      decreases |rest|
    {
      LinkedNull(head, rest);
      TakeOne(bs, rest, s);
      var p := head;
      assert rest[0] in rest;
      head := PopFront(p, rest, a[..], bs, all);
      overflow, bs := Insert(a, p, bs, all);
      if overflow {
        return;
      }
      rest := rest[1..];
      LinkedNull(head, rest);
    }
    assert |multiset(s)| == |s|;
  }

  lemma NoContent()
    ensures Content(NoBuckets()) == multiset{}
  {
    EmptyContent(NoBuckets());
  }

  /** The first remaining page is in no bucket, and neither are those behind it. */
  lemma TakeOne(bs: seq<seq<PgHdr>>, rest: seq<PgHdr>, s: seq<PgHdr>)
    requires rest != [] && Distinct(s) && Content(bs) + multiset(rest) == multiset(s)
    ensures Distinct(rest) && NoDup(Content(bs) + multiset{rest[0]}) && |Content(bs)| + 1 <= |s|
    ensures forall x :: x in Content(bs) ==> x in s && x !in rest
    ensures forall x :: x in rest ==> x in s
    ensures (Content(bs) + multiset{rest[0]}) + multiset(rest[1..]) == multiset(s)
  {
    assert rest == [rest[0]] + rest[1..];
    DistinctNoDup(s);
    NoDupParts(rest, [], multiset(s));
    forall x | x in Content(bs)
      ensures x in s && x !in rest
    {
      assert x in multiset(s);
      assert x in rest ==> multiset(rest)[x] >= 1;
    }
    forall x | x in rest
      ensures x in s
    {
      assert x in multiset(rest);
      assert x in multiset(s);
    }
    assert Content(bs) + multiset{rest[0]} <= multiset(s);
  }

  lemma {:induction false} DistinctNoDup(s: seq<PgHdr>)
    requires Distinct(s)
    ensures NoDup(multiset(s))
  {
    if s == [] {
    } else {
      DistinctNoDup(s[1..]);
      assert s == [s[0]] + s[1..];
      assert s[0] !in s[1..];
    }
  }

  lemma AbsorbFacts(bs: seq<seq<PgHdr>>, i: nat, cur: seq<PgHdr>, all: set<PgHdr>)
    requires i < |bs| && Ascending(cur) && Ascending(bs[i]) && Unlike(bs[i], cur)
    requires forall x :: x in bs[i] ==> x in all
    requires forall x :: x in cur ==> x in all
    ensures var m := Merged(cur, bs[i]);
      && Ascending(m) && (forall x :: x in m ==> x in all) && (cur == [] ==> m == bs[i])
      && Content(bs[i := []]) + multiset(m) == Content(bs) + multiset(cur)
  {
    MergedPages(cur, bs[i]);
    MergedInAll(cur, bs[i], all);
    MergedAscending(cur, bs[i]);
    ContentAt(bs, i);
  }

  /** A bucket is merged into the result, or is the result if there is none yet. */
  method Absorb(p: PgHdr?, q: PgHdr, i: nat, ghost heads: seq<PgHdr?>, ghost bs: seq<seq<PgHdr>>,
    ghost cur: seq<PgHdr>, ghost all: set<PgHdr>)
    returns (r: PgHdr)
    requires i < N_SORT_BUCKET && Buckets(heads, bs, all) && heads[i] == q
    requires Linked(p, cur) && Ascending(cur) && forall x :: x in cur ==> x in all
    requires NoDup(Content(bs) + multiset(cur)) && Numbered(all)
    modifies bs[i]`pDirty, cur`pDirty
    ensures Buckets(heads[i := null], bs[i := []], all)
    ensures Linked(r, Merged(cur, bs[i])) && Ascending(Merged(cur, bs[i]))
    ensures forall x :: x in Merged(cur, bs[i]) ==> x in all
    ensures Content(bs[i := []]) + multiset(Merged(cur, bs[i])) == Content(bs) + multiset(cur)
  {
    hide Bucket, Linked, Ascending, Merged, Distinct, Unlike, Content, NoDup, Numbered;
    BucketFacts(heads, bs, all, i);
    LinkedNull(p, cur);
    HandApart(bs, cur, i, all);
    EmptyBucket(i);
    if p != null {
      r := Merge(p, q, cur, bs[i]);
    } else {
      r := q;
    }
    forall j | 0 <= j < N_SORT_BUCKET && j != i
      ensures Bucket(heads[j], bs[j], j)
    {
      assert old(Bucket(heads[j], bs[j], j));
      assert Disjoint(bs[j], bs[i]) && Disjoint(bs[j], cur);
      assert forall x :: x in bs[j] ==> x.pDirty == old(x.pDirty) && x.pgno == old(x.pgno);
    }
    AbsorbFacts(bs, i, cur, all);
  }

  /** The last loop of pcacheSortDirtyList(): all buckets become one list. */
  method Collect(a: array<PgHdr?>, ghost bs: seq<seq<PgHdr>>, ghost all: set<PgHdr>)
    returns (p: PgHdr?, ghost t: seq<PgHdr>)
    requires a.Length == N_SORT_BUCKET && Buckets(a[..], bs, all) && NoDup(Content(bs)) && Numbered(all)
    modifies Content(bs)`pDirty
    ensures Linked(p, t) && Ascending(t) && multiset(t) == Content(bs)
  {
    hide Linked, Ascending, Content, Buckets, NoDup, Numbered, Merged;
    ghost var heads, left := a[..], bs;
    p := a[0];
    BucketFacts(heads, left, all, 0);
    TakeBucket(heads, left, all, 0);
    t := left[0];
    left := left[0 := []];
    heads := heads[0 := null];
    var i := 1;
    while i < N_SORT_BUCKET
      invariant 1 <= i <= N_SORT_BUCKET
      invariant |heads| == |left| == N_SORT_BUCKET && Buckets(heads, left, all)
      invariant forall j :: i <= j < N_SORT_BUCKET ==> heads[j] == a[j]
      invariant forall j :: 0 <= j < i ==> left[j] == []
      invariant Linked(p, t) && Ascending(t) && forall x :: x in t ==> x in all
      invariant Content(left) + multiset(t) == Content(bs)
    {
      BucketFacts(heads, left, all, i);
      if a[i] != null {
        PartOf(left, i, t, Content(bs));
        ghost var m := Merged(t, left[i]);
        p := Absorb(p, a[i], i, heads, left, t, all);
        t := m;
        heads := heads[i := null];
        left := left[i := []];
      }
      i := i + 1;
    }
    EmptyContent(left);
  }

  lemma TakeBucket(a: seq<PgHdr?>, bs: seq<seq<PgHdr>>, all: set<PgHdr>, i: nat)
    requires i < N_SORT_BUCKET && Buckets(a, bs, all)
    ensures Buckets(a[i := null], bs[i := []], all)
    ensures Content(bs[i := []]) + multiset(bs[i]) == Content(bs)
  {
    ContentAt(bs, i);
    EmptyBucket(i);
    hide Content, Bucket;
  }

  lemma AllEmpty(heads: seq<PgHdr?>, all: set<PgHdr>)
    requires |heads| == N_SORT_BUCKET && forall i :: 0 <= i < N_SORT_BUCKET ==> heads[i] == null
    ensures Buckets(heads, NoBuckets(), all)
  {
  }

  /** pcacheSortDirtyList(): the result is the same pages in ascending order, linked by pDirty; no other
  field of any page is written. */
  method SortDirtyList(pIn: PgHdr?, ghost s: seq<PgHdr>) returns (p: PgHdr?, ghost t: seq<PgHdr>)
    requires Linked(pIn, s) && Distinct(s) && |s| < 0x8000_0000
    requires forall x, y :: x in s && y in s && x.pgno == y.pgno ==> x == y
    modifies s`pDirty
    ensures Linked(p, t) && Ascending(t) && multiset(t) == multiset(s)
  {
    ghost var all := set x | x in s;
    assert Numbered(all);
    hide Linked, Ascending, Buckets, Content, NoBuckets, NoDup;
    var a := new PgHdr?[N_SORT_BUCKET](_ => null);
    AllEmpty(a[..], all);
    var overflow;
    ghost var bs;
    overflow, bs := Distribute(pIn, a, s, all);
    assert !overflow;
    DistinctNoDup(s);
    p, t := Collect(a, bs, all);
  }

  /** The loop of sqlite3PcacheDirtyList(): the dirty list is copied into the pDirty links. */
  method CopyLinks(first: PgHdr?, ghost s: seq<PgHdr>)
    requires Chained(s) && Distinct(s) && first == Nth(s, 0)
    modifies s`pDirty
    ensures Linked(first, s)
  {
    var p := first;
    ghost var k := 0;
    while p != null
      invariant 0 <= k <= |s| && p == Nth(s, k)
      invariant forall j {:trigger s[j].pDirty} :: 0 <= j < k ==> s[j].pDirty == Nth(s, j + 1)
      decreases |s| - k
    {
      p.pDirty := p.pDirtyNext;
      p := p.pDirtyNext;
      k := k + 1;
    }
  }

  lemma DirtyInOrder(cache: PCache)
    requires cache.Valid()
    ensures Chained(cache.dirty) && Distinct(cache.dirty) && cache.pDirty == Nth(cache.dirty, 0)
    ensures forall x, y :: x in cache.dirty && y in cache.dirty && x.pgno == y.pgno ==> x == y
  {
    hide Chained, Distinct, PCache.FlagsOk, PCache.RefsOk, PCache.PinsOk;
    cache.DirtyFacts();
  }

  /** sqlite3PcacheDirtyList() */
  method DirtyList(cache: PCache) returns (p: PgHdr?, ghost t: seq<PgHdr>)
    requires cache.Valid() && |cache.dirty| < 0x8000_0000
    modifies cache.dirty`pDirty
    ensures cache.Valid()
    ensures Linked(p, t) && Ascending(t) && multiset(t) == multiset(cache.dirty)
  {
    hide PCache.DirtyOk, PCache.FlagsOk, PCache.RefsOk, PCache.PinsOk, PCache.NumbersOk;
    hide Linked, Ascending, Chained, Distinct;
    DirtyInOrder(cache);
    CopyLinks(cache.pDirty, cache.dirty);
    p, t := SortDirtyList(cache.pDirty, cache.dirty);
  }
}
