/** vxworksSimplifyName(): the canonical form of an absolute file name, computed in place. */
module VxworksName {

  // ---------------------------------------------------------------- the reference

  /** Trailing slashes go, but for the first character. */
  ghost function Trim(z: string): (t: string)
    ensures |t| <= |z| && t == z[..|t|]
    ensures |t| > 1 ==> t[|t| - 1] != '/'
    ensures forall k :: |t| <= k < |z| ==> z[k] == '/'
  {
    if |z| > 1 && z[|z| - 1] == '/' then Trim(z[..|z| - 1]) else z
  }

  /** Empty, or starting at the root. */
  ghost predicate Rooted(a: string) {
    a == "" || a[0] == '/'
  }

  ghost function LastSlash(a: string): (k: nat)
    requires a != "" && Rooted(a)
    ensures k < |a| && a[k] == '/'
    ensures forall m :: k < m < |a| ==> a[m] != '/'
  {
    if a[|a| - 1] == '/' then |a| - 1 else LastSlash(a[..|a| - 1])
  }

  /** The components of a name: each slash starts one. */
  ghost function Components(a: string): seq<string>
    requires Rooted(a)
    decreases |a|
  {
    if a == "" then [] else Components(a[..LastSlash(a)]) + [a[LastSlash(a) + 1..]]
  }

  /** One component: empty ones and dots go, a double dot takes its predecessor with it. */
  ghost function Push(st: seq<string>, c: string): seq<string> {
    if c == "" || c == "." then st
    else if c == ".." then (if st == [] then [] else st[..|st| - 1])
    else st + [c]
  }

  ghost function Resolve(cs: seq<string>): seq<string> {
    if cs == [] then [] else Push(Resolve(cs[..|cs| - 1]), cs[|cs| - 1])
  }

  ghost function Join(st: seq<string>): string {
    if st == [] then "" else Join(st[..|st| - 1]) + "/" + st[|st| - 1]
  }

  /** What the components of a name come to. */
  ghost function Resolved(a: string): seq<string>
    requires Rooted(a)
  {
    Resolve(Components(a))
  }

  /** The canonical name: all components but the last are resolved, the last is kept as it is.  A name
  of two or more slashes becomes empty. */
  ghost function Simplified(z: string): string
    requires Rooted(z)
  {
    var t := Trim(z);
    if t == "" || (t == "/" && |z| > 1) then ""
    else Join(Resolved(t[..LastSlash(t)])) + t[LastSlash(t)..]
  }

  // ---------------------------------------------------------------- facts about it

  ghost predicate NoSlash(c: string) {
    forall m :: 0 <= m < |c| ==> c[m] != '/'
  }

  ghost predicate Proper(c: string) {
    NoSlash(c) && c != "" && c != "." && c != ".."
  }

  ghost predicate AllProper(st: seq<string>) {
    forall c :: c in st ==> Proper(c)
  }

  lemma LastSlashIs(a: string, k: nat)
    requires a != "" && Rooted(a) && k < |a| && a[k] == '/' && forall m :: k < m < |a| ==> a[m] != '/'
    ensures LastSlash(a) == k
  {
  }

  /** A name followed by one more component. */
  lemma ComponentsOneMore(a: string, c: string)
    requires Rooted(a) && NoSlash(c)
    ensures Rooted(a + "/" + c) && Components(a + "/" + c) == Components(a) + [c]
    ensures Resolved(a + "/" + c) == Push(Resolved(a), c)
  {
    var b := a + "/" + c;
    assert b[|a|] == '/';
    LastSlashIs(b, |a|);
    assert b[..|a|] == a && b[|a| + 1..] == c;
    var cs := Components(a);
    assert (cs + [c])[..|cs|] == cs;
  }

  lemma {:induction false} ResolvedProper(a: string)
    requires Rooted(a)
    ensures AllProper(Resolved(a))
    decreases |a|
  {
    if a == "" {
    } else {
      var k := LastSlash(a);
      ResolvedProper(a[..k]);
      assert a == a[..k] + "/" + a[k + 1..];
      ComponentsOneMore(a[..k], a[k + 1..]);
    }
  }

  lemma JoinOneMore(st: seq<string>, c: string)
    ensures Join(st + [c]) == Join(st) + "/" + c
  {
  }

  lemma JoinRooted(st: seq<string>)
    ensures Rooted(Join(st)) && (st != [] ==> Join(st) != "")
  {
  }

  /** Proper components survive being joined and taken apart again. */
  lemma {:induction false} ResolvedJoin(st: seq<string>)
    requires AllProper(st)
    ensures Rooted(Join(st)) && Resolved(Join(st)) == st
  {
    JoinRooted(st);
    if st == [] {
    } else {
      var init, c := st[..|st| - 1], st[|st| - 1];
      ResolvedJoin(init);
      assert Proper(c);
      ComponentsOneMore(Join(init), c);
      assert st == init + [c];
    }
  }

  lemma TrimSame(z: string)
    requires |z| > 0 && z[|z| - 1] != '/'
    ensures Trim(z) == z
  {
  }

  /** A last component behind a name. */
  lemma LastPart(a: string, tail: string)
    requires Rooted(a) && |tail| > 1 && tail[0] == '/' && NoSlash(tail[1..])
    ensures var r := a + tail; r != "" && Rooted(r) && r != "/" && Trim(r) == r && LastSlash(r) == |a|
    ensures (a + tail)[..|a|] == a && (a + tail)[|a|..] == tail
  {
    var r := a + tail;
    assert r[|r| - 1] == tail[1..][|tail| - 2];
    TrimSame(r);
    forall m | |a| < m < |r|
      ensures r[m] != '/'
    {
      assert r[m] == tail[1..][m - |a| - 1];
    }
    LastSlashIs(r, |a|);
  }

  lemma JoinThenLast(st: seq<string>, tail: string)
    requires AllProper(st) && |tail| > 1 && tail[0] == '/' && NoSlash(tail[1..])
    ensures var r := Join(st) + tail; Rooted(r) && Simplified(r) == r
  {
    hide Join, Trim, LastSlash, Resolved, NoSlash;
    ResolvedJoin(st);
    LastPart(Join(st), tail);
  }

  /** Simplifying twice is simplifying once. */
  lemma Idempotent(z: string)
    requires Rooted(z)
    ensures Rooted(Simplified(z)) && Simplified(Simplified(z)) == Simplified(z)
  {
    var t := Trim(z);
    if t == "" || (t == "/" && |z| > 1) {
    } else {
      var k := LastSlash(t);
      ResolvedProper(t[..k]);
      if t == "/" {
        assert z == "/" && t[..k] == "";
        assert Join([]) + t[k..] == "/";
      } else {
        assert |t| > 1;
        assert t[|t| - 1] != '/';
        JoinThenLast(Resolved(t[..k]), t[k..]);
      }
    }
  }

  /** The empty name comes from the empty name and from two or more slashes, and from nothing else. */
  lemma EmptyIff(z: string)
    requires Rooted(z)
    ensures Simplified(z) == "" <==> z == "" || (|z| > 1 && forall k :: 0 <= k < |z| ==> z[k] == '/')
  {
    var t := Trim(z);
    if |z| > 0 && forall k :: 0 <= k < |z| ==> z[k] == '/' {
      TrimIs(z, 1);
    }
  }

  // ---------------------------------------------------------------- which names mean the same

  /** Some component of the name is not empty. */
  ghost predicate HasName(b: string) {
    exists k :: 0 <= k < |b| && b[k] != '/'
  }

  /** Where the last component of a name ends and starts does not depend on what is put before it. */
  lemma SplitBehind(a: string, b: string)
    requires Rooted(a) && Rooted(b) && HasName(b)
    ensures var t := Trim(b);
      && |t| > 1 && t[0] == '/' && Rooted(a + b) && Trim(a + b) == a + t
      && LastSlash(a + t) == |a| + LastSlash(t)
      && (a + t)[..|a| + LastSlash(t)] == a + t[..LastSlash(t)]
      && (a + t)[|a| + LastSlash(t)..] == t[LastSlash(t)..]
  {
    TrimNamed(b);
    TrimBehind(a, b);
    LastSlashBehind(a, Trim(b));
  }

  lemma TrimNamed(b: string)
    requires Rooted(b) && HasName(b)
    ensures var t := Trim(b); |t| > 1 && t[0] == '/' && t[|t| - 1] != '/'
  {
    var k :| 0 <= k < |b| && b[k] != '/';
    assert k < |Trim(b)| && k > 0;
  }

  lemma TrimBehind(a: string, b: string)
    requires Rooted(b) && HasName(b)
    ensures Trim(a + b) == a + Trim(b)
  {
    TrimNamed(b);
    var t := Trim(b);
    hide Trim;
    assert (a + b)[|a| + |t| - 1] == t[|t| - 1];
    forall x | |a| + |t| <= x < |a + b|
      ensures (a + b)[x] == '/'
    {
      assert (a + b)[x] == b[x - |a|];
    }
    TrimIs(a + b, |a| + |t|);
    assert (a + b)[..|a| + |t|] == a + t;
  }

  lemma LastSlashBehind(a: string, t: string)
    requires Rooted(a) && Rooted(t) && t != ""
    ensures Rooted(a + t) && LastSlash(a + t) == |a| + LastSlash(t)
    ensures (a + t)[..|a| + LastSlash(t)] == a + t[..LastSlash(t)]
    ensures (a + t)[|a| + LastSlash(t)..] == t[LastSlash(t)..]
  {
    var k := LastSlash(t);
    hide LastSlash;
    forall m | |a| + k < m < |a + t|
      ensures (a + t)[m] != '/'
    {
      assert (a + t)[m] == t[m - |a|];
    }
    LastSlashIs(a + t, |a| + k);
  }

  /** A name with something before it: all that matters of that is what it resolves to. */
  lemma SimplifiedBehind(a: string, b: string)
    requires Rooted(a) && Rooted(b) && HasName(b)
    ensures var t := Trim(b);
      var k := LastSlash(t);
      Rooted(a + b) && Rooted(a + t[..k]) && Simplified(a + b) == Join(Resolved(a + t[..k])) + t[k..]
  {
    hide *;
    SplitBehind(a, b);
    LastSlashKept(a, Trim(b));
    SimplifiedIs(a + b);
  }

  lemma LastSlashKept(a: string, t: string)
    requires Rooted(a) && |t| > 1 && t[0] == '/'
    ensures Rooted(t) && t != "" && a + t != "" && a + t != "/" && Rooted(a + t[..LastSlash(t)])
  {
    hide LastSlash;
  }

  lemma SimplifiedIs(z: string)
    requires Rooted(z) && Trim(z) != "" && Trim(z) != "/"
    ensures var t := Trim(z);
      Rooted(t) && Rooted(t[..LastSlash(t)]) && Simplified(z) == Join(Resolved(t[..LastSlash(t)])) + t[LastSlash(t)..]
  {
    hide Join, Resolved;
  }

  lemma {:induction false} ResolvedBehind(a: string, a': string, b: string)
    requires Rooted(a) && Rooted(a') && Rooted(b) && Resolved(a) == Resolved(a')
    ensures Rooted(a + b) && Rooted(a' + b) && Resolved(a + b) == Resolved(a' + b)
    decreases |b|
  {
    if b == "" {
      assert a + b == a && a' + b == a';
    } else {
      var k := LastSlash(b);
      ResolvedBehind(a, a', b[..k]);
      hide Resolved;
      LastBehind(a, b, k);
      LastBehind(a', b, k);
      ComponentsOneMore(a + b[..k], b[k + 1..]);
      ComponentsOneMore(a' + b[..k], b[k + 1..]);
    }
  }

  lemma LastBehind(a: string, b: string, k: nat)
    requires k < |b| && b[k] == '/'
    ensures a + b == (a + b[..k]) + "/" + b[k + 1..]
  {
    assert b == b[..k] + "/" + b[k + 1..];
  }

  /** Names that resolve to the same may be exchanged in front of another. */
  lemma SamePrefix(a: string, a': string, b: string)
    requires Rooted(a) && Rooted(a') && Rooted(b) && HasName(b) && Resolved(a) == Resolved(a')
    ensures Rooted(a + b) && Rooted(a' + b) && Simplified(a + b) == Simplified(a' + b)
  {
    hide Join, Resolved, Simplified;
    SplitBehind(a, b);
    SimplifiedBehind(a, b);
    SimplifiedBehind(a', b);
    var t := Trim(b);
    ResolvedBehind(a, a', t[..LastSlash(t)]);
  }

  /** A double dot goes together with the proper component before it. */
  lemma DoubleDot(a: string, c: string, b: string)
    requires Rooted(a) && Proper(c) && Rooted(b) && HasName(b)
    ensures Rooted(a + "/" + c + "/.." + b) && Rooted(a + b)
    ensures Simplified(a + "/" + c + "/.." + b) == Simplified(a + b)
  {
    ComponentsOneMore(a, c);
    ComponentsOneMore(a + "/" + c, "..");
    assert (a + "/" + c) + "/" + ".." == a + "/" + c + "/..";
    assert (Resolved(a) + [c])[..|Resolved(a)|] == Resolved(a);
    hide Simplified, Resolved;
    SamePrefix(a + "/" + c + "/..", a, b);
  }

  /** At the root there is nothing for it to go with. */
  lemma DoubleDotAtRoot(b: string)
    requires Rooted(b) && HasName(b)
    ensures Rooted("/.." + b) && Simplified("/.." + b) == Simplified(b)
  {
    ComponentsOneMore("", "..");
    assert "" + "/" + ".." == "/..";
    hide Simplified;
    SamePrefix("/..", "", b);
    assert "" + b == b;
  }

  /** A dot goes. */
  lemma SingleDot(a: string, b: string)
    requires Rooted(a) && Rooted(b) && HasName(b)
    ensures Rooted(a + "/." + b) && Rooted(a + b) && Simplified(a + "/." + b) == Simplified(a + b)
  {
    ComponentsOneMore(a, ".");
    assert a + "/" + "." == a + "/.";
    hide Simplified, Resolved;
    SamePrefix(a + "/.", a, b);
  }

  /** Of two slashes one goes. */
  lemma DoubleSlash(a: string, b: string)
    requires Rooted(a) && Rooted(b) && HasName(b)
    ensures Rooted(a + "/" + b) && Rooted(a + b) && Simplified(a + "/" + b) == Simplified(a + b)
  {
    ComponentsOneMore(a, "");
    assert a + "/" + "" == a + "/";
    hide Simplified, Resolved;
    SamePrefix(a + "/", a, b);
  }

  /** A slash at the end goes. */
  lemma TrailingSlash(b: string)
    requires Rooted(b) && HasName(b)
    ensures Rooted(b + "/") && Simplified(b + "/") == Simplified(b)
  {
    var t := Trim(b);
    var k :| 0 <= k < |b| && b[k] != '/';
    assert k < |t| && k > 0;
    TrimIs(b + "/", |t|);
    assert (b + "/")[..|t|] == t;
    hide Join, Resolved;
  }

  /** A name of proper components with any last one is left as it is. */
  lemma ProperStays(st: seq<string>, c: string)
    requires AllProper(st) && c != "" && NoSlash(c)
    ensures var z := Join(st) + "/" + c; Rooted(z) && Simplified(z) == z
  {
    hide Join, Simplified, NoSlash;
    assert ("/" + c)[1..] == c;
    JoinThenLast(st, "/" + c);
    assert Join(st) + ("/" + c) == Join(st) + "/" + c;
  }

  // ---------------------------------------------------------------- the code

  lemma {:induction false} TrimIs(z: string, m: nat)
    requires m <= |z| && (m <= 1 || z[m - 1] != '/') && (|z| > 0 ==> m > 0)
    requires forall x :: m <= x < |z| ==> z[x] == '/'
    ensures Trim(z) == z[..m]
    decreases |z|
  {
    if |z| > m {
      TrimIs(z[..|z| - 1], m);
      assert z[..|z| - 1][..m] == z[..m];
    } else {
      assert z[..m] == z;
    }
  }

  /** The slash at k is copied: what follows is neither a slash nor a dot component that has a slash
  behind it. */
  ghost predicate StartsComponent(orig: string, m: nat, k: nat)
    requires k < m < |orig|
  {
    && orig[k + 1] != '/'
    && !(orig[k + 1] == '.' && k + 2 < m && orig[k + 2] == '/')
    && !(orig[k + 1] == '.' && k + 3 < m && orig[k + 2] == '.' && orig[k + 3] == '/')
  }

  /** Between components, the output is the resolved prefix. */
  ghost predicate AtBoundary(orig: string, m: nat, i: nat, out: string)
    requires i <= m < |orig| && Rooted(orig[..m])
  {
    && out == Join(Resolved(orig[..i]))
    && (i < m ==> orig[i] == '/')
    && (i == m > 0 ==> m == 1 && orig[1] == '/')
  }

  /** Inside a component that starts at k, the output ends with its part up to i. */
  ghost predicate InComponent(orig: string, m: nat, i: nat, k: nat, out: string)
    requires i <= m < |orig| && Rooted(orig[..m])
  {
    && k < i && orig[k] == '/' && NoSlash(orig[k + 1..i]) && StartsComponent(orig, m, k)
    && out == Join(Resolved(orig[..k])) + orig[k..i]
  }

  /** The component before a slash is proper, and is now part of the resolved prefix. */
  lemma ComponentEnds(orig: string, m: nat, i: nat, k: nat, out: string)
    requires i < m < |orig| && Rooted(orig[..m]) && InComponent(orig, m, i, k, out) && orig[i] == '/'
    ensures AtBoundary(orig, m, i, out)
  {
    hide Join, Components;
    var c := orig[k + 1..i];
    ProperPart(orig, m, i, k);
    hide NoSlash, StartsComponent;
    ComponentsOneMore(orig[..k], c);
    JoinOneMore(Resolved(orig[..k]), c);
    assert Join(Resolved(orig[..k])) + ("/" + c) == Join(Resolved(orig[..k])) + "/" + c;
  }

  lemma ProperPart(orig: string, m: nat, i: nat, k: nat)
    requires k < i < m < |orig| && orig[k] == '/' && orig[i] == '/' && NoSlash(orig[k + 1..i])
    requires StartsComponent(orig, m, k)
    ensures Proper(orig[k + 1..i]) && orig[..i] == orig[..k] + "/" + orig[k + 1..i]
    ensures orig[k..i] == "/" + orig[k + 1..i]
  {
    var c := orig[k + 1..i];
    assert i != k + 1;
    assert c[0] == orig[k + 1] && (i == k + 3 ==> c[1] == orig[k + 2]);
  }

  /** A component that vanishes: empty, or a dot. */
  lemma SkipComponent(orig: string, m: nat, i: nat, c: string, out: string)
    requires i < m < |orig| && Rooted(orig[..m]) && AtBoundary(orig, m, i, out) && orig[i] == '/'
    requires (c == "" || c == ".") && i + 1 + |c| <= m && orig[i + 1..i + 1 + |c|] == c && orig[i + 1 + |c|] == '/'
    requires i + 1 + |c| == m ==> m == 1
    ensures AtBoundary(orig, m, i + 1 + |c|, out)
  {
    assert orig[..i + 1 + |c|] == orig[..i] + "/" + c;
    ComponentsOneMore(orig[..i], c);
  }

  /** A double dot takes the last component with it. */
  lemma DropComponent(orig: string, m: nat, i: nat, out: string)
    requires i + 3 < m < |orig| && Rooted(orig[..m]) && orig[i] == '/' && orig[i + 1] == '.' && orig[i + 2] == '.'
      && orig[i + 3] == '/'
    requires out == Join(Push(Resolved(orig[..i]), ".."))
    ensures AtBoundary(orig, m, i + 3, out)
  {
    hide Join, Push, Components;
    assert orig[i + 1..i + 3] == "..";
    assert orig[..i + 3] == orig[..i] + "/" + "..";
    ComponentsOneMore(orig[..i], "..");
  }

  /** Backing up over the last component of the output and its slash. */
  method Pop(z: array<char>, j: nat, ghost st: seq<string>) returns (r: nat)
    requires j <= z.Length && z[..j] == Join(st) && AllProper(st)
    ensures r <= j
    ensures st == [] ==> r == 0
    ensures st != [] ==> z[..r] == Join(st[..|st| - 1])
  {
    ghost var init: seq<string>, c: string := [], "";
    if st != [] {
      init, c := st[..|st| - 1], st[|st| - 1];
      assert Proper(c);
      assert z[..j] == Join(init) + "/" + c;
      assert z[|Join(init)|] == z[..j][|Join(init)|];
      assert forall x :: |Join(init)| < x < j ==> z[x] == z[..j][x] == c[x - |Join(init)| - 1];
    }
    ghost var base := |Join(init)|;
    hide Join;
    r := j;
    while r > 0 && z[r - 1] != '/'
      invariant st == [] ==> r == j == 0
      invariant st != [] ==> base < r <= j
    {
      r := r - 1;
    }
    if r > 0 {
      r := r - 1;
    }
    assert st != [] ==> z[..r] == z[..j][..r];
  }

  /** That is what a double dot does to the components. */
  lemma Popped(out: string, st: seq<string>)
    requires if st == [] then out == "" else out == Join(st[..|st| - 1])
    ensures out == Join(Push(st, ".."))
  {
  }

  lemma CopySlash(orig: string, m: nat, i: nat, out: string)
    requires i < m < |orig| && Rooted(orig[..m]) && AtBoundary(orig, m, i, out) && orig[i] == '/'
      && StartsComponent(orig, m, i)
    ensures InComponent(orig, m, i + 1, i, out + [orig[i]])
  {
  }

  lemma CopyOther(orig: string, m: nat, i: nat, k: nat, out: string)
    requires i < m < |orig| && Rooted(orig[..m]) && InComponent(orig, m, i, k, out) && orig[i] != '/'
    ensures InComponent(orig, m, i + 1, k, out + [orig[i]])
  {
    assert orig[k..i + 1] == orig[k..i] + [orig[i]];
    assert orig[k + 1..i + 1] == orig[k + 1..i] + [orig[i]];
  }

  /** What the loop leaves is the canonical name. */
  lemma Finished(orig: string, n: nat, m: nat, k: nat, out: string, inside: bool)
    requires n < |orig| && orig[n] == '\0' && Rooted(orig[..n]) && m <= n && Trim(orig[..n]) == orig[..m]
    requires if inside then InComponent(orig, m, m, k, out) else AtBoundary(orig, m, m, out)
    ensures out == Simplified(orig[..n])
  {
    var t := orig[..m];
    assert n > m ==> orig[..n][m] == '/';
    if inside {
      assert forall x :: k < x < m ==> t[x] == orig[k + 1..m][x - k - 1];
      LastSlashIs(t, k);
      assert t[..k] == orig[..k] && t[k..] == orig[k..m];
    } else if m > 0 {
      assert t == "/";
      assert n != 1;
      SlashResolves();
    } else {
      assert Components(orig[..0]) == [];
    }
  }

  lemma SlashResolves()
    ensures Join(Resolved("/")) == ""
  {
  }

  /** Where the loop stands: `out` is z[..j]. */
  ghost predicate Standing(orig: string, m: nat, i: nat, k: nat, out: string, inside: bool)
    requires i <= m < |orig| && Rooted(orig[..m])
  {
    if inside then InComponent(orig, m, i, k, out) else AtBoundary(orig, m, i, out)
  }

  /** The three lookaheads at a slash: the length of what is skipped, or zero. */
  method SkipAt(z: array<char>, m: nat, i: nat, j: nat, ghost orig: string) returns (skip: nat, newJ: nat)
    requires i < m < z.Length == |orig| && j <= i && z[i] == '/' && Rooted(orig[..m]) && (m > 1 ==> orig[m - 1] != '/')
    requires forall x :: i <= x < z.Length ==> z[x] == orig[x]
    requires AtBoundary(orig, m, i, z[..j])
    ensures i + skip <= m && newJ <= j
    ensures skip == 0 ==> newJ == j && StartsComponent(orig, m, i)
    ensures skip > 0 ==> AtBoundary(orig, m, i + skip, z[..newJ])
  {
    hide Resolved, Join, Components, NoSlash;
    skip, newJ := 0, j;
    if z[i + 1] == '/' {
      SkipComponent(orig, m, i, "", z[..j]);
      skip := 1;
    } else if z[i + 1] == '.' && i + 2 < m && z[i + 2] == '/' {
      assert orig[i + 1..i + 2] == ".";
      SkipComponent(orig, m, i, ".", z[..j]);
      skip := 2;
    } else if z[i + 1] == '.' && i + 3 < m && z[i + 2] == '.' && z[i + 3] == '/' {
      ResolvedProper(orig[..i]);
      newJ := Pop(z, j, Resolved(orig[..i]));
      Popped(z[..newJ], Resolved(orig[..i]));
      DropComponent(orig, m, i, z[..newJ]);
      skip := 3;
    }
  }

  /** One turn of the loop. */
  method Turn(z: array<char>, m: nat, i: nat, j: nat, ghost orig: string, ghost k: nat, ghost inside: bool)
    returns (newI: nat, newJ: nat, ghost newK: nat, ghost within: bool)
    requires i < m < z.Length == |orig| && j <= i && Rooted(orig[..m]) && (m > 1 ==> orig[m - 1] != '/')
    requires forall x :: i <= x < z.Length ==> z[x] == orig[x]
    requires Standing(orig, m, i, k, z[..j], inside)
    modifies z
    ensures i < newI <= m && newJ <= newI
    ensures forall x :: newI <= x < z.Length ==> z[x] == orig[x]
    ensures Standing(orig, m, newI, newK, z[..newJ], within)
  {
    hide InComponent, StartsComponent, Resolved, Join, Components, NoSlash;
    ghost var out := z[..j];
    newJ, newK, within := j, k, inside;
    if z[i] == '/' {
      if inside {
        ComponentEnds(orig, m, i, k, out);
      }
      hide AtBoundary;
      var skip;
      skip, newJ := SkipAt(z, m, i, j, orig);
      if skip > 0 {
        newI := i + skip;
        within := false;
        return;
      }
      CopySlash(orig, m, i, out);
      newK := i;
      within := true;
    } else {
      CopyOther(orig, m, i, k, out);
    }
    z[newJ] := z[i];
    newJ := newJ + 1;
    assert z[..newJ] == out + [orig[i]];
    newI := i + 1;
  }

  /** The first loop: the length without trailing slashes. */
  method TrimLength(z: array<char>, n: nat) returns (m: nat)
    requires n < z.Length
    ensures m <= n && Trim(z[..n]) == z[..m] && (m > 1 ==> z[m - 1] != '/')
  {
    m := n;
    while m > 1 && z[m - 1] == '/'
      invariant m <= n && (n > 0 ==> m > 0)
      invariant forall x :: m <= x < n ==> z[x] == '/'
    {
      m := m - 1;
    }
    TrimIs(z[..n], m);
    assert z[..n][..m] == z[..m];
  }

  /** vxworksSimplifyName(): z holds n characters and a terminator.  The write index never overtakes the
  read index, so every character is read before it is overwritten. */
  method SimplifyName(z: array<char>, n: nat) returns (j: nat)
    requires n < z.Length && z[n] == '\0' && Rooted(z[..n])
    modifies z
    ensures j <= n && z[j] == '\0'
    ensures z[..j] == Simplified(old(z[..n]))
  {
    hide Resolved, Join, Simplified, Trim, Components, NoSlash, InComponent;
    ghost var orig := z[..];
    assert orig[..n] == z[..n];
    var m := TrimLength(z, n);
    assert orig[..m] == z[..m];
    var i := 0;
    j := 0;
    ghost var k, inside := 0, false;
    assert orig[..0] == "" == z[..0];
    NothingYet();
    while i < m
      invariant j <= i <= m
      invariant forall x :: i <= x < z.Length ==> z[x] == orig[x]
      invariant Standing(orig, m, i, k, z[..j], inside)
    {
      i, j, k, inside := Turn(z, m, i, j, orig, k, inside);
    }
    ghost var out := z[..j];
    Finished(orig, n, m, k, out, inside);
    z[j] := '\0';
    assert z[..j] == out;
  }

  lemma NothingYet()
    ensures Join(Resolved("")) == ""
  {
  }
}
