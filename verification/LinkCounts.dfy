/** Directories and link counts: an inode's nlink against the directory entries that name it. */
module LinkCounts {
  const ROOT := 1
  const MAXLINK := 32767

  /** A C short. */
  type Short = x: int | -MAXLINK - 1 <= x <= MAXLINK witness 0

  /** nlink++ and nlink--, with the wrap-around of a short. */
  function Up(n: Short): Short { if n == MAXLINK then -MAXLINK - 1 else n + 1 }

  function Down(n: Short): Short { if n == -MAXLINK - 1 then MAXLINK else n - 1 }

  datatype Kind = Unused | File | Device | Dir

  /** Inode number 0 marks an empty slot. */
  datatype Dirent = Dirent(inum: nat, name: string)

  datatype Inode = Inode(kind: Kind, nlink: Short, entries: seq<Dirent>)

  type Tree = seq<Inode>

  const BLANK := Inode(Unused, 0, [])

  predicate Dots(name: string) { name == "." || name == ".." }

  // ---- Counting ----

  ghost function Sum(f: nat -> int, n: nat): int {
    if n == 0 then 0 else Sum(f, n - 1) + f(n - 1)
  }

  lemma {:induction false} SumChange(f: nat -> int, g: nat -> int, n: nat, k: nat)
    requires k < n && forall d: nat :: d < n && d != k ==> g(d) == f(d)
    ensures Sum(g, n) == Sum(f, n) - f(k) + g(k)
  {
    if k == n - 1 {
      SumSame(f, g, n - 1);
    } else {
      SumChange(f, g, n - 1, k);
    }
  }

  lemma {:induction false} SumSame(f: nat -> int, g: nat -> int, n: nat)
    requires forall d: nat :: d < n ==> g(d) == f(d)
    ensures Sum(g, n) == Sum(f, n)
  {
    if n == 0 {
    } else {
      SumSame(f, g, n - 1);
    }
  }

  lemma {:induction false} SumBound(f: nat -> int, n: nat, k: nat)
    requires k < n && forall d: nat :: d < n ==> f(d) >= 0
    ensures Sum(f, n) >= f(k) >= 0
  {
    SumNonNegative(f, n - 1);
    if k == n - 1 {
    } else {
      SumBound(f, n - 1, k);
    }
  }

  lemma {:induction false} SumNonNegative(f: nat -> int, n: nat)
    requires forall d: nat :: d < n ==> f(d) >= 0
    ensures Sum(f, n) >= 0
  {
    if n == 0 {
    } else {
      SumNonNegative(f, n - 1);
    }
  }

  lemma {:induction false} SumPositive(f: nat -> int, n: nat) returns (k: nat)
    requires Sum(f, n) > 0 && forall d: nat :: d < n ==> f(d) >= 0
    ensures k < n && f(k) > 0
  {
    if f(n - 1) > 0 {
      k := n - 1;
    } else {
      k := SumPositive(f, n - 1);
    }
  }

  predicate Names(e: Dirent, i: nat) { e.inum == i && !Dots(e.name) }

  /** The slots of one directory that name inode `i`, other than "." and "..". */
  ghost function NamesIn(entries: seq<Dirent>, i: nat): nat {
    if entries == [] then 0
    else NamesIn(entries[..|entries| - 1], i) + if Names(entries[|entries| - 1], i) then 1 else 0
  }

  lemma {:induction false} NamesSet(entries: seq<Dirent>, k: nat, e: Dirent, i: nat)
    requires k < |entries|
    ensures NamesIn(entries[k := e], i) + (if Names(entries[k], i) then 1 else 0) ==
            NamesIn(entries, i) + (if Names(e, i) then 1 else 0)
  {
    var n := |entries| - 1;
    if k < n {
      NamesSet(entries[..n], k, e, i);
      assert entries[k := e][..n] == entries[..n][k := e];
    } else {
      assert entries[k := e][..n] == entries[..n];
    }
  }

  lemma NamesAppend(entries: seq<Dirent>, e: Dirent, i: nat)
    ensures NamesIn(entries + [e], i) == NamesIn(entries, i) + if Names(e, i) then 1 else 0
  {
    assert (entries + [e])[..|entries|] == entries;
  }

  lemma {:induction false} NamesPositive(entries: seq<Dirent>, i: nat)
    ensures NamesIn(entries, i) > 0 <==> exists k :: 0 <= k < |entries| && Names(entries[k], i)
  {
    if entries == [] {
    } else {
      var n := |entries| - 1;
      NamesPositive(entries[..n], i);
      assert forall k :: 0 <= k < n ==> entries[..n][k] == entries[k];
    }
  }

  /** Per directory: how often it names `i`, and whether it is linked and its parent is `i`. */
  ghost function NameAt(t: Tree, i: nat): nat -> int {
    (d: nat) => if d < |t| then NamesIn(t[d].entries, i) else 0
  }

  function DotDot(n: Inode): nat { if |n.entries| >= 2 then n.entries[1].inum else 0 }

  ghost predicate IsChild(n: Inode, i: nat) { n.kind == Dir && n.nlink > 0 && DotDot(n) == i }

  ghost function ChildAt(t: Tree, i: nat): nat -> int {
    (d: nat) => if d < |t| && IsChild(t[d], i) then 1 else 0
  }

  ghost function Named(t: Tree, i: nat): int { Sum(NameAt(t, i), |t|) }

  ghost function Children(t: Tree, i: nat): int { Sum(ChildAt(t, i), |t|) }

  // ---- The invariant ----

  /** A directory starts with "." and "..", and has these names nowhere else. */
  ghost predicate DirOk(t: Tree, d: nat)
    requires d < |t|
  {
    && |t[d].entries| >= 2 && t[d].entries[0] == Dirent(d, ".") && t[d].entries[1].name == ".." &&
       t[d].entries[1].inum != 0
    && (DotDot(t[d]) == d <==> d == ROOT)
    && forall k :: 2 <= k < |t[d].entries| && t[d].entries[k].inum != 0 ==> !Dots(t[d].entries[k].name)
  }

  ghost predicate ShapeOk(t: Tree, d: nat)
    requires d < |t|
  {
    && (t[d].kind == Dir ==> DirOk(t, d))
    && (t[d].kind != Dir ==> t[d].entries == [])
    && (forall k :: 0 <= k < |t[d].entries| ==> t[d].entries[k].inum < |t|)
    && (t[d].kind == Unused ==> t[d].nlink == 0)
  }

  /** The only parent of a directory is the one its ".." names. */
  ghost predicate ParentOk(t: Tree, p: nat, k: nat)
    requires p < |t| && k < |t[p].entries|
  {
    var e := t[p].entries[k];
    e.inum != 0 && !Dots(e.name) && e.inum < |t| && t[e.inum].kind == Dir ==> DotDot(t[e.inum]) == p
  }

  /** The link count: names, and linked subdirectories for their "..". */
  ghost predicate Equation(t: Tree, i: nat)
    requires i < |t|
  {
    t[i].nlink == Named(t, i) + Children(t, i)
  }

  /** A linked directory has exactly one name, except for the root, which has none. */
  ghost predicate OneName(t: Tree, i: nat)
    requires i < |t|
  {
    t[i].kind == Dir ==> Named(t, i) == if i != ROOT && t[i].nlink > 0 then 1 else 0
  }

  ghost predicate CountOk(t: Tree, i: nat)
    requires i < |t|
  {
    Equation(t, i) && OneName(t, i)
  }

  /** All link counts are right. */
  ghost predicate CountsRight(t: Tree) {
    forall i :: 0 < i < |t| ==> Equation(t, i)
  }

  /** Only "." and ".." are left in an unlinked directory. */
  ghost predicate CleanOk(n: Inode) {
    n.nlink <= 0 ==> forall k :: 2 <= k < |n.entries| ==> n.entries[k].inum == 0
  }

  ghost predicate Shaped(t: Tree) {
    && |t| > ROOT && t[ROOT].kind == Dir && t[ROOT].nlink > 0
    && (forall d :: 0 <= d < |t| ==> ShapeOk(t, d))
    && t[0] == BLANK
  }

  ghost predicate Inv(t: Tree) {
    && Shaped(t)
    && (forall p, k :: 0 <= p < |t| && 0 <= k < |t[p].entries| ==> ParentOk(t, p, k))
    && (forall i :: 0 < i < |t| ==> CountOk(t, i))
    && (forall d :: 0 <= d < |t| ==> CleanOk(t[d]))
  }

  // ---- Changing two inodes ----

  ghost function One(b: bool): int { if b then 1 else 0 }

  lemma Change(t: Tree, d: nat, n: Inode, i: nat)
    requires d < |t|
    ensures Named(t[d := n], i) == Named(t, i) - NamesIn(t[d].entries, i) + NamesIn(n.entries, i)
    ensures Children(t[d := n], i) == Children(t, i) - One(IsChild(t[d], i)) + One(IsChild(n, i))
  {
    var u := t[d := n];
    SumChange(NameAt(t, i), NameAt(u, i), |t|, d);
    SumChange(ChildAt(t, i), ChildAt(u, i), |t|, d);
  }

  lemma CountsNonNegative(t: Tree, i: nat)
    ensures Named(t, i) >= 0 && Children(t, i) >= 0
  {
    SumNonNegative(NameAt(t, i), |t|);
    SumNonNegative(ChildAt(t, i), |t|);
  }

  /** No entry names an inode that is not counted anywhere. */
  lemma UnnamedInode(t: Tree, i: nat, p: nat, k: nat)
    requires Named(t, i) == 0 && p < |t| && k < |t[p].entries|
    ensures !Names(t[p].entries[k], i)
  {
    SumBound(NameAt(t, i), |t|, p);
    NamesPositive(t[p].entries, i);
  }

  /** Slot `k` of directory `p` set to `e`, where `k` may be just past the end. */
  function Put(entries: seq<Dirent>, k: nat, e: Dirent): seq<Dirent>
    requires k <= |entries|
  {
    if k < |entries| then entries[k := e] else entries + [e]
  }

  lemma PutNames(entries: seq<Dirent>, k: nat, e: Dirent, i: nat)
    requires k <= |entries| && i != 0
    ensures NamesIn(Put(entries, k, e), i) ==
            NamesIn(entries, i) + One(Names(e, i)) - One(k < |entries| && Names(entries[k], i))
  {
    if k < |entries| {
      NamesSet(entries, k, e, i);
    } else {
      NamesAppend(entries, e, i);
    }
  }

  // ---- Linking a file ----

  /** Slot `k` of directory `dp` can take a new entry. */
  ghost predicate Slot(t: Tree, dp: nat, k: nat) {
    && dp < |t| && t[dp].kind == Dir && k <= |t[dp].entries| && (k < |t[dp].entries| ==> t[dp].entries[k].inum == 0)
  }

  lemma SlotIsLate(t: Tree, dp: nat, k: nat)
    requires Shaped(t) && Slot(t, dp, k)
    ensures 2 <= k
  {
    assert ShapeOk(t, dp);
  }

  function Linked(t: Tree, ip: nat, dp: nat, k: nat, name: string): Tree
    requires ip < |t| && dp < |t| && k <= |t[dp].entries|
  {
    t[ip := t[ip].(nlink := Up(t[ip].nlink))][dp := t[dp].(entries := Put(t[dp].entries, k, Dirent(ip, name)))]
  }

  ghost predicate CanLink(t: Tree, ip: nat, dp: nat, k: nat, name: string) {
    Slot(t, dp, k) && 0 < ip < |t| && t[ip].kind in {File, Device} && !Dots(name)
  }

  lemma LinkCount(t: Tree, ip: nat, dp: nat, k: nat, name: string, i: nat)
    requires CanLink(t, ip, dp, k, name) && 2 <= k && 0 < i < |t| && CountOk(t, i)
    ensures CountOk(Linked(t, ip, dp, k, name), i) <==> i != ip || t[ip].nlink < MAXLINK
  {
    hide Named, Children, NamesIn;
    var x, y := t[ip].(nlink := Up(t[ip].nlink)), t[dp].(entries := Put(t[dp].entries, k, Dirent(ip, name)));
    Change(t, ip, x, i);
    Change(t[ip := x], dp, y, i);
    PutNames(t[dp].entries, k, Dirent(ip, name), i);
    CountsNonNegative(Linked(t, ip, dp, k, name), i);
  }

  lemma LinkShaped(t: Tree, ip: nat, dp: nat, k: nat, name: string)
    requires Shaped(t) && CanLink(t, ip, dp, k, name) && 2 <= k
    ensures Shaped(Linked(t, ip, dp, k, name))
  {
    var u := Linked(t, ip, dp, k, name);
    forall d | 0 <= d < |u| ensures ShapeOk(u, d) {
      assert ShapeOk(t, d);
    }
  }

  lemma LinkParents(t: Tree, ip: nat, dp: nat, k: nat, name: string, p: nat, j: nat)
    requires Inv(t) && CanLink(t, ip, dp, k, name) && 2 <= k && p < |t|
    requires j < |Linked(t, ip, dp, k, name)[p].entries|
    ensures ParentOk(Linked(t, ip, dp, k, name), p, j)
  {
    hide CountOk, Shaped, CleanOk;
    if j < |t[p].entries| {
      assert ParentOk(t, p, j);
    }
  }

  /** sys_link keeps every link count, unless the file's overflows. A name in an unlinked directory
      is still a name, but breaks the rule that such a directory is empty when it is reclaimed. */
  lemma LinkKeepsInvIff(t: Tree, ip: nat, dp: nat, k: nat, name: string)
    requires Inv(t) && CanLink(t, ip, dp, k, name)
    ensures Inv(Linked(t, ip, dp, k, name)) <==> t[dp].nlink > 0 && t[ip].nlink < MAXLINK
    ensures forall i :: 0 < i < |t| ==> (CountOk(Linked(t, ip, dp, k, name), i) <==> i != ip || t[ip].nlink < MAXLINK)
  {
    hide CountOk, ParentOk, Shaped, CanLink;
    assert Slot(t, dp, k) && 0 < ip < |t| && t[ip].kind in {File, Device} by { LinkFacts(t, ip, dp, k, name); }
    SlotIsLate(t, dp, k);
    var u := Linked(t, ip, dp, k, name);
    LinkShaped(t, ip, dp, k, name);
    forall p, j | 0 <= p < |u| && 0 <= j < |u[p].entries| ensures ParentOk(u, p, j) {
      LinkParents(t, ip, dp, k, name, p, j);
    }
    forall i | 0 < i < |u| ensures CountOk(u, i) <==> i != ip || t[ip].nlink < MAXLINK {
      LinkCount(t, ip, dp, k, name, i);
    }
    if t[ip].nlink < MAXLINK {
      LinkClean(t, ip, dp, k, name);
    } else {
      assert !CountOk(u, ip);
    }
  }

  lemma LinkFacts(t: Tree, ip: nat, dp: nat, k: nat, name: string)
    requires CanLink(t, ip, dp, k, name)
    ensures Slot(t, dp, k) && 0 < ip < |t| && t[ip].kind in {File, Device} && ip != dp
  {
  }

  lemma LinkClean(t: Tree, ip: nat, dp: nat, k: nat, name: string)
    requires Shaped(t) && CanLink(t, ip, dp, k, name) && 2 <= k && forall d :: 0 <= d < |t| ==> CleanOk(t[d])
    requires t[ip].nlink < MAXLINK
    ensures (forall d :: 0 <= d < |t| ==> CleanOk(Linked(t, ip, dp, k, name)[d])) <==> t[dp].nlink > 0
  {
    hide DirOk;
    var u := Linked(t, ip, dp, k, name);
    assert ShapeOk(t, ip);
    assert u[dp].entries[k].inum == ip && u[dp].nlink == t[dp].nlink;
    if t[dp].nlink > 0 {
      forall d | 0 <= d < |t| ensures CleanOk(u[d]) {
        assert CleanOk(t[d]);
      }
    } else {
      assert !CleanOk(u[dp]);
    }
  }

  // ---- Removing a name ----

  function Removed(t: Tree, dp: nat, k: nat, ip: nat): Tree
    requires ip < |t| && dp < |t| && k < |t[dp].entries|
  {
    var left := if t[ip].kind == Dir then Down(t[dp].nlink) else t[dp].nlink;
    t[dp := t[dp].(entries := t[dp].entries[k := Dirent(0, "")], nlink := left)]
     [ip := t[ip].(nlink := Down(t[ip].nlink))]
  }

  predicate Deserted(n: Inode) { forall k :: 2 <= k < |n.entries| ==> n.entries[k].inum == 0 }

  ghost predicate CanRemove(t: Tree, dp: nat, k: nat, ip: nat) {
    && dp < |t| && t[dp].kind == Dir && k < |t[dp].entries| && 0 < ip < |t|
    && Names(t[dp].entries[k], ip) && (t[ip].kind == Dir ==> Deserted(t[ip]))
  }

  lemma RemoveFacts(t: Tree, dp: nat, k: nat, ip: nat)
    requires Inv(t) && CanRemove(t, dp, k, ip)
    ensures 2 <= k && ip != dp && t[dp].nlink > 0 && Named(t, ip) >= 1
    ensures t[ip].kind == Dir ==> ip != ROOT && DotDot(t[ip]) == dp && IsChild(t[ip], dp)
  {
    assert ShapeOk(t, dp) && ShapeOk(t, ip) && ParentOk(t, dp, k) && CleanOk(t[dp]);
    NamesPositive(t[dp].entries, ip);
    SumBound(NameAt(t, ip), |t|, dp);
    CountsNonNegative(t, ip);
    assert CountOk(t, ip);
    assert CountOk(t, dp);
  }

  /** The panic "unlink: nlink < 1" cannot happen. */
  lemma NamedIsLinked(t: Tree, dp: nat, k: nat, ip: nat)
    requires Inv(t) && CanRemove(t, dp, k, ip)
    ensures t[ip].nlink >= 1
  {
    hide ParentOk, CleanOk, Named, Children;
    RemoveFacts(t, dp, k, ip);
    CountsNonNegative(t, ip);
    assert CountOk(t, ip);
  }

  /** Where a linked subdirectory is, its parent names it. */
  lemma ChildIsNamed(t: Tree, c: nat, i: nat) returns (j: nat)
    requires Inv(t) && 0 < c < |t| && IsChild(t[c], i) && i != ROOT && i < |t|
    ensures 2 <= j < |t[i].entries| && t[i].entries[j].inum == c
  {
    assert ShapeOk(t, c) && CountOk(t, c);
    assert Named(t, c) == 1;
    var p := SumPositive(NameAt(t, c), |t|);
    NamesPositive(t[p].entries, c);
    j :| 0 <= j < |t[p].entries| && Names(t[p].entries[j], c);
    assert ParentOk(t, p, j);
    assert ShapeOk(t, p);
  }

  /** A directory with nothing but "." and ".." has no linked subdirectory: its count is one. */
  lemma DesertedCount(t: Tree, i: nat)
    requires Inv(t) && 0 < i < |t| && i != ROOT && t[i].kind == Dir && Deserted(t[i])
    ensures Children(t, i) == 0
  {
    CountsNonNegative(t, i);
    if Children(t, i) > 0 {
      var c := SumPositive(ChildAt(t, i), |t|);
      assert t[0] == BLANK;
      var j := ChildIsNamed(t, c, i);
    }
  }

  lemma SumTwo(f: nat -> int, n: nat, a: nat, b: nat)
    requires a < n && b < n && a != b && forall d: nat :: d < n ==> f(d) >= 0
    ensures Sum(f, n) >= f(a) + f(b)
  {
    var g := (d: nat) => if d == a then 0 else f(d);
    SumChange(f, g, n, a);
    SumBound(g, n, b);
  }

  /** The directory a subdirectory is removed from stays linked. */
  lemma ParentStaysLinked(t: Tree, dp: nat, k: nat, ip: nat)
    requires Inv(t) && CanRemove(t, dp, k, ip) && t[ip].kind == Dir
    ensures t[dp].nlink >= 2
  {
    RemoveFacts(t, dp, k, ip);
    CountsNonNegative(t, dp);
    assert CountOk(t, dp) && ShapeOk(t, dp);
    if dp == ROOT {
      SumTwo(ChildAt(t, dp), |t|, dp, ip);
    } else {
      SumBound(ChildAt(t, dp), |t|, ip);
    }
  }

  lemma RemoveCount(t: Tree, dp: nat, k: nat, ip: nat, i: nat)
    requires Inv(t) && CanRemove(t, dp, k, ip) && 0 < i < |t|
    ensures CountOk(Removed(t, dp, k, ip), i)
  {
    hide Named, Children, NamesIn, Shaped, ParentOk, CleanOk;
    RemoveFacts(t, dp, k, ip);
    NamedIsLinked(t, dp, k, ip);
    assert CountOk(t, i) && CountOk(t, ip);
    var u := Removed(t, dp, k, ip);
    var x, y := u[dp], u[ip];
    Change(t, dp, x, i);
    Change(t[dp := x], ip, y, i);
    NamesSet(t[dp].entries, k, Dirent(0, ""), i);
    if t[ip].kind == Dir {
      ParentStaysLinked(t, dp, k, ip);
      DesertedCount(t, ip);
    }
  }

  lemma RemoveShaped(t: Tree, dp: nat, k: nat, ip: nat)
    requires Inv(t) && CanRemove(t, dp, k, ip)
    ensures Shaped(Removed(t, dp, k, ip)) && forall d :: 0 <= d < |t| ==> CleanOk(Removed(t, dp, k, ip)[d])
  {
    hide Named, Children, NamesIn, ParentOk, CountOk;
    RemoveFacts(t, dp, k, ip);
    NamedIsLinked(t, dp, k, ip);
    var u := Removed(t, dp, k, ip);
    if t[ip].kind == Dir {
      ParentStaysLinked(t, dp, k, ip);
    }
    forall d | 0 <= d < |u| ensures ShapeOk(u, d) && CleanOk(u[d]) {
      assert ShapeOk(t, d) && CleanOk(t[d]);
    }
  }

  /** sys_unlink keeps every link count, for files and for empty directories. */
  lemma RemoveKeepsInv(t: Tree, dp: nat, k: nat, ip: nat)
    requires Inv(t) && CanRemove(t, dp, k, ip)
    ensures Inv(Removed(t, dp, k, ip))
  {
    hide CountOk, Shaped, CleanOk;
    var u := Removed(t, dp, k, ip);
    RemoveFacts(t, dp, k, ip);
    RemoveShaped(t, dp, k, ip);
    forall p, j | 0 <= p < |u| && 0 <= j < |u[p].entries| ensures ParentOk(u, p, j) {
      assert ParentOk(t, p, j);
    }
    forall i | 0 < i < |u| ensures CountOk(u, i) {
      RemoveCount(t, dp, k, ip, i);
    }
  }

  // ---- Creating ----

  function Newborn(ip: nat, dp: nat, kind: Kind): Inode {
    Inode(kind, 1, if kind == Dir then [Dirent(ip, "."), Dirent(dp, "..")] else [])
  }

  function Created(t: Tree, ip: nat, dp: nat, k: nat, name: string, kind: Kind): Tree
    requires ip < |t| && dp < |t| && k <= |t[dp].entries|
  {
    var links := if kind == Dir then Up(t[dp].nlink) else t[dp].nlink;
    t[ip := Newborn(ip, dp, kind)]
     [dp := t[dp].(entries := Put(t[dp].entries, k, Dirent(ip, name)), nlink := links)]
  }

  ghost predicate CanCreate(t: Tree, ip: nat, dp: nat, k: nat, name: string, kind: Kind) {
    Slot(t, dp, k) && 0 < ip < |t| && 0 < dp && t[ip].kind == Unused && kind != Unused && !Dots(name)
  }

  /** An unused inode is named nowhere. */
  lemma UnusedIsUnnamed(t: Tree, ip: nat)
    requires Inv(t) && 0 < ip < |t| && t[ip].kind == Unused
    ensures t[ip] == BLANK && Named(t, ip) == 0 && Children(t, ip) == 0
  {
    assert ShapeOk(t, ip) && CountOk(t, ip);
    CountsNonNegative(t, ip);
  }

  lemma CreateCount(t: Tree, ip: nat, dp: nat, k: nat, name: string, kind: Kind, i: nat)
    requires Inv(t) && CanCreate(t, ip, dp, k, name, kind) && 2 <= k && 0 < i < |t| && t[dp].nlink > 0
    requires kind == Dir ==> t[dp].nlink < MAXLINK
    ensures CountOk(Created(t, ip, dp, k, name, kind), i)
  {
    hide Named, Children, NamesIn, Shaped, ParentOk, CleanOk;
    UnusedIsUnnamed(t, ip);
    assert CountOk(t, i);
    var u := Created(t, ip, dp, k, name, kind);
    assert t[ip := u[ip]][dp := u[dp]] == u;
    Change(t, ip, u[ip], i);
    Change(t[ip := u[ip]], dp, u[dp], i);
    PutNames(t[dp].entries, k, Dirent(ip, name), i);
    NewbornNames(ip, dp, kind, i);
    NoNames(i);
    DirShape(t, dp);
    assert Named(u, i) == Named(t, i) + One(i == ip);
    assert IsChild(u[dp], i) == IsChild(t[dp], i);
    assert Children(u, i) == Children(t, i) + One(kind == Dir && i == dp);
  }

  lemma DirShape(t: Tree, d: nat)
    requires Shaped(t) && d < |t|
    ensures ShapeOk(t, d) && |t| > ROOT && t[ROOT].kind == Dir
  {
  }

  lemma NewbornNames(ip: nat, dp: nat, kind: Kind, i: nat)
    ensures NamesIn(Newborn(ip, dp, kind).entries, i) == 0
  {
    var a, b := Dirent(ip, "."), Dirent(dp, "..");
    NamesAppend([], a, i);
    NamesAppend([a], b, i);
    assert [] + [a] == [a] && [a] + [b] == [a, b];
  }

  lemma NoNames(i: nat)
    ensures NamesIn([], i) == 0
  {
  }

  lemma CreateShaped(t: Tree, ip: nat, dp: nat, k: nat, name: string, kind: Kind)
    requires Shaped(t) && CanCreate(t, ip, dp, k, name, kind) && 2 <= k && t[dp].nlink >= 0
    requires kind == Dir ==> t[dp].nlink < MAXLINK
    ensures Shaped(Created(t, ip, dp, k, name, kind))
  {
    var u := Created(t, ip, dp, k, name, kind);
    forall d | 0 <= d < |u| ensures ShapeOk(u, d) {
      assert ShapeOk(t, d);
    }
  }

  lemma CreateParents(t: Tree, ip: nat, dp: nat, k: nat, name: string, kind: Kind, p: nat, j: nat)
    requires Inv(t) && CanCreate(t, ip, dp, k, name, kind) && 2 <= k && p < |t|
    requires j < |Created(t, ip, dp, k, name, kind)[p].entries|
    ensures ParentOk(Created(t, ip, dp, k, name, kind), p, j)
  {
    hide CountOk, Shaped, CleanOk, Named, Children;
    UnusedIsUnnamed(t, ip);
    if p != ip && j < |t[p].entries| {
      assert ParentOk(t, p, j);
      UnnamedInode(t, ip, p, j);
    }
  }

  lemma CreateClean(t: Tree, ip: nat, dp: nat, k: nat, name: string, kind: Kind)
    requires CanCreate(t, ip, dp, k, name, kind) && 2 <= k && t[dp].nlink > 0
    requires forall d :: 0 <= d < |t| ==> CleanOk(t[d])
    requires kind == Dir ==> t[dp].nlink < MAXLINK
    ensures forall d :: 0 <= d < |t| ==> CleanOk(Created(t, ip, dp, k, name, kind)[d])
  {
    var u := Created(t, ip, dp, k, name, kind);
    forall d | 0 <= d < |t| ensures CleanOk(u[d]) {
      assert CleanOk(t[d]);
    }
  }

  lemma CreatedCounts(t: Tree, ip: nat, dp: nat, k: nat, name: string, kind: Kind, i: nat)
    requires Inv(t) && CanCreate(t, ip, dp, k, name, kind) && 0 < i < |t|
    ensures var u := Created(t, ip, dp, k, name, kind);
            && Named(u, i) == Named(t, i) + One(i == ip)
            && Children(u, i) ==
               Children(t, i) + One(kind == Dir && i == dp) - One(IsChild(t[dp], i)) + One(IsChild(u[dp], i))
  {
    SlotIsLate(t, dp, k);
    hide Named, Children, NamesIn, ParentOk, CleanOk;
    UnusedIsUnnamed(t, ip);
    hide Inv;
    var u := Created(t, ip, dp, k, name, kind);
    assert t[ip := u[ip]][dp := u[dp]] == u;
    Change(t, ip, u[ip], i);
    Change(t[ip := u[ip]], dp, u[dp], i);
    PutNames(t[dp].entries, k, Dirent(ip, name), i);
    NewbornNames(ip, dp, kind, i);
    NoNames(i);
  }

  /** create keeps the link count of every inode, but for directories made in two kinds of parent.
      An unlinked parent counts as linked again, so that the inode its ".." names is one short. A
      parent with the largest count overflows, and no longer counts as linked. */
  lemma CreateKeepsEquationIff(t: Tree, ip: nat, dp: nat, k: nat, name: string, kind: Kind, i: nat)
    requires Inv(t) && CanCreate(t, ip, dp, k, name, kind) && 0 < i < |t|
    ensures Equation(Created(t, ip, dp, k, name, kind), i) <==>
            !(kind == Dir && t[dp].nlink <= 0 && i == DotDot(t[dp])) &&
            !(kind == Dir && t[dp].nlink == MAXLINK && i in {dp, DotDot(t[dp])})
  {
    SlotIsLate(t, dp, k);
    hide Named, Children, NamesIn, ParentOk, CleanOk;
    UnusedIsUnnamed(t, ip);
    assert CountOk(t, i) && CountOk(t, dp) && ShapeOk(t, dp);
    CountsNonNegative(t, dp);
    CreatedCounts(t, ip, dp, k, name, kind, i);
    hide Inv, ShapeOk;
    CountsNonNegative(Created(t, ip, dp, k, name, kind), i);
  }

  /** create in an unlinked directory, or a directory in one whose count is at its limit, breaks the
      invariant. With a directory a count is wrong; with a file, an unlinked directory is not empty. */
  lemma CreateBreaksInv(t: Tree, ip: nat, dp: nat, k: nat, name: string, kind: Kind)
    requires Inv(t) && CanCreate(t, ip, dp, k, name, kind) && 2 <= k
    requires t[dp].nlink <= 0 || (kind == Dir && t[dp].nlink == MAXLINK)
    ensures !Inv(Created(t, ip, dp, k, name, kind))
  {
    hide Named, Children, NamesIn, ParentOk, CountOk;
    var u := Created(t, ip, dp, k, name, kind);
    DirShape(t, dp);
    if kind == Dir {
      var i := DotDot(t[dp]);
      assert 0 < i < |t|;
      CreateKeepsEquationIff(t, ip, dp, k, name, kind, i);
      CountsEquation(u, i);
    } else {
      assert u[dp].entries[k].inum == ip;
      assert !CleanOk(u[dp]);
    }
  }

  lemma CountsEquation(t: Tree, i: nat)
    requires 0 < i < |t|
    ensures Inv(t) ==> Equation(t, i)
  {
    assert Inv(t) ==> CountOk(t, i);
  }

  lemma CreateKeepsInvIff(t: Tree, ip: nat, dp: nat, k: nat, name: string, kind: Kind)
    requires Inv(t) && CanCreate(t, ip, dp, k, name, kind)
    ensures Inv(Created(t, ip, dp, k, name, kind)) <==> t[dp].nlink > 0 && (kind == Dir ==> t[dp].nlink < MAXLINK)
  {
    hide CountOk, ParentOk, Shaped, CleanOk, CanCreate;
    assert Slot(t, dp, k) && ip < |t| by { CreateFacts(t, ip, dp, k, name, kind); }
    SlotIsLate(t, dp, k);
    if t[dp].nlink > 0 && (kind == Dir ==> t[dp].nlink < MAXLINK) {
      var u := Created(t, ip, dp, k, name, kind);
      CreateShaped(t, ip, dp, k, name, kind);
      CreateClean(t, ip, dp, k, name, kind);
      forall p, j | 0 <= p < |u| && 0 <= j < |u[p].entries| ensures ParentOk(u, p, j) {
        CreateParents(t, ip, dp, k, name, kind, p, j);
      }
      forall i | 0 < i < |u| ensures CountOk(u, i) {
        CreateCount(t, ip, dp, k, name, kind, i);
      }
    } else {
      CreateBreaksInv(t, ip, dp, k, name, kind);
    }
  }

  lemma CreateFacts(t: Tree, ip: nat, dp: nat, k: nat, name: string, kind: Kind)
    requires CanCreate(t, ip, dp, k, name, kind)
    ensures Slot(t, dp, k) && 0 < ip < |t| && ip != dp
  {
  }

  // ---- Reclaiming ----

  /** iput on the last reference to an unlinked inode frees it; no count changes. */
  lemma ReclaimKeepsInv(t: Tree, i: nat)
    requires Inv(t) && 0 < i < |t| && t[i].nlink <= 0
    ensures Inv(t[i := BLANK])
  {
    hide Named, Children, NamesIn;
    var u := t[i := BLANK];
    assert CountOk(t, i) && CleanOk(t[i]) && ShapeOk(t, i);
    CountsNonNegative(t, i);
    forall d | 0 <= d < |u| ensures ShapeOk(u, d) && CleanOk(u[d]) {
      assert ShapeOk(t, d) && CleanOk(t[d]);
    }
    forall p, j | 0 <= p < |u| && 0 <= j < |u[p].entries| ensures ParentOk(u, p, j) {
      assert ParentOk(t, p, j);
    }
    forall x | 0 < x < |u| ensures CountOk(u, x) {
      assert CountOk(t, x);
      Change(t, i, BLANK, x);
      NamesPositive(t[i].entries, x);
      NoNames(x);
    }
  }

  /** Reclaiming an unlinked inode keeps all counts right exactly when nothing is left in it but "."
      and "..": the names in it are gone, and the inodes they named keep their counts. */
  lemma ReclaimKeepsCountsIff(t: Tree, i: nat)
    requires Shaped(t) && CountsRight(t) && 0 < i < |t| && t[i].nlink == 0
    ensures CountsRight(t[i := BLANK]) <==> Deserted(t[i])
  {
    hide Named, Children, NamesIn;
    var u := t[i := BLANK];
    DirShape(t, i);
    forall x: nat | 0 < x < |t| ensures Equation(u, x) <==> NamesIn(t[i].entries, x) == 0 {
      assert Equation(t, x);
      Change(t, i, BLANK, x);
      NoNames(x);
    }
    if Deserted(t[i]) {
      forall x: nat | 0 < x < |t| ensures Equation(u, x) {
        NamesPositive(t[i].entries, x);
      }
    } else {
      var k :| 2 <= k < |t[i].entries| && t[i].entries[k].inum != 0;
      var x := t[i].entries[k].inum;
      assert Names(t[i].entries[k], x);
      NamesPositive(t[i].entries, x);
      assert !Equation(u, x);
    }
  }

  // ---- From a new file system to an unlinked directory ----

  function RootInode(): Inode { Inode(Dir, 1, [Dirent(ROOT, "."), Dirent(ROOT, "..")]) }

  /** A file system of `n` inodes with an empty root directory. */
  function NewTree(n: nat): (t: Tree)
    requires n > ROOT
    ensures |t| == n && t[ROOT] == RootInode() && forall i :: 0 <= i < n && i != ROOT ==> t[i] == BLANK
  {
    seq(n, i => if i == ROOT then RootInode() else BLANK)
  }

  lemma {:induction false} SumZero(f: nat -> int, n: nat)
    requires forall d: nat :: d < n ==> f(d) == 0
    ensures Sum(f, n) == 0
  {
    if n == 0 {
    } else {
      SumZero(f, n - 1);
    }
  }

  lemma NewTreeInv(n: nat)
    requires n > ROOT
    ensures Inv(NewTree(n))
  {
    hide NamesIn;
    var blank, t := seq(n, _ => BLANK), NewTree(n);
    assert t == blank[ROOT := RootInode()];
    forall d | 0 <= d < n ensures ShapeOk(t, d) && CleanOk(t[d]) {}
    forall i | 0 < i < n ensures CountOk(t, i) {
      NoNames(i);
      SumZero(NameAt(blank, i), n);
      SumZero(ChildAt(blank, i), n);
      Change(blank, ROOT, RootInode(), i);
      NewbornNames(ROOT, ROOT, Dir, i);
    }
  }

  /** mkdir d, then unlink d while a process is still in it. */
  function UnlinkedDir(): Tree {
    var t := Created(NewTree(4), 2, ROOT, 2, "d", Dir);
    Removed(t, ROOT, 2, 2)
  }

  lemma UnlinkedDirInv()
    ensures var u := UnlinkedDir();
            |u| == 4 && Inv(u) && u[2] == Inode(Dir, 0, [Dirent(2, "."), Dirent(ROOT, "..")]) && u[3] == BLANK
  {
    hide Inv, CountOk;
    NewTreeInv(4);
    CreateKeepsInvIff(NewTree(4), 2, ROOT, 2, "d", Dir);
    RemoveKeepsInv(Created(NewTree(4), 2, ROOT, 2, "d", Dir), ROOT, 2, 2);
  }

  /** mkdir x in it: the count of the root is one short. */
  lemma DirectoryInUnlinked()
    ensures var t := Created(UnlinkedDir(), 3, 2, 2, "x", Dir);
            CanCreate(UnlinkedDir(), 3, 2, 2, "x", Dir) && !Equation(t, ROOT) &&
            t[ROOT].nlink == Named(t, ROOT) + Children(t, ROOT) - 1
  {
    hide Inv, UnlinkedDir, Named, Children, NamesIn;
    UnlinkedDirInv();
    var u := UnlinkedDir();
    CreateKeepsEquationIff(u, 3, 2, 2, "x", Dir, ROOT);
    CountsEquation(u, ROOT);
    var t := Created(u, 3, 2, 2, "x", Dir);
    assert u[3 := t[3]][2 := t[2]] == t;
    Change(u, 3, t[3], ROOT);
    Change(u[3 := t[3]], 2, t[2], ROOT);
    PutNames(u[2].entries, 2, Dirent(3, "x"), ROOT);
    NewbornNames(3, 2, Dir, ROOT);
    NoNames(ROOT);
  }

  /** Create file x in it and leave it: reclaiming the directory leaves a file with a link and no name. */
  lemma FileInUnlinked()
    ensures var t := Created(UnlinkedDir(), 3, 2, 2, "x", File);
            var r := t[2 := BLANK];
            CanCreate(UnlinkedDir(), 3, 2, 2, "x", File) && t[2].nlink == 0 && r[3].nlink == 1 && Named(r, 3) == 0
  {
    hide Inv, UnlinkedDir, Named, Children, NamesIn;
    UnlinkedDirInv();
    var u := UnlinkedDir();
    UnusedIsUnnamed(u, 3);
    var t := Created(u, 3, 2, 2, "x", File);
    assert u[3 := t[3]][2 := t[2]] == t;
    Change(u, 3, t[3], 3);
    Change(u[3 := t[3]], 2, t[2], 3);
    Change(t, 2, BLANK, 3);
    PutNames(u[2].entries, 2, Dirent(3, "x"), 3);
    NewbornNames(2, ROOT, Dir, 3);
    NoNames(3);
  }
}
