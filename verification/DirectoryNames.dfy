/** What the names of the directories stand for, and how link, unlink, create and iput change it. */
module DirectoryNames {
  import opened Common
  import opened LinkCounts

  predicate Matches(e: Dirent, name: string) { e.inum != 0 && e.name == name }

  predicate Absent(n: Inode, name: string) { forall k :: 0 <= k < |n.entries| ==> !Matches(n.entries[k], name) }

  predicate Holds(n: Inode, name: string, i: nat) {
    exists k :: 0 <= k < |n.entries| && Matches(n.entries[k], name) && n.entries[k].inum == i
  }

  /** In directory `d` the name stands for inode `i`. */
  predicate Binds(t: Tree, d: nat, name: string, i: nat) { d < |t| && Holds(t[d], name, i) }

  /** No name occurs twice among the entries in use. */
  predicate Unique(n: Inode) {
    forall j, k :: 0 <= j < k < |n.entries| && n.entries[j].inum != 0 && n.entries[k].inum != 0 ==>
      n.entries[j].name != n.entries[k].name
  }

  predicate UniqueNames(t: Tree) { forall d :: 0 <= d < |t| ==> Unique(t[d]) }

  /** Then a name stands for one inode. */
  lemma BoundOnce(t: Tree, d: nat, name: string, i: nat, j: nat)
    requires UniqueNames(t) && Binds(t, d, name, i) && Binds(t, d, name, j)
    ensures i == j
  {
    assert Unique(t[d]);
  }

  lemma HeldAt(n: Inode, k: nat)
    requires k < |n.entries| && n.entries[k].inum != 0
    ensures Holds(n, n.entries[k].name, n.entries[k].inum)
  {
    assert Matches(n.entries[k], n.entries[k].name);
  }

  /** An entry in an empty slot adds what it says. */
  lemma PutHolds(n: Inode, m: Inode, k: nat, e: Dirent, name: string, i: nat)
    requires k <= |n.entries| && (k < |n.entries| ==> n.entries[k].inum == 0) && e.inum != 0
    requires m.entries == Put(n.entries, k, e)
    ensures Holds(m, name, i) <==> Holds(n, name, i) || (name == e.name && i == e.inum)
  {
    if Holds(n, name, i) {
      var j :| 0 <= j < |n.entries| && Matches(n.entries[j], name) && n.entries[j].inum == i;
      assert m.entries[j] == n.entries[j];
    }
    assert m.entries[k] == e;
    HeldAt(m, k);
    if Holds(m, name, i) {
      var j :| 0 <= j < |m.entries| && Matches(m.entries[j], name) && m.entries[j].inum == i;
      assert j != k ==> n.entries[j] == m.entries[j];
    }
  }

  lemma PutUnique(n: Inode, m: Inode, k: nat, e: Dirent)
    requires Unique(n) && Absent(n, e.name) && k <= |n.entries| && m.entries == Put(n.entries, k, e)
    ensures Unique(m)
  {
    forall j | 0 <= j < |m.entries| && j != k && m.entries[j].inum != 0
      ensures m.entries[j].name != e.name
    {
      assert !Matches(n.entries[j], e.name);
    }
  }

  /** An emptied slot takes what it said away, and of a unique name nothing is left. */
  lemma EmptiedHolds(n: Inode, m: Inode, k: nat, name: string, i: nat)
    requires Unique(n) && k < |n.entries| && n.entries[k].inum != 0 && m.entries == n.entries[k := Dirent(0, "")]
    ensures Holds(m, name, i) <==> Holds(n, name, i) && name != n.entries[k].name
    ensures Unique(m)
  {
    if Holds(n, name, i) && name != n.entries[k].name {
      var j :| 0 <= j < |n.entries| && Matches(n.entries[j], name) && n.entries[j].inum == i;
      assert m.entries[j] == n.entries[j];
    }
    if Holds(m, name, i) {
      var j :| 0 <= j < |m.entries| && Matches(m.entries[j], name) && m.entries[j].inum == i;
      assert n.entries[j] == m.entries[j];
    }
  }

  /** After link the new name stands for the file, and every other one for what it did. */
  lemma LinkBinds(t: Tree, ip: nat, dp: nat, k: nat, name: string, d: nat, n: string, i: nat)
    requires CanLink(t, ip, dp, k, name)
    ensures Binds(Linked(t, ip, dp, k, name), d, n, i) <==>
            Binds(t, d, n, i) || (d == dp && n == name && i == ip)
  {
    if d == dp {
      PutHolds(t[dp], Linked(t, ip, dp, k, name)[dp], k, Dirent(ip, name), n, i);
    }
  }

  lemma LinkUnique(t: Tree, ip: nat, dp: nat, k: nat, name: string)
    requires CanLink(t, ip, dp, k, name) && Absent(t[dp], name) && UniqueNames(t)
    ensures UniqueNames(Linked(t, ip, dp, k, name))
  {
    var u := Linked(t, ip, dp, k, name);
    forall d | 0 <= d < |t| ensures Unique(u[d]) {
      assert Unique(t[d]);
      if d == dp {
        PutUnique(t[dp], u[dp], k, Dirent(ip, name));
      }
    }
  }

  /** After unlink the name is gone, and every other one stands for what it did. */
  lemma RemoveBinds(t: Tree, dp: nat, k: nat, ip: nat, d: nat, n: string, i: nat)
    requires CanRemove(t, dp, k, ip) && ip != dp && UniqueNames(t)
    ensures Binds(Removed(t, dp, k, ip), d, n, i) <==>
            Binds(t, d, n, i) && !(d == dp && n == t[dp].entries[k].name)
  {
    if d == dp {
      assert Unique(t[dp]);
      EmptiedHolds(t[dp], Removed(t, dp, k, ip)[dp], k, n, i);
    }
  }

  lemma RemoveUnique(t: Tree, dp: nat, k: nat, ip: nat)
    requires CanRemove(t, dp, k, ip) && ip != dp && UniqueNames(t)
    ensures UniqueNames(Removed(t, dp, k, ip))
  {
    var u := Removed(t, dp, k, ip);
    forall d | 0 <= d < |t| ensures Unique(u[d]) {
      assert Unique(t[d]);
      if d == dp {
        EmptiedHolds(t[dp], u[dp], k, "", 0);
      }
    }
  }

  /** After create the name stands for the new inode, which knows itself and its parent if it is a
      directory and nothing otherwise; every other name stands for what it did. */
  lemma CreateBinds(t: Tree, ip: nat, dp: nat, k: nat, name: string, kind: Kind, d: nat, n: string, i: nat)
    requires Shaped(t) && CanCreate(t, ip, dp, k, name, kind)
    ensures Binds(Created(t, ip, dp, k, name, kind), d, n, i) <==>
            || Binds(t, d, n, i)
            || (d == dp && n == name && i == ip)
            || (d == ip && kind == Dir && ((n == "." && i == ip) || (n == ".." && i == dp)))
  {
    assert ShapeOk(t, ip);
    var u := Created(t, ip, dp, k, name, kind);
    if d == dp {
      PutHolds(t[dp], u[dp], k, Dirent(ip, name), n, i);
    } else if d == ip && kind == Dir {
      HeldAt(u[ip], 0);
      HeldAt(u[ip], 1);
    }
  }

  lemma CreateUnique(t: Tree, ip: nat, dp: nat, k: nat, name: string, kind: Kind)
    requires CanCreate(t, ip, dp, k, name, kind) && Absent(t[dp], name) && UniqueNames(t)
    ensures UniqueNames(Created(t, ip, dp, k, name, kind))
  {
    var u := Created(t, ip, dp, k, name, kind);
    forall d | 0 <= d < |t| ensures Unique(u[d]) {
      assert Unique(t[d]);
      if d == dp {
        PutUnique(t[dp], u[dp], k, Dirent(ip, name));
      } else if d == ip {
        assert u[d] == Newborn(ip, dp, kind);
      }
    }
  }

  // ---- For every name at once ----

  lemma LinkNames(t: Tree, ip: nat, dp: nat, k: nat, name: string)
    requires CanLink(t, ip, dp, k, name) && Absent(t[dp], name)
    ensures forall d: nat, n: string, i: nat ::
              Binds(Linked(t, ip, dp, k, name), d, n, i) <==>
              Binds(t, d, n, i) || (d == dp && n == name && i == ip)
    ensures UniqueNames(t) ==> UniqueNames(Linked(t, ip, dp, k, name))
  {
    forall d: nat, n: string, i: nat
      ensures Binds(Linked(t, ip, dp, k, name), d, n, i) <==>
              Binds(t, d, n, i) || (d == dp && n == name && i == ip)
    {
      LinkBinds(t, ip, dp, k, name, d, n, i);
    }
    if UniqueNames(t) {
      LinkUnique(t, ip, dp, k, name);
    }
  }

  lemma RemoveNames(t: Tree, dp: nat, k: nat, ip: nat)
    requires CanRemove(t, dp, k, ip) && ip != dp && UniqueNames(t)
    ensures forall d: nat, n: string, i: nat ::
              Binds(Removed(t, dp, k, ip), d, n, i) <==>
              Binds(t, d, n, i) && !(d == dp && n == t[dp].entries[k].name)
    ensures UniqueNames(Removed(t, dp, k, ip))
  {
    forall d: nat, n: string, i: nat
      ensures Binds(Removed(t, dp, k, ip), d, n, i) <==>
              Binds(t, d, n, i) && !(d == dp && n == t[dp].entries[k].name)
    {
      RemoveBinds(t, dp, k, ip, d, n, i);
    }
    RemoveUnique(t, dp, k, ip);
  }

  lemma CreateNames(t: Tree, ip: nat, dp: nat, k: nat, name: string, kind: Kind)
    requires Shaped(t) && CanCreate(t, ip, dp, k, name, kind) && Absent(t[dp], name)
    ensures forall d: nat, n: string, i: nat ::
              Binds(Created(t, ip, dp, k, name, kind), d, n, i) <==>
              || Binds(t, d, n, i)
              || (d == dp && n == name && i == ip)
              || (d == ip && kind == Dir && ((n == "." && i == ip) || (n == ".." && i == dp)))
    ensures UniqueNames(t) ==> UniqueNames(Created(t, ip, dp, k, name, kind))
  {
    forall d: nat, n: string, i: nat
      ensures Binds(Created(t, ip, dp, k, name, kind), d, n, i) <==>
              || Binds(t, d, n, i)
              || (d == dp && n == name && i == ip)
              || (d == ip && kind == Dir && ((n == "." && i == ip) || (n == ".." && i == dp)))
    {
      CreateBinds(t, ip, dp, k, name, kind, d, n, i);
    }
    if UniqueNames(t) {
      CreateUnique(t, ip, dp, k, name, kind);
    }
  }
}
