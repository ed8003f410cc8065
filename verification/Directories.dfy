/** The directory operations of kernel/sysfile.c and kernel/fs.c with their failure paths. Path
    lookup is left to the caller: a path that does not resolve is None. Whether a directory can
    still grow by a slot is up to the environment (`space`). */
module Directories {
  import opened Common
  import opened LinkCounts
  import opened DirectoryNames

  predicate Crowded(n: Inode) { forall k :: 0 <= k < |n.entries| ==> n.entries[k].inum != 0 }

  predicate HasUnused(t: Tree) { exists i :: 1 <= i < |t| && t[i].kind == Unused }

  /** Every inode below `i` is in use. */
  predicate Lowest(t: Tree, i: nat) { forall j :: 1 <= j < i && j < |t| ==> t[j].kind != Unused }

  /** "." and ".." are never absent from a directory. */
  lemma DotsPresent(t: Tree, d: nat, name: string)
    requires Shaped(t) && 0 < d < |t| && t[d].kind == Dir && Absent(t[d], name)
    ensures !Dots(name)
  {
    assert ShapeOk(t, d);
    assert !Matches(t[d].entries[0], name) && !Matches(t[d].entries[1], name);
  }

  class Directory {
    var inodes: Tree

    /** A new file system of `n` inodes with an empty root directory. */
    constructor (n: nat)
      requires n > ROOT
      ensures inodes == NewTree(n) && Inv(inodes) && UniqueNames(inodes)
      ensures forall d: nat, s: string, i: nat :: Binds(inodes, d, s, i) <==> d == i == ROOT && (s == "." || s == "..")
    {
      NewTreeInv(n);
      inodes := NewTree(n);
      new;
      forall d: nat, s: string, i: nat
        ensures Binds(inodes, d, s, i) <==> d == i == ROOT && (s == "." || s == "..")
      {
        HeldAt(inodes[ROOT], 0);
        HeldAt(inodes[ROOT], 1);
      }
    }

    method DirLookup(d: nat, name: string) returns (k: Option<nat>)
      requires d < |inodes|
      ensures k.None? <==> Absent(inodes[d], name)
      ensures k.Some? ==> k.value < |inodes[d].entries| && Matches(inodes[d].entries[k.value], name)
    {
      var i := 0;
      while i < |inodes[d].entries|
        invariant i <= |inodes[d].entries| && forall j :: 0 <= j < i ==> !Matches(inodes[d].entries[j], name)
      {
        if inodes[d].entries[i].inum != 0 && inodes[d].entries[i].name == name {
          return Some(i);
        }
        i := i + 1;
      }
      k := None;
    }

    /** Put (name, inum) in the first empty slot, or at the end if there is space for it. */
    method DirLink(d: nat, name: string, inum: nat, space: bool) returns (ok: bool, ghost k: nat)
      requires d < |inodes|
      modifies this
      ensures ok <==> Absent(old(inodes)[d], name) && (!Crowded(old(inodes)[d]) || space)
      ensures !ok ==> inodes == old(inodes)
      ensures k <= |old(inodes)[d].entries|
      ensures ok && k < |old(inodes)[d].entries| ==> old(inodes)[d].entries[k].inum == 0
      ensures ok ==>
                inodes ==
                old(inodes)[d := old(inodes)[d].(entries := Put(old(inodes)[d].entries, k, Dirent(inum, name)))]
    {
      k := 0;
      var there := DirLookup(d, name);
      if there.Some? { return false, k; }
      var i := 0;
      while i < |inodes[d].entries| && inodes[d].entries[i].inum != 0
        invariant i <= |inodes[d].entries| && forall j :: 0 <= j < i ==> inodes[d].entries[j].inum != 0
      {
        i := i + 1;
      }
      if i == |inodes[d].entries| && !space { return false, k; }
      inodes := inodes[d := inodes[d].(entries := Put(inodes[d].entries, i, Dirent(inum, name)))];
      ok, k := true, i;
    }

    method IsDirEmpty(d: nat) returns (r: bool)
      requires d < |inodes|
      ensures r <==> Deserted(inodes[d])
    {
      var i := 2;
      while i < |inodes[d].entries|
        invariant 2 <= i && forall k :: 2 <= k < |inodes[d].entries| && k < i ==> inodes[d].entries[k].inum == 0
      {
        if inodes[d].entries[i].inum != 0 { return false; }
        i := i + 1;
      }
      r := true;
    }

    /** A fresh inode of this kind, the lowest unused one. */
    method Ialloc(kind: Kind) returns (r: Option<nat>)
      modifies this
      ensures r.None? <==> forall i :: 1 <= i < |old(inodes)| ==> old(inodes)[i].kind != Unused
      ensures r.None? ==> inodes == old(inodes)
      ensures r.Some? ==> 0 < r.value < |old(inodes)| && old(inodes)[r.value].kind == Unused
      ensures r.Some? ==> inodes == old(inodes)[r.value := Inode(kind, 0, [])]
      ensures r.Some? ==> Lowest(old(inodes), r.value)
    {
      var i := 1;
      while i < |inodes|
        invariant 1 <= i && inodes == old(inodes) && forall j :: 1 <= j < i && j < |inodes| ==> inodes[j].kind != Unused
      {
        if inodes[i].kind == Unused {
          inodes := inodes[i := Inode(kind, 0, [])];
          return Some(i);
        }
        i := i + 1;
      }
      r := None;
    }

    /** sys_link: a new name in `dp` for the file `ip`. A failure after nlink was raised takes it back. */
    method Link(ip: Option<nat>, dp: Option<nat>, name: string, sameDev: bool, space: bool)
      returns (ok: bool, ghost k: nat)
      requires Inv(inodes)
      requires ip.Some? ==> 0 < ip.value < |inodes| && inodes[ip.value].kind != Unused
      requires dp.Some? ==> 0 < dp.value < |inodes| && inodes[dp.value].kind == Dir
      modifies this
      ensures !ok ==> inodes == old(inodes)
      ensures ok ==> ip.Some? && dp.Some? && CanLink(old(inodes), ip.value, dp.value, k, name)
      ensures ok ==> inodes == Linked(old(inodes), ip.value, dp.value, k, name)
      ensures Inv(inodes) <==> (ok ==> old(inodes)[dp.value].nlink > 0 && old(inodes)[ip.value].nlink < MAXLINK)
      ensures ok <==> ip.Some? && dp.Some? && sameDev && old(inodes)[ip.value].kind != Dir &&
                      Absent(old(inodes)[dp.value], name) && (!Crowded(old(inodes)[dp.value]) || space)
      ensures ok ==> forall d: nat, n: string, i: nat ::
                       Binds(inodes, d, n, i) <==>
                       Binds(old(inodes), d, n, i) || (d == dp.value && n == name && i == ip.value)
      ensures UniqueNames(old(inodes)) ==> UniqueNames(inodes)
    {
      hide Inv, CanLink, Shaped, UniqueNames, Binds;
      k := 0;
      if ip.None? { return false, k; }
      var i := ip.value;
      if inodes[i].kind == Dir { return false, k; }
      inodes := inodes[i := inodes[i].(nlink := Up(inodes[i].nlink))];
      if dp.Some? && sameDev {
        ok, k := DirLink(dp.value, name, i, space);
        if ok {
          ghost var t := old(inodes);
          assert t[dp.value] == t[i := t[i].(nlink := Up(t[i].nlink))][dp.value];
          InvShaped(t);
          DotsPresent(t, dp.value, name);
          assert CanLink(t, i, dp.value, k, name) by { LinkReady(t, i, dp.value, k, name); }
          LinkKeepsInvIff(t, i, dp.value, k, name);
          LinkNames(t, i, dp.value, k, name);
          return;
        }
      }
      inodes := inodes[i := inodes[i].(nlink := Down(inodes[i].nlink))];
      ok := false;
    }

    /** sys_unlink: the name is removed, unless it is a dot name, absent, or a non-empty directory. */
    method Unlink(dp: Option<nat>, name: string) returns (ok: bool, ghost k: nat)
      requires Inv(inodes) && (dp.Some? ==> 0 < dp.value < |inodes| && inodes[dp.value].kind == Dir)
      modifies this
      ensures Inv(inodes)
      ensures !ok ==> inodes == old(inodes)
      ensures ok ==> dp.Some? && k < |old(inodes)[dp.value].entries| && old(inodes)[dp.value].entries[k].name == name
      ensures ok ==> CanRemove(old(inodes), dp.value, k, old(inodes)[dp.value].entries[k].inum)
      ensures ok ==> inodes == Removed(old(inodes), dp.value, k, old(inodes)[dp.value].entries[k].inum)
      ensures dp.Some? && !Dots(name) && !Absent(old(inodes)[dp.value], name) && !ok ==>
                exists i :: 0 <= i < |inodes| && Holds(inodes[dp.value], name, i) &&
                            inodes[i].kind == Dir && !Deserted(inodes[i])
      ensures ok && UniqueNames(old(inodes)) ==>
                forall d: nat, n: string, i: nat ::
                  Binds(inodes, d, n, i) <==> Binds(old(inodes), d, n, i) && !(d == dp.value && n == name)
      ensures UniqueNames(old(inodes)) ==> UniqueNames(inodes)
    {
      hide Inv, UniqueNames, Binds;
      k := 0;
      if dp.None? { return false, k; }
      var d := dp.value;
      if name == "." || name == ".." { return false, k; }
      var slot := DirLookup(d, name);
      if slot.None? { return false, k; }
      var j := slot.value;
      var i := inodes[d].entries[j].inum;
      EntryInRange(inodes, d, j);
      assert Holds(inodes[d], name, i);
      if inodes[i].kind == Dir {
        var empty := IsDirEmpty(i);
        if !empty { return false, k; }
      }
      ghost var t := inodes;
      assert CanRemove(t, d, j, i);
      NamedIsLinked(t, d, j, i);
      RemoveKeepsInv(t, d, j, i);
      RemoveDistinct(t, d, j, i);
      inodes := inodes[d := inodes[d].(entries := inodes[d].entries[j := Dirent(0, "")])];
      if inodes[i].kind == Dir {
        inodes := inodes[d := inodes[d].(nlink := Down(inodes[d].nlink))];
      }
      inodes := inodes[i := inodes[i].(nlink := Down(inodes[i].nlink))];
      assert inodes == Removed(t, d, j, i);
      if UniqueNames(t) {
        RemoveNames(t, d, j, i);
      }
      ok, k := true, j;
    }

    /** create: a new inode under a new name, or the file that is there already. Failing halfway
        leaves nothing behind. */
    method Create(dp: Option<nat>, name: string, kind: Kind, s1: bool, s2: bool, s3: bool)
      returns (r: Option<nat>, created: bool, ghost k: nat)
      requires Inv(inodes) && kind != Unused && (dp.Some? ==> 0 < dp.value < |inodes| && inodes[dp.value].kind == Dir)
      modifies this
      ensures !created ==> inodes == old(inodes)
      ensures created ==> r.Some? && dp.Some? && CanCreate(old(inodes), r.value, dp.value, k, name, kind)
      ensures created ==>
                Absent(old(inodes)[dp.value], name) &&
                inodes == Created(old(inodes), r.value, dp.value, k, name, kind)
      ensures created ==> Lowest(old(inodes), r.value)
      ensures created <==> dp.Some? && Absent(old(inodes)[dp.value], name) && HasUnused(old(inodes)) &&
                           (kind == Dir ==> s1 && s2) && (!Crowded(old(inodes)[dp.value]) || s3)
      ensures r.Some? && !created ==>
                dp.Some? && kind == File && r.value < |inodes| && inodes[r.value].kind in {File, Device}
      ensures r.Some? && !created ==> Holds(inodes[dp.value], name, r.value)
      ensures Inv(inodes) <==>
                (created ==> old(inodes)[dp.value].nlink > 0 && (kind == Dir ==> old(inodes)[dp.value].nlink < MAXLINK))
      ensures created ==> forall d: nat, n: string, i: nat ::
                            Binds(inodes, d, n, i) <==>
                            || Binds(old(inodes), d, n, i)
                            || (d == dp.value && n == name && i == r.value)
                            || (d == r.value && kind == Dir &&
                                ((n == "." && i == r.value) || (n == ".." && i == dp.value)))
      ensures UniqueNames(old(inodes)) ==> UniqueNames(inodes)
    {
      hide Inv, CanCreate, Shaped, UniqueNames, Binds;
      r, created, k := None, false, 0;
      if dp.None? { return; }
      var d := dp.value;
      ghost var t := inodes;
      var slot := DirLookup(d, name);
      if slot.Some? {
        var i := inodes[d].entries[slot.value].inum;
        EntryInRange(inodes, d, slot.value);
        if kind == File && (inodes[i].kind == File || inodes[i].kind == Device) {
          r := Some(i);
        }
        return;
      }
      InvShaped(t);
      DotsPresent(t, d, name);
      var ip := Ialloc(kind);
      if ip.None? { return; }
      var i := ip.value;
      UnusedIsUnnamed(t, i);
      var ok := FillNewInode(i, d, kind, s1, s2);
      if ok {
        ok, k := DirLink(d, name, i, s3);
      }
      if !ok {
        inodes := inodes[i := BLANK];
        assert inodes == t;
        return;
      }
      if kind == Dir {
        inodes := inodes[d := inodes[d].(nlink := Up(inodes[d].nlink))];
      }
      r, created := Some(i), true;
      assert inodes == Created(t, i, d, k, name, kind);
      CreateReady(t, i, d, k, name, kind);
      CreateKeepsInvIff(t, i, d, k, name, kind);
      CreateNames(t, i, d, k, name, kind);
    }

    /** create's first half on the new inode: one link, and for a directory "." and "..". */
    method FillNewInode(i: nat, d: nat, kind: Kind, s1: bool, s2: bool) returns (ok: bool)
      requires 0 < i < |inodes| && inodes[i] == Inode(kind, 0, [])
      modifies this
      ensures |inodes| == |old(inodes)| && inodes == old(inodes)[i := inodes[i]]
      ensures ok ==> inodes[i] == Newborn(i, d, kind)
      ensures ok <==> kind != Dir || (s1 && s2)
    {
      inodes := inodes[i := inodes[i].(nlink := 1)];
      ok := true;
      ghost var at;
      if kind == Dir {
        ok, at := DirLink(i, ".", i, s1);
        if ok {
          assert inodes[i].entries == [Dirent(i, ".")];
          ok, at := DirLink(i, "..", d, s2);
        }
      }
    }

    /** iput on the last reference: an unlinked inode is truncated and freed. All counts stay
        right exactly when the inode was linked or nothing was left in it. */
    method Iput(i: nat)
      requires Shaped(inodes) && 0 < i < |inodes|
      modifies this
      ensures inodes == if old(inodes)[i].nlink == 0 then old(inodes)[i := BLANK] else old(inodes)
      ensures old(Inv(inodes)) ==> Inv(inodes)
      ensures old(CountsRight(inodes)) ==>
                (CountsRight(inodes) <==> old(inodes)[i].nlink != 0 || Deserted(old(inodes)[i]))
      ensures forall d: nat, n: string, j: nat ::
                Binds(inodes, d, n, j) <==> Binds(old(inodes), d, n, j) && (d == i ==> old(inodes)[i].nlink != 0)
      ensures UniqueNames(old(inodes)) ==> UniqueNames(inodes)
    {
      hide Inv, CountsRight, Shaped;
      if inodes[i].nlink == 0 {
        if Inv(inodes) {
          ReclaimKeepsInv(inodes, i);
        }
        if CountsRight(inodes) {
          ReclaimKeepsCountsIff(inodes, i);
        }
        inodes := inodes[i := BLANK];
      }
    }
  }

  lemma EntryInRange(t: Tree, d: nat, k: nat)
    requires Inv(t) && d < |t| && k < |t[d].entries|
    ensures t[d].entries[k].inum < |t|
  {
    assert ShapeOk(t, d);
  }

  lemma InvShaped(t: Tree)
    requires Inv(t)
    ensures Shaped(t)
  {
  }

  lemma LinkReady(t: Tree, ip: nat, dp: nat, k: nat, name: string)
    requires Slot(t, dp, k) && 0 < ip < |t| && t[ip].kind in {File, Device} && !Dots(name)
    ensures CanLink(t, ip, dp, k, name)
  {
  }

  lemma CreateReady(t: Tree, ip: nat, dp: nat, k: nat, name: string, kind: Kind)
    requires Slot(t, dp, k) && 0 < ip < |t| && 0 < dp && t[ip].kind == Unused && kind != Unused && !Dots(name)
    ensures CanCreate(t, ip, dp, k, name, kind)
  {
  }

  lemma RemoveDistinct(t: Tree, dp: nat, k: nat, ip: nat)
    requires Inv(t) && CanRemove(t, dp, k, ip)
    ensures dp != ip
  {
    RemoveFacts(t, dp, k, ip);
  }
}
