/** A file system in which one more link makes the count of a file negative. The names are different
    in each directory, and of three letters; two directories hold them, since one is too small. */
module LinkOverflow {
  import opened Common
  import opened LinkCounts
  import opened Directories
  import opened DirectoryNames

  /** Names per directory: a directory of the largest file has room for 17152 entries. */
  const HALF := 16384

  const FILE := 4

  function Letter(x: nat): char
    requires x < 26
  {
    ('a' as int + x) as char
  }

  function NameOf(j: nat): string
    requires j < HALF
  {
    [Letter(j / 676), Letter(j / 26 % 26), Letter(j % 26)]
  }

  lemma LettersDiffer(x: nat, y: nat)
    requires x < 26 && y < 26 && Letter(x) == Letter(y)
    ensures x == y
  {
    assert Letter(x) as int == 'a' as int + x && Letter(y) as int == 'a' as int + y;
  }

  lemma NamesDiffer(i: nat, j: nat)
    requires i < HALF && j < HALF && NameOf(i) == NameOf(j)
    ensures i == j
  {
    assert NameOf(i)[0] == NameOf(j)[0] && NameOf(i)[1] == NameOf(j)[1] && NameOf(i)[2] == NameOf(j)[2];
    LettersDiffer(i / 676, j / 676);
    LettersDiffer(i / 26 % 26, j / 26 % 26);
    LettersDiffer(i % 26, j % 26);
    ThreeDigits(i);
    ThreeDigits(j);
  }

  lemma ThreeDigits(j: nat)
    ensures j == j / 676 * 676 + j / 26 % 26 * 26 + j % 26
  {
    assert j / 26 / 26 == j / 676;
  }

  function NameEntry(j: nat): Dirent
    requires j < HALF
  {
    Dirent(FILE, NameOf(j))
  }

  /** A directory in the root with the first `m` names for the file. */
  function Listing(d: nat, m: nat): (r: seq<Dirent>)
    requires m <= HALF
    ensures |r| == m + 2
  {
    [Dirent(d, "."), Dirent(ROOT, "..")] + seq(m, (j: nat) requires j < m => NameEntry(j))
  }

  lemma NameIsNew(d: nat, m: nat, n: Inode)
    requires m < HALF && 0 < d && n.entries == Listing(d, m)
    ensures Absent(n, NameOf(m)) && Crowded(n)
    ensures Put(n.entries, |n.entries|, Dirent(FILE, NameOf(m))) == Listing(d, m + 1)
  {
    forall k | 0 <= k < |n.entries| ensures !Matches(n.entries[k], NameOf(m)) && n.entries[k].inum != 0 {
      if k < 2 {
        assert |n.entries[k].name| < |NameOf(m)|;
      } else {
        assert n.entries[k] == NameEntry(k - 2);
        if NameOf(k - 2) == NameOf(m) {
          NamesDiffer(k - 2, m);
        }
      }
    }
  }

  /** The file has `n` names more than its first, in directory 2 and then in directory 3. */
  ghost predicate HasNames(t: Tree, n: nat) {
    && |t| == 5 && n <= 2 * HALF && n < MAXLINK && t[FILE] == Inode(File, n + 1, [])
    && t[2] == Inode(Dir, 1, Listing(2, if n < HALF then n else HALF))
    && t[3] == Inode(Dir, 1, Listing(3, if n < HALF then 0 else n - HALF))
  }

  /** create in the root, when inode `i` is the lowest unused one. */
  method CreateInRoot(d: Directory, i: nat, name: string, kind: Kind)
    requires Inv(d.inodes) && ROOT < i < |d.inodes| && d.inodes[i].kind == Unused && Lowest(d.inodes, i)
    requires kind != Unused && Absent(d.inodes[ROOT], name) && Crowded(d.inodes[ROOT]) && 0 < d.inodes[ROOT].nlink < 10
    modifies d
    ensures Inv(d.inodes) && d.inodes == old(d.inodes)[ROOT := d.inodes[ROOT]][i := Newborn(i, ROOT, kind)]
    ensures d.inodes[ROOT].entries == old(d.inodes)[ROOT].entries + [Dirent(i, name)]
    ensures d.inodes[ROOT].kind == Dir && 0 < d.inodes[ROOT].nlink <= old(d.inodes)[ROOT].nlink + 1
  {
    ghost var t := d.inodes;
    RootIsDir(t);
    hide Inv;
    var r, created;
    ghost var k;
    assert HasUnused(t);
    r, created, k := d.Create(Some(ROOT), name, kind, true, true, true);
    assert r.value == i;
    assert k == |t[ROOT].entries|;
  }

  lemma RootIsDir(t: Tree)
    requires Inv(t)
    ensures |t| > ROOT && t[ROOT].kind == Dir
  {
  }

  /** mkdir a, mkdir b, and a file c. */
  method Setup() returns (d: Directory)
    ensures fresh(d) && Inv(d.inodes) && HasNames(d.inodes, 0)
  {
    hide Inv;
    d := new Directory(5);
    CreateInRoot(d, 2, "a", Dir);
    CreateInRoot(d, 3, "b", Dir);
    CreateInRoot(d, FILE, "c", File);
  }

  method LinkNext(d: Directory, n: nat) returns (ok: bool)
    requires Inv(d.inodes) && HasNames(d.inodes, n) && n < 2 * HALF
    modifies d
    ensures ok && |d.inodes| == 5 && d.inodes[FILE].nlink == Up(n + 1)
    ensures Inv(d.inodes) <==> n + 1 < MAXLINK
    ensures n + 1 < MAXLINK ==> HasNames(d.inodes, n + 1)
  {
    hide Inv, Listing, NameOf;
    var dp, m := if n < HALF then 2 else 3, if n < HALF then n else n - HALF;
    NameIsNew(dp, m, d.inodes[dp]);
    ghost var t, k := d.inodes, 0;
    ok, k := d.Link(Some(FILE), Some(dp), NameOf(m), true, true);
    assert k == |t[dp].entries|;
  }

  /** 32767 names for the file, and then one more. */
  method WrapAround() returns (d: Directory, ok: bool)
    ensures ok && |d.inodes| == 5 && d.inodes[FILE].nlink == -32768 && !Inv(d.inodes)
  {
    hide Inv, Listing;
    d := Setup();
    var n := 0;
    while n + 1 < MAXLINK
      invariant 0 <= n < MAXLINK && Inv(d.inodes) && HasNames(d.inodes, n)
    {
      ok := LinkNext(d, n);
      n := n + 1;
    }
    ok := LinkNext(d, n);
  }
}
