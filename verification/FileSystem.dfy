/** Block allocation, block mapping, truncation and file contents in kernel/fs.c, and the split
    of a write into transactions in kernel/file.c. `disk` is the block map that the log and the
    buffer cache serve, and `logged` the blocks that log_write has recorded since begin_op. */
module FileSystem {
  import opened Common
  import opened Blocks
  import opened Bitmap
  import opened Inodes
  import opened Dinodes
  import CrashSafety

  // ---- Files on the disk ----

  ghost function StoredInode(sb: Super, d: seq<Block>, j: nat): Inode
    requires SuperOk(sb) && |d| == sb.size && j < sb.ninodes
  {
    InodeBlocks(sb, j);
    Dinode(d[IBlock(sb, j)], j)
  }

  /** The inodes that the inode blocks hold. */
  ghost function StoredInodes(sb: Super, d: seq<Block>): (r: seq<Inode>)
    requires SuperOk(sb) && |d| == sb.size
    ensures |r| == sb.ninodes && forall j :: 0 <= j < sb.ninodes ==> r[j] == StoredInode(sb, d, j)
  {
    seq(sb.ninodes, j requires 0 <= j < sb.ninodes => StoredInode(sb, d, j))
  }

  lemma InodesAreStored(sb: Super, d: seq<Block>, j: nat)
    requires SuperOk(sb) && |d| == sb.size && j < sb.ninodes
    ensures StoredAt(sb, d, StoredInodes(sb, d), j)
  {
    hide Dinode;
    InodeBlocks(sb, j);
  }

  /** The disk alone is a file system in order: every block that an inode names belongs to one slot
      of one inode, exactly these blocks are marked, and no file has a hole. */
  ghost predicate Sound(sb: Super, d: seq<Block>) {
    && SuperOk(sb) && |d| == sb.size
    && var ns := StoredInodes(sb, d);
    && Shape(sb, d, ns) && (exists owner :: Ownership(sb, d, ns, owner))
    && forall i :: 0 <= i < |ns| ==> FilledTo(d, ns[i], ns[i].size)
  }

  /** The contents of file `i` as the disk has them. */
  ghost function FileOn(sb: Super, d: seq<Block>, i: nat): seq<byte>
    requires Sound(sb, d) && i < sb.ninodes
  {
    var ip := StoredInodes(sb, d)[i];
    Bytes(d, ip, ip.size)
  }

  /** Disk `e` is in order, file `i` holds `c`, every other file what it holds on disk `d`, and all have
      the types and link counts they have there. */
  ghost predicate FilesAre(sb: Super, e: seq<Block>, d: seq<Block>, i: nat, c: seq<byte>) {
    && Sound(sb, d) && Sound(sb, e) && i < sb.ninodes && FileOn(sb, e, i) == c
    && (forall j: nat :: j < sb.ninodes && j != i ==> FileOn(sb, e, j) == FileOn(sb, d, j))
    && forall j: nat :: j < sb.ninodes ==> SameKind(StoredInodes(sb, e)[j], StoredInodes(sb, d)[j])
  }

  lemma AllStored(sb: Super, d: seq<Block>)
    requires SuperOk(sb) && |d| == sb.size
    ensures StoredBut(sb, d, StoredInodes(sb, d), sb.ninodes)
  {
    forall j: nat | j < sb.ninodes ensures StoredAt(sb, d, StoredInodes(sb, d), j) {
      InodesAreStored(sb, d, j);
    }
  }

  lemma StoredIs(sb: Super, d: seq<Block>, ns: seq<Inode>)
    requires SuperOk(sb) && |d| == sb.size && |ns| == sb.ninodes && StoredBut(sb, d, ns, |ns|)
    ensures StoredInodes(sb, d) == ns
  {
    hide Dinode;
    forall j: nat | j < |ns| ensures StoredInodes(sb, d)[j] == ns[j] {
      InodesAreStored(sb, d, j);
      assert StoredAt(sb, d, ns, j);
    }
  }

  /** Whether a disk is in order, and what its files hold, is all in the blocks behind the log. */
  lemma SoundBehindTheLog(sb: Super, d: seq<Block>, e: seq<Block>)
    requires Sound(sb, d) && |e| == |d| && forall b :: sb.inodestart <= b < |d| ==> e[b] == d[b]
    ensures Sound(sb, e) && StoredInodes(sb, e) == StoredInodes(sb, d)
    ensures forall j: nat :: j < sb.ninodes ==> FileOn(sb, e, j) == FileOn(sb, d, j)
  {
    hide Dinode, OwnershipUpTo, FilledTo, Bytes, IBlock;
    var ns := StoredInodes(sb, d);
    forall j: nat | j < |ns| ensures StoredAt(sb, e, ns, j) {
      InodeBlocks(sb, j);
      InodesAreStored(sb, d, j);
    }
    StoredIs(sb, e, ns);
    var owner :| Ownership(sb, d, ns, owner);
    assert sb.inodestart <= sb.bmapstart <= sb.datastart;
    hide SuperOk;
    BitmapAndDataDecide(sb, d, ns, owner, e);
    forall j: nat | j < sb.ninodes ensures SameFile(d, ns, e, ns, j) {
      OutsideDataKeepsFile(sb, d, ns, owner, e, ns, j);
    }
    assert Sound(sb, e) by {
      forall j | 0 <= j < |ns| ensures FilledTo(e, ns[j], ns[j].size) {
        assert SameFile(d, ns, e, ns, j);
      }
    }
    forall j: nat | j < sb.ninodes ensures FileOn(sb, e, j) == FileOn(sb, d, j) {
      assert SameFile(d, ns, e, ns, j);
    }
  }

  /** A write that starts past the end of the file changes nothing. */
  function Written(c: seq<byte>, off: nat, src: seq<byte>): seq<byte> {
    if off <= |c| then Splice(c, off, src) else c
  }

  /** One transaction of filewrite: the disk before and after, the blocks it logged before the
      inode and in all, and how much of the write was done before and after. */
  datatype Txlog = Txlog(before: seq<Block>, after: seq<Block>, early: set<nat>, logged: set<nat>, from: nat, to: nat)

  /** All but the inode's block leave one log block to spare, so the inode is the tenth at most. */
  ghost predicate FitsTheLog(sb: Super, i: nat, early: set<nat>, logged: set<nat>) {
    && |early| <= CrashSafety.MAXOPBLOCKS - 1 && |logged| <= CrashSafety.MAXOPBLOCKS
    && logged <= early + {IBlock(sb, i)}
  }

  /** Every block that differs is logged, and only inode, bitmap and data blocks are. */
  ghost predicate OnlyLogged(sb: Super, d: seq<Block>, e: seq<Block>, logged: set<nat>) {
    && |d| == |e| && (forall b :: 0 <= b < |d| && b !in logged ==> e[b] == d[b])
    && forall b :: b in logged ==> sb.inodestart <= b < |d|
  }

  /** The transaction fits the log and logs all it changes. Before and after it the disk is in order,
      the file holds a prefix of the write over `c`, and every other file is as on disk `d`. */
  ghost predicate TxlogOk(sb: Super, i: nat, d: seq<Block>, c: seq<byte>, off: nat, src: seq<byte>, x: Txlog) {
    && x.from <= x.to <= |src|
    && FitsTheLog(sb, i, x.early, x.logged) && OnlyLogged(sb, x.before, x.after, x.logged)
    && FilesAre(sb, x.before, d, i, Written(c, off, src[..x.from]))
    && FilesAre(sb, x.after, d, i, Written(c, off, src[..x.to]))
  }

  /** A write of `n` bytes goes in portions of three blocks, the last of which may be shorter. */
  ghost predicate Portions(xs: seq<Txlog>, n: nat) {
    forall t :: 0 <= t < |xs| ==>
      && xs[t].from == 3072 * t < n
      && xs[t].to == if 3072 * t + 3072 < n then 3072 * t + 3072 else n
  }

  lemma PortionsNone(n: nat)
    ensures Portions([], n)
  {
  }

  lemma PortionsMore(xs: seq<Txlog>, n: nat, x: Txlog)
    requires Portions(xs, n) && x.from == 3072 * |xs| < n
    ensures (xs + [x])[..|xs|] == xs
    ensures x.to == (if x.from + 3072 < n then x.from + 3072 else n) ==> Portions(xs + [x], n)
  {
  }

  /** Transactions one after the other, from disk `d` to disk `e`. */
  ghost predicate Chained(d: seq<Block>, e: seq<Block>, xs: seq<Txlog>)
    decreases |xs|
  {
    if xs == [] then d == e
    else xs[|xs| - 1].after == e && Chained(d, xs[|xs| - 1].before, xs[..|xs| - 1])
  }

  // ---- An empty file system ----

  function EmptyInode(): Inode { Inode(0, 0, 0, seq(NDIRECT + 1, _ => 0)) }

  /** A zeroed disk with the first `n` blocks marked in the free map. */
  function EmptyDisk(sb: Super, n: nat): (d: seq<Block>)
    requires SuperOk(sb) && n <= sb.datastart
    ensures |d| == sb.size
  {
    if n == 0 then seq(sb.size, _ => Zeros())
    else BitmapBeforeData(sb, n - 1); MarkUsed(sb, EmptyDisk(sb, n - 1), n - 1)
  }

  function EmptyInodes(sb: Super): (r: seq<Inode>)
    ensures |r| == sb.ninodes && forall i :: 0 <= i < sb.ninodes ==> r[i] == EmptyInode()
  {
    seq(sb.ninodes, _ => EmptyInode())
  }

  lemma {:induction false} EmptyDiskMarks(sb: Super, n: nat, b: nat)
    requires SuperOk(sb) && n <= sb.datastart && b < sb.size
    ensures Used(sb, EmptyDisk(sb, n), b) <==> b < n
    decreases n
  {
    BitmapBeforeData(sb, b);
    if n == 0 {
      NoBits(b % BPB);
    } else {
      hide Used;
      BitmapBeforeData(sb, n - 1);
      EmptyDiskMarks(sb, n - 1, b);
      MarksAreExact(sb, EmptyDisk(sb, n - 1), n - 1, b);
    }
  }

  lemma NoBits(i: nat)
    requires i < BPB
    ensures !BlockBit(Zeros(), i)
  {
    ZeroHasNoBit(i % 8);
  }

  lemma {:induction false} ZeroHasNoBit(k: nat)
    ensures !HasBit(0, k)
  {
    if k == 0 {
    } else {
      ZeroHasNoBit(k - 1);
    }
  }

  lemma {:induction false} EmptyDiskBlocks(sb: Super, n: nat, b: nat)
    requires SuperOk(sb) && n <= sb.datastart && b < sb.bmapstart
    ensures b < sb.size && EmptyDisk(sb, n)[b] == Zeros()
    decreases n
  {
    if n == 0 {
    } else {
      BitmapBeforeData(sb, n - 1);
      EmptyDiskBlocks(sb, n - 1, b);
    }
  }

  lemma ZeroDinode(i: nat)
    ensures Dinode(Zeros(), i) == EmptyInode()
  {
    forall k: nat | k < WORDS ensures Word(Zeros(), k) == 0 {}
    hide Word;
    assert Addrs(Zeros(), i) == EmptyInode().addrs;
  }

  lemma EmptyFileSystem(sb: Super)
    requires SuperOk(sb)
    ensures var d, ns := EmptyDisk(sb, sb.datastart), EmptyInodes(sb);
            && Shape(sb, d, ns) && Ownership(sb, d, ns, map[]) && StoredBut(sb, d, ns, |ns|)
            && (forall i :: 0 <= i < |ns| ==> FilledTo(d, ns[i], ns[i].size))
            && forall b: nat :: b < sb.size ==> (Used(sb, d, b) <==> b < sb.datastart)
  {
    hide EmptyDisk, Dinode, Used;
    var d, ns := EmptyDisk(sb, sb.datastart), EmptyInodes(sb);
    forall b: nat | b < sb.size ensures Used(sb, d, b) <==> b < sb.datastart {
      EmptyDiskMarks(sb, sb.datastart, b);
    }
    forall j: nat | j < |ns| ensures StoredAt(sb, d, ns, j) {
      InodeBlocks(sb, j);
      EmptyDiskBlocks(sb, sb.datastart, IBlock(sb, j));
      ZeroDinode(j);
    }
  }

  class Fs {
    const sb: Super
    var disk: seq<Block>
    var inodes: seq<Inode>
    ghost var owner: map<nat, Place>
    ghost var logged: set<nat>

    /** The file system of a disk: the inodes are read from their blocks. */
    constructor Mount(sb: Super, disk: seq<Block>)
      requires Sound(sb, disk)
      ensures Valid() && this.sb == sb && this.disk == disk && logged == {}
      ensures forall i: nat :: i < sb.ninodes ==> Content(i) == FileOn(sb, disk, i)
    {
      this.sb, this.disk, inodes, logged := sb, disk, [], {};
      new;
      hide Dinode, OwnershipUpTo, FilledTo, Bytes;
      ghost var ns := StoredInodes(sb, disk);
      var j := 0;
      while j < sb.ninodes
        invariant 0 <= j <= sb.ninodes && inodes == ns[..j] && this.disk == disk && logged == {}
      {
        InodesAreStored(sb, disk, j);
        inodes := inodes + [Dinode(disk[IBlock(sb, j)], j)];
        j := j + 1;
      }
      assert ns[..j] == ns;
      AllStored(sb, disk);
      ghost var own :| Ownership(sb, disk, ns, own);
      owner := own;
    }

    /** An empty file system: the blocks before the data area are marked, and no inode has a block. */
    constructor Format(sb: Super)
      requires SuperOk(sb)
      ensures Valid() && this.sb == sb && owner == map[]
      ensures forall i :: 0 <= i < sb.ninodes ==> inodes[i] == EmptyInode()
      ensures forall b: nat :: b < sb.size ==> (Used(sb, disk, b) <==> b < sb.datastart)
    {
      EmptyFileSystem(sb);
      this.sb, disk, inodes, owner, logged := sb, EmptyDisk(sb, sb.datastart), EmptyInodes(sb), map[], {};
    }

    ghost predicate Owned()
      reads this
    {
      Shape(sb, disk, inodes) && Ownership(sb, disk, inodes, owner)
    }

    /** Blocks are owned once, and every file block below a file's size is mapped. */
    ghost predicate Filled()
      reads this
    {
      Owned() && forall i :: 0 <= i < |inodes| ==> FilledTo(disk, inodes[i], inodes[i].size)
    }

    /** ... and the inode blocks of the disk are up to date. */
    ghost predicate Valid()
      reads this
    {
      Filled() && StoredBut(sb, disk, inodes, |inodes|)
    }

    /** Since the state (d, ns, l) every changed block has been logged, none of them an inode
        block, and no inode but `i` has changed. */
    ghost predicate Recorded(i: nat, d: seq<Block>, ns: seq<Inode>, l: set<nat>)
      reads this
    {
      && |disk| == |d| && |inodes| == |ns| && l <= logged
      && (forall b :: 0 <= b < |d| && b !in logged ==> disk[b] == d[b])
      && (forall b :: b in logged && b !in l ==> sb.bmapstart <= b < |d|)
      && (forall b :: 0 <= b < sb.bmapstart && b < |d| ==> disk[b] == d[b])
      && (forall j :: 0 <= j < |ns| && j != i ==> inodes[j] == ns[j])
    }

    /** Since (d, l) every changed block has been logged, and only inode, bitmap and data blocks. */
    ghost predicate AllLogged(d: seq<Block>, l: set<nat>)
      reads this
    {
      && |disk| == |d| && l <= logged
      && (forall b :: 0 <= b < |d| && b !in logged ==> disk[b] == d[b])
      && (forall b :: b in logged && b !in l ==> sb.inodestart <= b < |d|)
    }

    ghost predicate Full()
      reads this`disk
    {
      forall b: nat :: b < sb.size ==> Used(sb, disk, b)
    }

    /** balloc: the first free block, marked and zeroed; 0 when there is none. */
    method Balloc() returns (r: nat)
      requires Owned()
      modifies this`disk, this`logged
      ensures |disk| == |old(disk)|
      ensures r == 0 ==> Full() && disk == old(disk) && logged == old(logged)
      ensures r != 0 ==>
                && r < sb.size && BBlock(sb, r) < |old(disk)| && !Used(sb, old(disk), r)
                && (forall b: nat :: b < r ==> Used(sb, old(disk), b))
                && disk == Allocated(sb, old(disk), r)
                && logged == old(logged) + {BBlock(sb, r), r}
    {
      hide BlockBit, OwnershipUpTo, Allocated, Used;
      MetadataIsUsed();
      var b := 0;
      while b < sb.size
        invariant b % BPB == 0
        invariant forall c: nat :: c < b && c < sb.size ==> Used(sb, disk, c)
        invariant disk == old(disk) && logged == old(logged)
      {
        BitmapBeforeData(sb, b);
        var bp := disk[BBlock(sb, b)];
        var limit := if BPB < sb.size - b then BPB else sb.size - b;
        var bi := ScanBitmap(bp, limit);
        UsedUpTo(b, bi);
        if bi < limit {
          r := b + bi;
          FreeAt(b, bi);
          disk := disk[BBlock(sb, b) := SetBlockBit(bp, bi)];
          logged := logged + {BBlock(sb, b)};
          Bzero(r);
          MarkedAndZeroed(old(disk), r);
          return;
        }
        NextBitmapBlock(b);
        b := b + BPB;
      }
      r := 0;
    }

    /** balloc's inner loop: the first clear bit below `limit`. */
    method ScanBitmap(bp: Block, limit: nat) returns (bi: nat)
      requires limit <= BPB
      ensures bi <= limit
      ensures forall k: nat :: k < bi ==> BlockBit(bp, k)
      ensures bi < limit ==> !BlockBit(bp, bi)
    {
      bi := 0;
      while bi < limit && HasBit(bp[bi / 8], bi % 8)
        invariant bi <= limit
        invariant forall k: nat :: k < bi ==> BlockBit(bp, k)
      {
        bi := bi + 1;
      }
    }

    lemma MetadataIsUsed()
      requires Owned()
      ensures Used(sb, disk, 0)
    {
    }

    lemma MarkedAndZeroed(d: seq<Block>, b: nat)
      requires b < |d| && BBlock(sb, b) < |d|
      ensures d[BBlock(sb, b) := SetBlockBit(d[BBlock(sb, b)], b % BPB)][b := ZERO] == Allocated(sb, d, b)
    {
    }

    lemma NextBitmapBlock(b: nat)
      requires b % BPB == 0
      ensures (b + BPB) % BPB == 0
    {
    }

    lemma SameBitmapBlock(b: nat, bi: nat)
      requires b % BPB == 0 && bi < BPB
      ensures BBlock(sb, b + bi) == BBlock(sb, b) && (b + bi) % BPB == bi
    {
    }

    lemma FreeAt(b: nat, bi: nat)
      requires b % BPB == 0 && bi < BPB && BBlock(sb, b) < |disk|
      requires !BlockBit(disk[BBlock(sb, b)], bi)
      ensures BBlock(sb, b + bi) == BBlock(sb, b) && (b + bi) % BPB == bi && !Used(sb, disk, b + bi)
    {
      SameBitmapBlock(b, bi);
    }

    lemma UsedUpTo(b: nat, n: nat)
      requires b % BPB == 0 && n <= BPB && BBlock(sb, b) < |disk|
      requires forall c: nat :: c < b ==> Used(sb, disk, c)
      requires forall k: nat :: k < n ==> BlockBit(disk[BBlock(sb, b)], k)
      ensures forall c: nat :: c < b + n ==> Used(sb, disk, c)
    {
      forall c: nat | b <= c < b + n
        ensures Used(sb, disk, c)
      {
        SameBitmapBlock(b, c - b);
      }
    }

    method Bzero(b: nat)
      requires b < |disk|
      modifies this`disk, this`logged
      ensures disk == old(disk)[b := ZERO] && logged == old(logged) + {b}
    {
      disk := disk[b := ZERO];
      logged := logged + {b};
    }

    /** bfree: false is the panic "freeing free block". */
    method Bfree(b: nat) returns (ok: bool)
      requires BBlock(sb, b) < |disk|
      modifies this`disk, this`logged
      ensures ok == Used(sb, old(disk), b)
      ensures disk == if ok then MarkFree(sb, old(disk), b) else old(disk)
      ensures logged == if ok then old(logged) + {BBlock(sb, b)} else old(logged)
    {
      var bp := disk[BBlock(sb, b)];
      var bi := b % BPB;
      if !HasBit(bp[bi / 8], bi % 8) {
        return false;
      }
      disk := disk[BBlock(sb, b) := bp[bi / 8 := ClearByteBit(bp[bi / 8], bi % 8)]];
      logged := logged + {BBlock(sb, b)};
      ok := true;
    }

    // ---- Block mapping ----

    /** The blocks that are logged once per operation on behalf of the indirect block. */
    ghost function IndirectBlocks(i: nat): set<nat>
      reads this
      requires i < |inodes| && |inodes[i].addrs| == NDIRECT + 1
    {
      var ind := inodes[i].addrs[NDIRECT];
      if ind == 0 then {} else {ind, BBlock(sb, ind)}
    }

    /** How many other blocks the transaction has logged so far. */
    ghost function LogCost(i: nat): nat
      reads this
      requires i < |inodes| && |inodes[i].addrs| == NDIRECT + 1
    {
      |logged - IndirectBlocks(i)|
    }

    /** Allocate into slot `s` of the inode itself. */
    method AllocInInode(i: nat, s: nat) returns (addr: nat)
      requires Owned() && i < |inodes| && s <= NDIRECT && inodes[i].addrs[s] == 0
      modifies this`disk, this`inodes, this`owner, this`logged
      ensures Owned() && KeepsData(sb, old(disk), old(inodes), disk, inodes)
      ensures addr == 0 ==>
                Full() && disk == old(disk) && inodes == old(inodes) && owner == old(owner) &&
                logged == old(logged)
      ensures addr != 0 ==>
                && inodes == StoredInInode(old(inodes), i, s, addr)
                && !Used(sb, old(disk), addr)
                && logged == old(logged) + {BBlock(sb, addr), addr}
      ensures Recorded(i, old(disk), old(inodes), old(logged))
    {
      hide OwnershipUpTo, KeepsData, Used, Allocated;
      KeepsDataItself(sb, disk, inodes, owner);
      addr := Balloc();
      if addr != 0 {
        AttachInInode(sb, old(disk), inodes, owner, addr, i, s);
        AllocationElsewhere(old(disk), addr);
        inodes := inodes[i := inodes[i].(addrs := inodes[i].addrs[s := addr])];
        owner := owner[addr := Place(i, s)];
      }
    }

    /** Allocation touches the block and its bitmap block only, neither of them an inode block. */
    lemma AllocationElsewhere(d: seq<Block>, b: nat)
      requires Ownership(sb, d, inodes, owner) && b < sb.size && !Used(sb, d, b)
      ensures BBlock(sb, b) < |d| && sb.bmapstart <= BBlock(sb, b) && sb.bmapstart <= b < |d|
      ensures forall x :: 0 <= x < |d| && x != b && x != BBlock(sb, b) ==> Allocated(sb, d, b)[x] == d[x]
    {
      AllocationIsFresh(sb, d, inodes, owner, b);
      BitmapBeforeData(sb, b);
    }

    lemma KeepsDataItself(sb: Super, d: seq<Block>, inodes: seq<Inode>, owner: map<nat, Place>)
      requires Ownership(sb, d, inodes, owner)
      ensures KeepsData(sb, d, inodes, d, inodes)
    {
    }

    /** Allocate entry `k` of the inode's indirect block. */
    method AllocInIndirect(i: nat, k: nat) returns (addr: nat)
      requires Owned() && i < |inodes| && k < NINDIRECT
      requires inodes[i].addrs[NDIRECT] != 0 && Ref(disk, inodes[i], Entry(k)) == 0
      modifies this`disk, this`owner, this`logged
      ensures Owned() && KeepsData(sb, old(disk), inodes, disk, inodes)
      ensures addr == Ref(disk, inodes[i], Entry(k))
      ensures addr == 0 ==> Full() && disk == old(disk) && owner == old(owner) && logged == old(logged)
      ensures addr != 0 ==>
                && !Used(sb, old(disk), addr)
                && logged == old(logged) + {BBlock(sb, addr), addr, inodes[i].addrs[NDIRECT]}
      ensures Recorded(i, old(disk), inodes, old(logged))
    {
      hide OwnershipUpTo, KeepsData, Used, Allocated, Word, PutWord;
      KeepsDataItself(sb, disk, inodes, owner);
      var ind := inodes[i].addrs[NDIRECT];
      addr := Balloc();
      if addr != 0 {
        AttachInIndirect(sb, old(disk), inodes, owner, addr, i, k);
        RefsAfterIndirectStore(sb, old(disk), inodes, owner, addr, i, k, i, Entry(k));
        AllocationElsewhere(old(disk), addr);
        IndirectIsData(old(disk), i);
        disk := disk[ind := PutWord(disk[ind], k, addr)];
        logged := logged + {ind};
        owner := owner[addr := Place(i, Entry(k))];
      }
    }

    lemma IndirectIsData(d: seq<Block>, i: nat)
      requires Ownership(sb, d, inodes, owner) && i < |inodes| && inodes[i].addrs[NDIRECT] != 0
      ensures sb.bmapstart <= inodes[i].addrs[NDIRECT] < |d|
    {
      hide Used, Word;
      DataAfterBitmap(sb);
      hide SuperOk;
      assert OwnedAt(d, inodes, owner, i, NDIRECT);
    }

    /** bmap: the disk block of file block `bn`, allocated if need be; 0 when the disk is full. */
    method Bmap(i: nat, bn: nat) returns (addr: nat)
      requires Owned() && i < |inodes| && bn < MAXFILE
      modifies this`disk, this`inodes, this`owner, this`logged
      ensures Owned() && KeepsData(sb, old(disk), old(inodes), disk, inodes)
      ensures forall j :: 0 <= j < |inodes| ==>
                OnlyAddrs(inodes[j], old(inodes)[j]) && (j != i ==> inodes[j] == old(inodes)[j])
      ensures addr == Mapped(disk, inodes[i], bn)
      ensures old(Mapped(disk, inodes[i], bn)) != 0 ==>
                disk == old(disk) && inodes == old(inodes) && owner == old(owner) && logged == old(logged)
      ensures addr == 0 ==> Full()
      ensures logged - IndirectBlocks(i) <= old(logged - IndirectBlocks(i))
                + (if old(Mapped(disk, inodes[i], bn)) != 0 || addr == 0 then {} else {addr, BBlock(sb, addr)})
      ensures Recorded(i, old(disk), old(inodes), old(logged))
    {
      hide OwnershipUpTo, KeepsData, Used, Allocated, Word, PutWord;
      KeepsDataItself(sb, disk, inodes, owner);
      if bn < NDIRECT {
        addr := inodes[i].addrs[bn];
        if addr == 0 {
          addr := AllocInInode(i, bn);
        }
        return;
      }
      var k := bn - NDIRECT;
      addr := inodes[i].addrs[NDIRECT];
      if addr == 0 {
        addr := AllocInInode(i, NDIRECT);
        if addr == 0 {
          return;
        }
      }
      assert inodes[i].addrs[NDIRECT] == addr;
      label loaded:
      addr := Word(disk[addr], k);
      if addr == 0 {
        addr := AllocInIndirect(i, k);
        KeepsDataTransitive(sb, old(disk), old(inodes), old@loaded(disk), inodes, disk, inodes);
      }
    }

    // ---- Reading and writing ----

    ghost function Content(i: nat): seq<byte>
      reads this
      requires Filled() && i < |inodes|
    {
      Bytes(disk, inodes[i], inodes[i].size)
    }

    /** readi: the clipped slice of the file, and nothing is ever allocated for it. The first
        `copies` copies to the destination succeed; -1 reports one that fails. */
    method Readi(i: nat, off: nat, n: nat, copies: nat) returns (r: int, data: seq<byte>)
      requires Valid() && i < |inodes| && off < U32 && n < U32
      modifies this`disk, this`inodes, this`owner, this`logged
      ensures disk == old(disk) && inodes == old(inodes) && owner == old(owner) && logged == old(logged)
      ensures var size := inodes[i].size;
              var end := if off + n < size then off + n else size;
              if off > size || off + n >= U32 then r == 0 && data == []
              else if copies < BlockSpan(off, end) then r == -1
              else r == end - off && data == Content(i)[off..end]
    {
      hide OwnershipUpTo, FilledTo, Bytes, BlockSpan, StoredBut, ChunkLen, StepCost, PartCost;
      data := [];
      WrapsWhenLarge(off, n);
      if off > inodes[i].size || (off + n) % U32 < off {
        return 0, [];
      }
      ghost var c := Content(i);
      EmptySpan(off);
      var len := if off + n > inodes[i].size then inodes[i].size - off else n;
      var tot, pos, done := 0, off, 0;
      while tot < len
        invariant disk == old(disk) && inodes == old(inodes) && owner == old(owner) && logged == old(logged)
        invariant 0 <= tot <= len && pos == off + tot && |data| == tot
        invariant data == c[off..pos]
        invariant done <= copies && done == BlockSpan(off, pos)
        invariant tot < len ==> AtBoundary(off, pos)
      {
        var chunk := ReadOne(i, pos, len - tot);
        var m := ChunkLen(pos, len - tot);
        if done == copies {
          SpanGrows(off, pos, off + len);
          return -1, data;
        }
        data := data + chunk;
        ChunkStep(off, pos, len - tot);
        SliceMore(c, off, pos, m);
        tot, pos, done := tot + m, pos + m, done + 1;
      }
      r := tot;
    }

    /** One round of readi: the rest of the block under offset `pos`, at most `left` bytes. */
    method ReadOne(i: nat, pos: nat, left: nat) returns (chunk: seq<byte>)
      requires Valid() && i < |inodes| && 0 < left && pos + left <= inodes[i].size
      modifies this`disk, this`inodes, this`owner, this`logged
      ensures disk == old(disk) && inodes == old(inodes) && owner == old(owner) && logged == old(logged)
      ensures 0 < ChunkLen(pos, left) <= left && chunk == Content(i)[pos..pos + ChunkLen(pos, left)]
    {
      hide OwnershipUpTo, KeepsData, FilledTo, Bytes, Word, Ref, Used, StoredBut;
      MappedBelowSize(i, pos);
      var addr := Bmap(i, pos / BSIZE);
      var m := if left < BSIZE - pos % BSIZE then left else BSIZE - pos % BSIZE;
      ReadChunk(i, pos, m);
      chunk := disk[addr][pos % BSIZE..pos % BSIZE + m];
    }

    /** How many blocks the byte range [off, end) touches. */
    static function BlockSpan(off: nat, end: nat): nat {
      if end <= off then 0 else (end - 1) / BSIZE - off / BSIZE + 1
    }

    static lemma SliceMore(c: seq<byte>, off: nat, pos: nat, m: nat)
      requires off <= pos && pos + m <= |c|
      ensures c[off..pos] + c[pos..pos + m] == c[off..pos + m]
    {
    }

    lemma SpanStep(off: nat, pos: nat, m: nat)
      requires off <= pos && 0 < m && pos % BSIZE + m <= BSIZE && (pos == off || pos % BSIZE == 0)
      ensures BlockSpan(off, pos + m) == BlockSpan(off, pos) + 1
    {
      assert (pos + m - 1) / BSIZE == pos / BSIZE;
      if pos > off {
        assert (pos - 1) / BSIZE == pos / BSIZE - 1;
      }
    }

    lemma SpanGrows(off: nat, pos: nat, end: nat)
      requires off <= pos < end && (pos == off || pos % BSIZE == 0)
      ensures BlockSpan(off, end) > BlockSpan(off, pos)
    {
      assert (end - 1) / BSIZE >= pos / BSIZE;
      if pos > off {
        assert (pos - 1) / BSIZE == pos / BSIZE - 1;
      }
    }

    lemma MappedBelowSize(i: nat, pos: nat)
      requires Valid() && i < |inodes| && pos < inodes[i].size
      ensures pos / BSIZE < MAXFILE && 0 < Mapped(disk, inodes[i], pos / BSIZE) < |disk|
    {
      assert pos / BSIZE * BSIZE <= pos;
    }

    lemma ReadChunk(i: nat, pos: nat, m: nat)
      requires Valid() && i < |inodes| && pos % BSIZE + m <= BSIZE && 0 < m && pos + m <= inodes[i].size
      ensures pos / BSIZE < MAXFILE && 0 < Mapped(disk, inodes[i], pos / BSIZE) < |disk|
      ensures Content(i)[pos..pos + m] == disk[Mapped(disk, inodes[i], pos / BSIZE)][pos % BSIZE..pos % BSIZE + m]
      ensures pos + m < inodes[i].size && pos % BSIZE + m == BSIZE ==> (pos + m) % BSIZE == 0
    {
      hide OwnershipUpTo, Word, Ref, FilledTo, Bytes;
      MappedBelowSize(i, pos);
      var o, b := pos % BSIZE, Mapped(disk, inodes[i], pos / BSIZE);
      var c, blk := Content(i)[pos..pos + m], disk[b][o..o + m];
      forall k | 0 <= k < m
        ensures c[k] == blk[k]
      {
        ContentAt(i, pos + k);
        SameBlock(pos, k);
      }
      if o + m == BSIZE {
        AlignedAfter(pos, m);
      }
    }

    lemma ContentAt(i: nat, x: nat)
      requires Valid() && i < |inodes| && x < inodes[i].size
      ensures x / BSIZE < MAXFILE && 0 < Mapped(disk, inodes[i], x / BSIZE) < |disk|
      ensures Content(i)[x] == disk[Mapped(disk, inodes[i], x / BSIZE)][x % BSIZE]
    {
      MappedBelowSize(i, x);
    }

    lemma SameBlock(pos: nat, k: nat)
      requires pos % BSIZE + k < BSIZE
      ensures (pos + k) / BSIZE == pos / BSIZE && (pos + k) % BSIZE == pos % BSIZE + k
    {
    }

    lemma AlignedAfter(pos: nat, m: nat)
      requires pos % BSIZE + m == BSIZE
      ensures (pos + m) % BSIZE == 0 && (pos + m) / BSIZE == pos / BSIZE + 1
    {
    }

    lemma WrapsWhenLarge(off: nat, n: nat)
      requires off < U32 && n < U32
      ensures (off + n) % U32 < off <==> off + n >= U32
    {
    }

    lemma EmptySpan(off: nat)
      ensures BlockSpan(off, off) == 0
    {
    }

    /** One chunk of a write: `chunk` goes into the mapped block under offset `pos`. */
    method WriteChunk(i: nat, pos: nat, chunk: seq<byte>, ghost hi: nat, ghost d: seq<Block>, ghost ns: seq<Inode>)
      requires Owned() && i < |inodes| && OthersSame(d, ns, disk, inodes, i)
      requires FilledTo(disk, inodes[i], hi) && pos <= hi
      requires pos % BSIZE + |chunk| <= BSIZE && pos + |chunk| <= MAXFILE * BSIZE && pos / BSIZE < MAXFILE
      requires Mapped(disk, inodes[i], pos / BSIZE) != 0
      modifies this`disk, this`logged
      ensures Owned() && OthersSame(d, ns, disk, inodes, i)
      ensures var end := Max(hi, pos + |chunk|);
              FilledTo(disk, inodes[i], end) &&
              Bytes(disk, inodes[i], end) == Splice(old(Bytes(disk, inodes[i], hi)), pos, chunk)
      ensures logged == old(logged) + {old(Mapped(disk, inodes[i], pos / BSIZE))}
      ensures Recorded(i, old(disk), inodes, old(logged))
    {
      hide OwnershipUpTo, Word, Ref, Bytes, FilledTo, PutBytes, Splice, OthersSame, SuperOk;
      var addr := Mapped(disk, inodes[i], pos / BSIZE);
      MappedInData(sb, disk, inodes, owner, i, pos / BSIZE);
      DataAfterBitmap(sb);
      var blk := PutBytes(disk[addr], pos % BSIZE, chunk);
      DataWriteKeepsOwnership(sb, disk, inodes, owner, i, pos / BSIZE, blk);
      ChunkSplices(sb, disk, inodes, owner, i, pos, chunk, hi);
      ChunkKeepsFiles(i, pos / BSIZE, blk, d, ns);
      disk := disk[addr := blk];
      logged := logged + {addr};
    }

    lemma ChunkKeepsFiles(i: nat, bn: nat, blk: Block, d: seq<Block>, ns: seq<Inode>)
      requires Owned() && i < |inodes| && OthersSame(d, ns, disk, inodes, i) && bn < MAXFILE
      requires 0 < Mapped(disk, inodes[i], bn) < |disk|
      ensures OthersSame(d, ns, disk[Mapped(disk, inodes[i], bn) := blk], inodes, i)
    {
      hide OwnershipUpTo, Word, Ref, Bytes, FilledTo, SuperOk;
      var e := disk[Mapped(disk, inodes[i], bn) := blk];
      forall j: nat | j < |inodes| && j != i ensures SameFile(d, ns, e, inodes, j) {
        assert SameFile(d, ns, disk, inodes, j);
        ChunkKeepsOthers(sb, disk, inodes, owner, i, bn, blk, j, inodes[j].size);
      }
    }

    /** After bmap every file is as it was. */
    lemma AfterBmap(d: seq<Block>, ns: seq<Inode>, d1: seq<Block>, ns1: seq<Inode>, i: nat, hi: nat)
      requires KeepsData(sb, d1, ns1, disk, inodes) && |ns| == |ns1| == |inodes| && i < |inodes|
      requires forall j :: 0 <= j < |inodes| ==> OnlyAddrs(inodes[j], ns1[j]) && (j != i ==> inodes[j] == ns1[j])
      requires OthersSame(d, ns, d1, ns1, i)
      requires FilledTo(d1, ns1[i], hi)
      ensures OthersSame(d, ns, disk, inodes, i)
      ensures FilledTo(disk, inodes[i], hi) && Bytes(disk, inodes[i], hi) == Bytes(d1, ns1[i], hi)
    {
      hide KeepsData, FilledTo, Bytes;
      KeepsDataKeepsBytes(sb, d1, ns1, disk, inodes, i, hi);
      forall j: nat | j < |inodes| && j != i
        ensures SameFile(d, ns, disk, inodes, j)
      {
        assert SameFile(d, ns, d1, ns1, j);
        KeepsDataKeepsBytes(sb, d1, ns1, disk, inodes, j, ns[j].size);
      }
    }

    /** Bmap as writei uses it: no file changes, and the log grows by the new block and its bit. */
    method MapForWrite(i: nat, pos: nat, ghost hi: nat, ghost d: seq<Block>, ghost ns: seq<Inode>) returns (addr: nat)
      requires Owned() && i < |inodes| && OthersSame(d, ns, disk, inodes, i)
      requires FilledTo(disk, inodes[i], hi) && pos / BSIZE < MAXFILE
      modifies this`disk, this`inodes, this`owner, this`logged
      ensures Owned() && i < |inodes| && OthersSame(d, ns, disk, inodes, i) && OnlyAddrs(inodes[i], old(inodes)[i])
      ensures FilledTo(disk, inodes[i], hi) && Bytes(disk, inodes[i], hi) == old(Bytes(disk, inodes[i], hi))
      ensures addr == Mapped(disk, inodes[i], pos / BSIZE)
      ensures addr == 0 ==> Full() && logged - IndirectBlocks(i) <= old(logged - IndirectBlocks(i))
      ensures pos % BSIZE != 0 && pos <= hi ==>
                addr != 0 && logged - IndirectBlocks(i) <= old(logged - IndirectBlocks(i))
      ensures logged - IndirectBlocks(i) <= old(logged - IndirectBlocks(i)) + {addr, BBlock(sb, addr)}
      ensures Recorded(i, old(disk), old(inodes), old(logged))
    {
      hide OwnershipUpTo, KeepsData, Bytes, Word, Ref, Used;
      if pos % BSIZE != 0 && pos <= hi {
        MappedWhenUnaligned(pos, hi);
        assert Mapped(disk, inodes[i], pos / BSIZE) != 0;
      }
      hide FilledTo;
      addr := Bmap(i, pos / BSIZE);
      AfterBmap(d, ns, old(disk), old(inodes), i, hi);
    }

    lemma MappedWhenUnaligned(pos: nat, hi: nat)
      requires pos % BSIZE != 0 && pos <= hi
      ensures pos / BSIZE * BSIZE < hi
    {
    }

    /** The loop of writei. `d`, `ns` and `c` are the disk, inodes and file contents it started from. */
    method WriteBlocks(i: nat, src: seq<byte>, off: nat, copies: nat, ghost d: seq<Block>, ghost ns: seq<Inode>,
                       ghost c: seq<byte>)
      returns (tot: nat)
      requires Owned() && i < |inodes| && OthersSame(d, ns, disk, inodes, i)
      requires off <= inodes[i].size && off + |src| <= MAXFILE * BSIZE
      requires FilledTo(disk, inodes[i], inodes[i].size) && Bytes(disk, inodes[i], inodes[i].size) == c
      modifies this`disk, this`inodes, this`owner, this`logged
      ensures Owned() && i < |inodes| && OthersSame(d, ns, disk, inodes, i)
      ensures OnlyAddrs(inodes[i], old(inodes)[i]) && tot <= |src|
      ensures var end := Max(inodes[i].size, off + tot);
              FilledTo(disk, inodes[i], end) && Bytes(disk, inodes[i], end) == Splice(c, off, src[..tot])
      ensures tot < |src| ==> Full() || copies < BlockSpan(off, off + |src|)
      ensures LogCost(i) <= old(LogCost(i)) + WriteCost(off, |src|)
      ensures Recorded(i, old(disk), old(inodes), old(logged))
    {
      hide OwnershipUpTo, Bytes, Word, Ref, Used, FilledTo, BlockSpan, Splice, StepCost, AtBoundary, ChunkLen,
           PartCost, LogCost, OthersSame, Full;
      tot := 0;
      var done := 0;
      ghost var cost := LogCost(i);
      StartOfWrite(c, off);
      assert src[..0] == [];
      while tot < |src|
        invariant 0 <= tot <= |src| && Spliced(i, d, ns, c, off, src[..tot]) && OnlyAddrs(inodes[i], old(inodes)[i])
        invariant done <= copies && done == BlockSpan(off, off + tot)
        invariant tot < |src| ==> AtBoundary(off, off + tot)
        invariant LogCost(i) <= cost + StepCost(off, done)
        invariant Recorded(i, old(disk), old(inodes), old(logged))
      {
        ChunkStep(off, off + tot, |src| - tot);
        var wrote, m := WriteRound(i, src, off, tot, done < copies, d, ns, c);
        if !wrote {
          break;
        }
        tot, done := tot + m, done + 1;
      }
    }

    /** The file holds `c` with `part` spliced in at `off`, as far as it has been written. */
    ghost predicate Spliced(i: nat, d: seq<Block>, ns: seq<Inode>, c: seq<byte>, off: nat, part: seq<byte>)
      reads this
    {
      && Owned() && i < |inodes| && OthersSame(d, ns, disk, inodes, i) && off <= inodes[i].size == |c|
      && off + |part| <= MAXFILE * BSIZE
      && var end := Max(inodes[i].size, off + |part|);
      FilledTo(disk, inodes[i], end) && Bytes(disk, inodes[i], end) == Splice(c, off, part)
    }

    /** One round: the next chunk of `src`, up to the end of its block. */
    method WriteRound(i: nat, src: seq<byte>, off: nat, tot: nat, copyOk: bool,
                      ghost d: seq<Block>, ghost ns: seq<Inode>, ghost c: seq<byte>)
      returns (wrote: bool, m: nat)
      requires tot < |src| && off + |src| <= MAXFILE * BSIZE && AtBoundary(off, off + tot)
      requires Spliced(i, d, ns, c, off, src[..tot])
      modifies this`disk, this`inodes, this`owner, this`logged
      ensures m == ChunkLen(off + tot, |src| - tot) <= |src| - tot
      ensures Spliced(i, d, ns, c, off, src[..if wrote then tot + m else tot]) && OnlyAddrs(inodes[i], old(inodes)[i])
      ensures !wrote ==> Full() || !copyOk
      ensures wrote ==> copyOk
      ensures LogCost(i) <= old(LogCost(i)) + PartCost(off + tot)
      ensures Recorded(i, old(disk), old(inodes), old(logged))
    {
      hide OwnershipUpTo, Bytes, Word, Ref, Used, FilledTo, BlockSpan, Splice, StepCost, AtBoundary, ChunkLen,
           PartCost, LogCost, OthersSame, Full;
      m := ChunkLen(off + tot, |src| - tot);
      ChunkStep(off, off + tot, |src| - tot);
      var chunk := src[tot..tot + m];
      wrote := WriteOne(i, off + tot, chunk, copyOk, Max(inodes[i].size, off + tot), d, ns);
      SpliceMore(c, off, src, tot, m);
    }

    lemma SpliceMore(c: seq<byte>, off: nat, src: seq<byte>, tot: nat, m: nat)
      requires off <= |c| && tot + m <= |src|
      ensures off + tot <= |Splice(c, off, src[..tot])|
      ensures Splice(Splice(c, off, src[..tot]), off + tot, src[tot..tot + m]) == Splice(c, off, src[..tot + m])
    {
      SpliceTwice(c, off, src[..tot], src[tot..tot + m]);
      assert src[..tot] + src[tot..tot + m] == src[..tot + m];
    }

    /** What is left, or what fits in the block under the position. */
    static function ChunkLen(pos: nat, left: nat): nat {
      if left < BSIZE - pos % BSIZE then left else BSIZE - pos % BSIZE
    }

    /** Where a round of the loop can start. */
    static predicate AtBoundary(off: nat, pos: nat) {
      off <= pos && (pos == off || pos % BSIZE == 0)
    }

    static function PartCost(pos: nat): nat {
      if pos % BSIZE != 0 then 1 else 2
    }

    lemma StartOfWrite(c: seq<byte>, off: nat)
      requires off <= |c|
      ensures Splice(c, off, []) == c && BlockSpan(off, off) == 0 && StepCost(off, 0) == 0 && AtBoundary(off, off)
    {
    }

    /** A round covers one more block and stays within the cost of all of them. */
    lemma ChunkStep(off: nat, pos: nat, left: nat)
      requires AtBoundary(off, pos) && left > 0
      ensures var m := ChunkLen(pos, left);
              && 0 < m <= left && pos % BSIZE + m <= BSIZE
              && BlockSpan(off, pos + m) == BlockSpan(off, pos) + 1
              && (m < left ==> AtBoundary(off, pos + m))
      ensures var k := BlockSpan(off, pos);
              && k < BlockSpan(off, pos + left)
              && StepCost(off, k) + PartCost(pos) <= StepCost(off, k + 1) <= StepCost(off, BlockSpan(off, pos + left))
    {
      var m := ChunkLen(pos, left);
      SpanStep(off, pos, m);
      SpanGrows(off, pos, pos + left);
      if m < left {
        AlignedAfter(pos, m);
      }
      if pos > off {
        SpanGrows(off, off, pos);
      }
    }

    /** One round of that loop. */
    method WriteOne(i: nat, pos: nat, chunk: seq<byte>, copyOk: bool, ghost hi: nat, ghost d: seq<Block>,
                    ghost ns: seq<Inode>)
      returns (wrote: bool)
      requires Owned() && i < |inodes| && OthersSame(d, ns, disk, inodes, i)
      requires FilledTo(disk, inodes[i], hi) && pos <= hi && pos < MAXFILE * BSIZE
      requires pos % BSIZE + |chunk| <= BSIZE && pos + |chunk| <= MAXFILE * BSIZE
      modifies this`disk, this`inodes, this`owner, this`logged
      ensures Owned() && i < |inodes| && OthersSame(d, ns, disk, inodes, i) && OnlyAddrs(inodes[i], old(inodes)[i])
      ensures var end := if wrote then Max(hi, pos + |chunk|) else hi;
              && FilledTo(disk, inodes[i], end)
              && Bytes(disk, inodes[i], end) ==
                 if wrote then Splice(old(Bytes(disk, inodes[i], hi)), pos, chunk) else old(Bytes(disk, inodes[i], hi))
      ensures !wrote ==> Full() || !copyOk
      ensures wrote ==> copyOk
      ensures LogCost(i) <= old(LogCost(i)) + PartCost(pos)
      ensures Recorded(i, old(disk), old(inodes), old(logged))
    {
      hide OwnershipUpTo, KeepsData, Bytes, Word, Ref, Used, FilledTo, Splice, BBlock, OthersSame, SuperOk;
      PositionInFile(pos);
      ghost var was := logged - IndirectBlocks(i);
      var addr := MapForWrite(i, pos, hi, d, ns);
      Cardinality(was, logged - IndirectBlocks(i), addr, BBlock(sb, addr));
      if addr == 0 {
        return false;
      }
      if !copyOk {
        return false;
      }
      WriteChunk(i, pos, chunk, hi, d, ns);
      Cardinality(was, logged - IndirectBlocks(i), addr, BBlock(sb, addr));
      wrote := true;
    }

    /** What `k` blocks of a write at `off` may log besides the indirect block: a data block and a
        bitmap block each, except that a partial first block is already allocated. */
    static function StepCost(off: nat, k: nat): nat {
      if k > 0 && off % BSIZE != 0 then 2 * k - 1 else 2 * k
    }

    static function WriteCost(off: nat, n: nat): nat {
      StepCost(off, BlockSpan(off, off + n))
    }

    lemma Cardinality(a: set<nat>, b: set<nat>, x: nat, y: nat)
      ensures b <= a ==> |b| <= |a|
      ensures b <= a + {x} ==> |b| <= |a| + 1
      ensures b <= a + {x, y} ==> |b| <= |a| + 2
    {
      if b <= a {
        SubsetSize(b, a);
      }
      if b <= a + {x} {
        SubsetSize(b, a + {x});
      }
      if b <= a + {x, y} {
        SubsetSize(b, a + {x, y});
        assert a + {x, y} == a + {x} + {y};
      }
    }

    lemma PositionInFile(pos: nat)
      ensures pos < MAXFILE * BSIZE ==> pos / BSIZE < MAXFILE
    {
    }


    /** iupdate: the inode goes to its block, which is logged. */
    method Iupdate(i: nat)
      requires Filled() && i < |inodes| && StoredBut(sb, disk, inodes, i)
      modifies this`disk, this`logged
      ensures Valid() && i < |inodes| && OthersSame(old(disk), inodes, disk, inodes, i) && Content(i) == old(Content(i))
      ensures logged == old(logged) + {IBlock(sb, i)} && sb.inodestart <= IBlock(sb, i) < |old(disk)|
      ensures |disk| == |old(disk)| && forall b :: 0 <= b < |disk| && b != IBlock(sb, i) ==> disk[b] == old(disk)[b]
      ensures Full() <==> old(Full())
    {
      hide OwnershipUpTo, Bytes, Ref, FilledTo, Used, PutDinode, SuperOk, StoredBut, SameFile;
      InodeBlocks(sb, i);
      InodeIsStorable(i);
      StoreInode(sb, disk, inodes, i);
      ghost var e := disk[IBlock(sb, i) := PutDinode(disk[IBlock(sb, i)], i, inodes[i])];
      BitmapAndDataDecide(sb, disk, inodes, owner, e);
      forall j: nat | j < |inodes| ensures SameFile(disk, inodes, e, inodes, j) {
        DataAfterBitmap(sb);
        OutsideDataKeepsFile(sb, disk, inodes, owner, e, inodes, j);
      }
      AllFilled(disk, e);
      disk := disk[IBlock(sb, i) := PutDinode(disk[IBlock(sb, i)], i, inodes[i])];
      logged := logged + {IBlock(sb, i)};
    }

    lemma AllFilled(d: seq<Block>, e: seq<Block>)
      requires forall j: nat :: j < |inodes| ==> SameFile(d, inodes, e, inodes, j)
      ensures forall j :: 0 <= j < |inodes| ==>
                FilledTo(d, inodes[j], inodes[j].size) && FilledTo(e, inodes[j], inodes[j].size)
      ensures forall j :: 0 <= j < |inodes| ==>
                Bytes(e, inodes[j], inodes[j].size) == Bytes(d, inodes[j], inodes[j].size)
    {
      hide Bytes, FilledTo;
      forall j | 0 <= j < |inodes|
        ensures FilledTo(d, inodes[j], inodes[j].size) && FilledTo(e, inodes[j], inodes[j].size)
        ensures Bytes(e, inodes[j], inodes[j].size) == Bytes(d, inodes[j], inodes[j].size)
      {
        assert SameFile(d, inodes, e, inodes, j);
      }
    }

    static lemma DataAfterBitmap(sb: Super)
      requires SuperOk(sb)
      ensures sb.bmapstart < sb.datastart
    {
    }

    lemma InodeIsStorable(i: nat)
      requires Filled() && i < |inodes|
      ensures Storable(inodes[i])
    {
      hide Used;
      forall k | 0 <= k <= NDIRECT ensures inodes[i].addrs[k] < U32 {
        assert OwnedAt(disk, inodes, owner, i, k);
      }
      assert FilledTo(disk, inodes[i], inodes[i].size);
    }

    /** Up to its iupdate an operation leaves the stored inodes alone. */
    lemma StillStored(i: nat, d: seq<Block>, ns: seq<Inode>, l: set<nat>)
      requires Recorded(i, d, ns, l) && StoredBut(sb, d, ns, |ns|) && SuperOk(sb) && |ns| == sb.ninodes
      ensures StoredBut(sb, disk, inodes, i)
    {
      hide Dinode, IBlock, SuperOk;
      forall j: nat | j < |inodes| && j != i ensures StoredAt(sb, disk, inodes, j) {
        assert StoredAt(sb, d, ns, j);
        InodeBlocks(sb, j);
      }
    }

    /** writei: exactly the first `r` bytes of `src` are laid over the file at `off`, and no other
        file changes. -1 rejects a hole or a file too large; a short count means a full disk or a
        failed copy (the first `copies` succeed). `early` is what was logged before the inode. */
    method Writei(i: nat, src: seq<byte>, off: nat, copies: nat) returns (r: int, ghost early: set<nat>)
      requires Valid() && i < |inodes| && off < U32 && |src| < U32
      modifies this`disk, this`inodes, this`owner, this`logged
      ensures Valid() && i < |inodes| && OthersSame(old(disk), old(inodes), disk, inodes, i)
      ensures r == -1 || 0 <= r <= |src|
      ensures r == -1 <==> off > old(inodes)[i].size || off + |src| > MAXFILE * BSIZE
      ensures r == -1 ==>
                disk == old(disk) && inodes == old(inodes) && owner == old(owner) &&
                logged == old(logged) == early
      ensures r != -1 ==> Content(i) == Splice(old(Content(i)), off, src[..r])
      ensures SameKind(inodes[i], old(inodes)[i])
      ensures 0 <= r < |src| ==> Full() || copies < BlockSpan(off, off + |src|)
      ensures r != -1 ==> logged == early + {IBlock(sb, i)}
      ensures old(logged) == {} ==> |early| <= WriteCost(off, |src|) + 2
      ensures AllLogged(old(disk), old(logged))
    {
      hide OwnershipUpTo, KeepsData, Bytes, Word, Ref, Used, BlockSpan, Splice, StepCost, OthersSame, FilledTo,
           LogCost, Full, StoredBut;
      early := logged;
      AllSame(i);
      WrapsWhenLarge(off, |src|);
      if off > inodes[i].size || (off + |src|) % U32 < off {
        return -1, early;
      }
      if off + |src| > MAXFILE * BSIZE {
        return -1, early;
      }
      var tot := WriteBlocks(i, src, off, copies, disk, inodes, Content(i));
      early := logged;
      IndirectIsTwo(i);
      GrowTo(i, off + tot, old(disk), old(inodes));
      StillStored(i, old(disk), old(inodes), old(logged));
      ghost var d := disk;
      Iupdate(i);
      OthersSameTransitive(old(disk), old(inodes), d, inodes, disk, inodes, i);
      LayoutOrder();
      r := tot;
    }

    lemma LayoutOrder()
      requires Owned()
      ensures sb.inodestart < sb.bmapstart
    {
    }

    /** The size follows when the write went past the end. */
    method GrowTo(i: nat, end: nat, ghost d: seq<Block>, ghost ns: seq<Inode>)
      requires Owned() && i < |inodes| && OthersSame(d, ns, disk, inodes, i)
      requires FilledTo(disk, inodes[i], Max(inodes[i].size, end))
      modifies this`inodes
      ensures Filled() && |inodes| == |old(inodes)| && OthersSame(d, ns, disk, inodes, i)
      ensures forall j :: 0 <= j < |inodes| && j != i ==> inodes[j] == old(inodes)[j]
      ensures SameKind(inodes[i], old(inodes)[i])
      ensures Content(i) == old(Bytes(disk, inodes[i], Max(inodes[i].size, end)))
      ensures old(Full()) ==> Full()
    {
      hide OwnershipUpTo, Bytes, Ref, FilledTo, Used;
      if end > inodes[i].size {
        ResizeKeeps(sb, disk, inodes, owner, i, end, end);
        inodes := inodes[i := inodes[i].(size := end)];
      }
      forall j: nat | j < |inodes| && j != i
        ensures SameFile(d, ns, disk, inodes, j)
      {
        assert SameFile(d, ns, disk, old(inodes), j);
      }
      forall j | 0 <= j < |inodes|
        ensures FilledTo(disk, inodes[j], inodes[j].size)
      {
        assert j == i || SameFile(d, ns, disk, inodes, j);
      }
    }

    lemma AllSame(i: nat)
      requires Valid() && i < |inodes|
      ensures OthersSame(disk, inodes, disk, inodes, i)
      ensures logged == {} ==> LogCost(i) == 0
      ensures inodes[i].size <= MAXFILE * BSIZE
    {
      assert logged == {} ==> logged - IndirectBlocks(i) == {};
    }

    lemma IndirectIsTwo(i: nat)
      requires Owned() && i < |inodes|
      ensures |logged| <= LogCost(i) + 2
    {
      var s := IndirectBlocks(i);
      assert |s| <= 2;
      SubsetSize(logged, (logged - s) + s);
    }

    // ---- Splitting a write into transactions ----

    /** filewrite on an inode. Each round is one transaction, and `txns` says what each one did.
        `copies(t)` copies succeed in transaction t. */
    method Filewrite(i: nat, src: seq<byte>, off0: nat, copies: nat -> nat)
      returns (ret: int, off: nat, ghost txns: seq<Txlog>)
      requires Valid() && i < |inodes| && off0 < U32 && |src| < U32
      modifies this`disk, this`inodes, this`owner, this`logged
      ensures Valid() && i < |inodes| && OthersSame(old(disk), old(inodes), disk, inodes, i)
      ensures off0 <= off <= off0 + |src|
      ensures ret == if off == off0 + |src| then |src| else -1
      ensures off0 > old(inodes)[i].size ==> off == off0
      ensures Content(i) == Written(old(Content(i)), off0, src[..off - off0]) && SameKind(inodes[i], old(inodes)[i])
      ensures ret == -1 ==>
                off0 > old(inodes)[i].size || off0 + |src| > MAXFILE * BSIZE || Full() ||
                exists t :: copies(t) < 4
      ensures Chained(old(disk), disk, txns)
      ensures forall t :: 0 <= t < |txns| ==> TxlogOk(sb, i, old(disk), old(Content(i)), off0, src, txns[t])
      ensures ret != -1 ==> Portions(txns, |src|) && |src| <= 3072 * |txns|
      ensures ret == -1 ==>
                var t := |txns| - 1;
                t >= 0 && Portions(txns[..t], |src|) && txns[t].from == 3072 * t && txns[t].to == off - off0
    {
      hide OwnershipUpTo, KeepsData, Bytes, Word, Ref, Used, BlockSpan, Splice, WriteCost, OthersSame, FilledTo,
           Portions, Full, Shape, Written, TxlogOk, StoredBut, Sound, FilesAre, FitsTheLog, OnlyLogged, Chained;
      var max := (CrashSafety.MAXOPBLOCKS - 1 - 1 - 2) / 2 * BSIZE;
      var k, r, round := 0, 0, 0;
      off, txns := off0, [];
      ChainNone(disk);
      assert Portions(txns, |src|) by { PortionsNone(|src|); }
      ghost var c := Content(i);
      AllSame(i);
      DiskIsSound();
      WrittenNothing(c, off0, src);
      while k < |src|
        invariant Valid() && i < |inodes| && OthersSame(old(disk), old(inodes), disk, inodes, i)
        invariant 0 <= k <= |src| && off == off0 + k < U32
        invariant Content(i) == Written(c, off0, src[..k]) && SameKind(inodes[i], old(inodes)[i])
        invariant if off0 > old(inodes)[i].size then k == 0 else off <= MAXFILE * BSIZE
        invariant Chained(old(disk), disk, txns)
        invariant forall t :: 0 <= t < |txns| ==> TxlogOk(sb, i, old(disk), c, off0, src, txns[t])
        invariant Portions(txns, |src|) && k == if 3072 * |txns| < |src| then 3072 * |txns| else |src|
      {
        var n1 := if |src| - k > max then max else |src| - k;
        ghost var early;
        ghost var d := disk;
        FilesOnDisk(old(disk), old(inodes), i);
        r, early := WriteTransaction(i, src[k..k + n1], off, copies(round), old(disk), old(inodes));
        round := round + 1;
        WrittenMore(c, off0, src, k, n1, r);
        FilesOnDisk(old(disk), old(inodes), i);
        ghost var x := Txlog(d, disk, early, logged, k, k + Max0(r));
        TxlogIsOk(sb, i, old(disk), c, off0, src, x);
        ChainOne(old(disk), disk, txns, x);
        PortionsMore(txns, |src|, x);
        txns := txns + [x];
        if r > 0 {
          off := off + r;
        }
        if r != n1 {
          break;
        }
        k := k + r;
      }
      ret := if k == |src| then |src| else -1;
    }

    /** A valid state can be mounted from its disk. */
    lemma DiskIsSound()
      requires Valid()
      ensures Sound(sb, disk) && StoredInodes(sb, disk) == inodes
      ensures forall i: nat :: i < sb.ninodes ==> FileOn(sb, disk, i) == Content(i)
    {
      hide Dinode, OwnershipUpTo, FilledTo, Bytes;
      StoredIs(sb, disk, inodes);
    }

    lemma FilesOnDisk(d: seq<Block>, ns: seq<Inode>, i: nat)
      requires Valid() && i < |inodes| && OthersSame(d, ns, disk, inodes, i)
      requires Sound(sb, d) && StoredInodes(sb, d) == ns && SameKind(inodes[i], ns[i])
      ensures FilesAre(sb, disk, d, i, Content(i))
    {
      hide OwnershipUpTo, FilledTo, Bytes, Sound, StoredInodes;
      DiskIsSound();
      forall j: nat | j < sb.ninodes && j != i ensures FileOn(sb, disk, j) == FileOn(sb, d, j) {
        assert SameFile(d, ns, disk, inodes, j);
      }
      forall j: nat | j < sb.ninodes ensures SameKind(inodes[j], ns[j]) {
        assert j == i || SameFile(d, ns, disk, inodes, j);
      }
    }

    static lemma TxlogIsOk(sb: Super, i: nat, d: seq<Block>, c: seq<byte>, off: nat, src: seq<byte>, x: Txlog)
      requires x.from <= x.to <= |src|
      requires FitsTheLog(sb, i, x.early, x.logged) && OnlyLogged(sb, x.before, x.after, x.logged)
      requires FilesAre(sb, x.before, d, i, Written(c, off, src[..x.from]))
      requires FilesAre(sb, x.after, d, i, Written(c, off, src[..x.to]))
      ensures TxlogOk(sb, i, d, c, off, src, x)
    {
    }

    static lemma ChainNone(d: seq<Block>)
      ensures Chained(d, d, [])
    {
    }

    static lemma ChainOne(d: seq<Block>, e: seq<Block>, xs: seq<Txlog>, x: Txlog)
      requires Chained(d, x.before, xs) && x.after == e
      ensures Chained(d, e, xs + [x])
    {
      assert (xs + [x])[..|xs|] == xs;
    }

    /** One transaction of filewrite: begin_op, writei, end_op. */
    method WriteTransaction(i: nat, src: seq<byte>, off: nat, copies: nat, ghost d: seq<Block>, ghost ns: seq<Inode>)
      returns (r: int, ghost early: set<nat>)
      requires Valid() && i < |inodes| && off < U32 && |src| <= 3 * BSIZE && OthersSame(d, ns, disk, inodes, i)
      modifies this`disk, this`inodes, this`owner, this`logged
      ensures Valid() && i < |inodes| && OthersSame(d, ns, disk, inodes, i)
      ensures r == -1 || 0 <= r <= |src|
      ensures r == -1 <==> off > old(inodes)[i].size || off + |src| > MAXFILE * BSIZE
      ensures Content(i) == Written(old(Content(i)), off, src[..Max0(r)]) && SameKind(inodes[i], old(inodes)[i])
      ensures 0 <= r < |src| ==> Full() || copies < 4
      ensures FitsTheLog(sb, i, early, logged) && OnlyLogged(sb, old(disk), disk, logged)
    {
      hide OwnershipUpTo, KeepsData, Bytes, Word, Ref, Used, BlockSpan, Splice, WriteCost, OthersSame, FilledTo, Full,
           StoredBut;
      logged := {};
      label before:
      r, early := Writei(i, src, off, copies);
      TransactionCost(off, |src|);
      Cardinality(early, logged, IBlock(sb, i), 0);
      WrittenNothing(old(Content(i)), off, src);
      OthersSameTransitive(d, ns, old@before(disk), old@before(inodes), disk, inodes, i);
    }

    lemma TransactionCost(off: nat, n: nat)
      requires n <= 3 * BSIZE
      ensures WriteCost(off, n) <= CrashSafety.MAXOPBLOCKS - 3 && BlockSpan(off, off + n) <= 4
    {
    }

    static function Max0(r: int): nat { if r < 0 then 0 else r }

    lemma WrittenNothing(c: seq<byte>, off: nat, src: seq<byte>)
      ensures Written(c, off, src[..0]) == c
    {
    }

    lemma WrittenMore(c: seq<byte>, off: nat, src: seq<byte>, k: nat, n: nat, r: int)
      requires r <= n && k + n <= |src| && (off > |c| ==> k == 0)
      ensures Written(Written(c, off, src[..k]), off + k, src[k..k + n][..Max0(r)]) ==
                Written(c, off, src[..k + Max0(r)])
      ensures |Written(c, off, src[..k])| >= if off <= |c| then off + k else 0
    {
      hide Splice;
      var q := Max0(r);
      if off <= |c| {
        Halves(src, k, n, q);
        SpliceTwice(c, off, src[..k], src[k..k + q]);
      }
    }

    lemma Halves(s: seq<byte>, k: nat, n: nat, q: nat)
      requires q <= n && k + n <= |s|
      ensures s[k..k + n][..q] == s[k..k + q] && s[..k] + s[k..k + q] == s[..k + q]
    {
    }

    // ---- Truncation ----

    /** The data area, the other inodes and what they own are as before. */
    ghost predicate OnlyFreed(i: nat, d: seq<Block>, ns: seq<Inode>, own: map<nat, Place>)
      reads this
    {
      && |disk| == |d| && |inodes| == |ns|
      && (forall b :: sb.datastart <= b < |d| ==> disk[b] == d[b])
      && (forall j :: 0 <= j < |ns| && j != i ==> inodes[j] == ns[j])
      && (forall b :: b in owner ==> b in own && owner[b] == own[b])
      && (forall b :: b in own && own[b].inum != i ==> b in owner)
    }

    /** Free slot `s` of the inode itself, if it names a block. */
    method FreeSlot(i: nat, s: nat, ghost gone: nat, ghost d: seq<Block>, ghost ns: seq<Inode>,
                    ghost own: map<nat, Place>)
      returns (ok: bool)
      requires Shape(sb, disk, inodes) && OwnershipUpTo(sb, disk, inodes, owner, i, gone) && i < |inodes| &&
               s <= NDIRECT
      requires gone == if s == NDIRECT then NINDIRECT else 0
      requires s == NDIRECT ==> inodes[i].addrs[NDIRECT] != 0
      requires OnlyFreed(i, d, ns, own)
      modifies this`disk, this`inodes, this`owner, this`logged
      ensures ok && Owned() && i < |inodes| && OnlyFreed(i, d, ns, own)
      ensures inodes[i] == old(inodes)[i].(addrs := old(inodes)[i].addrs[s := 0])
      ensures Recorded(i, old(disk), old(inodes), old(logged))
    {
      hide OwnershipUpTo, Used;
      ok := true;
      if inodes[i].addrs[s] != 0 {
        ghost var b := inodes[i].addrs[s];
        ReleaseFromInode(sb, disk, inodes, owner, i, s, gone);
        BitmapBeforeData(sb, b);
        ok := Bfree(inodes[i].addrs[s]);
        inodes := inodes[i := inodes[i].(addrs := inodes[i].addrs[s := 0])];
        owner := owner - {b};
      } else {
        assert inodes[i].addrs[s := 0] == inodes[i].addrs;
        assert inodes[i := inodes[i]] == inodes;
        NoneDying(i);
      }
    }

    lemma NoneDying(i: nat)
      ensures OwnershipUpTo(sb, disk, inodes, owner, i, 0) <==> Ownership(sb, disk, inodes, owner)
    {
      assert forall j: nat, t: nat :: Live(j, t, i, 0) && Live(j, t, 0, 0);
    }

    /** Free the blocks that the indirect block names. */
    method FreeEntries(i: nat, ghost d: seq<Block>, ghost ns: seq<Inode>, ghost own: map<nat, Place>) returns (ok: bool)
      requires Owned() && i < |inodes| && inodes[i].addrs[NDIRECT] != 0 && OnlyFreed(i, d, ns, own)
      modifies this`disk, this`owner, this`logged
      ensures ok && Shape(sb, disk, inodes) && OwnershipUpTo(sb, disk, inodes, owner, i, NINDIRECT)
      ensures OnlyFreed(i, d, ns, own) && Recorded(i, old(disk), inodes, old(logged))
    {
      hide OwnershipUpTo, Used, Word;
      NoneDying(i);
      var ind := inodes[i].addrs[NDIRECT];
      IndirectInData(i, 0);
      var a := disk[ind];
      var j := 0;
      while j < NINDIRECT
        invariant 0 <= j <= NINDIRECT
        invariant Shape(sb, disk, inodes) && OwnershipUpTo(sb, disk, inodes, owner, i, j) && OnlyFreed(i, d, ns, own)
        invariant disk[ind] == a && Recorded(i, old(disk), inodes, old(logged))
      {
        ReleaseEntry(sb, disk, inodes, owner, i, j);
        if Word(a, j) != 0 {
          ghost var b := Word(a, j);
          BitmapBeforeData(sb, b);
          ok := Bfree(Word(a, j));
          if !ok {
            return;
          }
          owner := owner - {b};
        }
        j := j + 1;
      }
      ok := true;
    }

    lemma IndirectInData(i: nat, gone: nat)
      requires Shape(sb, disk, inodes) && OwnershipUpTo(sb, disk, inodes, owner, i, gone) && i < |inodes|
      ensures inodes[i].addrs[NDIRECT] == 0 || inodes[i].addrs[NDIRECT] >= sb.datastart
    {
      assert Live(i, NDIRECT, i, gone);
      assert OwnedAt(disk, inodes, owner, i, NDIRECT);
    }

    /** itrunc: the file is empty, exactly its blocks are free again, and "freeing free block"
        cannot happen. */
    method Itrunc(i: nat) returns (ok: bool)
      requires Valid() && i < |inodes|
      modifies this`disk, this`inodes, this`owner, this`logged
      ensures ok && Valid() && i < |inodes| && Content(i) == []
      ensures inodes[i] == old(inodes)[i].(size := 0, addrs := seq(NDIRECT + 1, _ => 0))
      ensures OthersSame(old(disk), old(inodes), disk, inodes, i)
      ensures forall b :: b in owner <==> b in old(owner) && old(owner)[b].inum != i
      ensures forall b: nat :: b < sb.size ==>
                (Used(sb, disk, b) <==> Used(sb, old(disk), b) && !(b in old(owner) && old(owner)[b].inum == i))
      ensures AllLogged(old(disk), old(logged))
    {
      hide OwnershipUpTo, Used, FilledTo, Bytes, Ref, StoredBut;
      ghost var d, ns, own := disk, inodes, owner;
      var s := 0;
      while s < NDIRECT
        invariant 0 <= s <= NDIRECT
        invariant Owned() && i < |inodes| && OnlyFreed(i, d, ns, own) && Recorded(i, d, ns, old(logged))
        invariant OnlyAddrs(inodes[i], ns[i]) && forall t :: 0 <= t < s ==> inodes[i].addrs[t] == 0
      {
        NoneDying(i);
        ok := FreeSlot(i, s, 0, d, ns, own);
        s := s + 1;
      }
      if inodes[i].addrs[NDIRECT] != 0 {
        ok := FreeEntries(i, d, ns, own);
        ok := FreeSlot(i, NDIRECT, NINDIRECT, d, ns, own);
      }
      StillStored(i, d, ns, old(logged));
      LayoutOrder();
      FinishTruncate(i, d, ns, own);
      ok := true;
    }

    /** The end of a truncation: the size is zero, and the inode goes to its block. */
    method FinishTruncate(i: nat, ghost d: seq<Block>, ghost ns: seq<Inode>, ghost own: map<nat, Place>)
      requires Owned() && i < |inodes| && OnlyFreed(i, d, ns, own) && Ownership(sb, d, ns, own)
      requires StoredBut(sb, disk, inodes, i) && forall t :: 0 <= t <= NDIRECT ==> inodes[i].addrs[t] == 0
      requires forall j :: 0 <= j < |ns| ==> FilledTo(d, ns[j], ns[j].size)
      modifies this`disk, this`inodes, this`logged
      ensures Valid() && i < |inodes| && Content(i) == []
      ensures inodes[i] == old(inodes)[i].(size := 0, addrs := seq(NDIRECT + 1, _ => 0))
      ensures OthersSame(d, ns, disk, inodes, i)
      ensures forall b :: b in owner <==> b in own && own[b].inum != i
      ensures forall b: nat :: b < sb.size ==>
                (Used(sb, disk, b) <==> Used(sb, d, b) && !(b in own && own[b].inum == i))
      ensures logged == old(logged) + {IBlock(sb, i)} && sb.inodestart <= IBlock(sb, i) < |old(disk)|
      ensures |disk| == |old(disk)| && forall b :: 0 <= b < |disk| && b != IBlock(sb, i) ==> disk[b] == old(disk)[b]
    {
      hide OwnershipUpTo, Used, FilledTo, Bytes, Ref, OthersSame, StoredBut;
      NothingOwned(i);
      EmptyIsFilled(i);
      ResizeKeeps(sb, disk, inodes, owner, i, 0, 0);
      StoredApart(i, inodes[i].(size := 0));
      inodes := inodes[i := inodes[i].(size := 0)];
      assert inodes[i].addrs == seq(NDIRECT + 1, _ => 0);
      OthersSurvive(i, d, ns, own);
      ghost var e := disk;
      Iupdate(i);
      OthersSameTransitive(d, ns, e, inodes, disk, inodes, i);
      OwnershipMarks(d, ns, own);
      OwnershipMarks(disk, inodes, owner);
    }

    lemma EmptyIsFilled(i: nat)
      requires Owned() && i < |inodes|
      ensures FilledTo(disk, inodes[i], 0)
    {
    }

    lemma StoredApart(i: nat, ip: Inode)
      requires StoredBut(sb, disk, inodes, i) && i < |inodes|
      ensures StoredBut(sb, disk, inodes[i := ip], i)
    {
      hide Dinode;
      var ns := inodes[i := ip];
      forall j: nat | j < |inodes| && j != i ensures StoredAt(sb, disk, ns, j) {
        assert StoredAt(sb, disk, inodes, j);
      }
    }

    /** The other files after a truncation. */
    lemma OthersSurvive(i: nat, d: seq<Block>, ns: seq<Inode>, own: map<nat, Place>)
      requires OnlyFreed(i, d, ns, own) && Ownership(sb, d, ns, own) && i < |inodes| &&
               FilledTo(disk, inodes[i], inodes[i].size)
      requires forall j :: 0 <= j < |ns| ==> FilledTo(d, ns[j], ns[j].size)
      ensures OthersSame(d, ns, disk, inodes, i)
      ensures forall j :: 0 <= j < |inodes| ==> FilledTo(disk, inodes[j], inodes[j].size)
    {
      hide OwnershipUpTo, FilledTo, Bytes;
      forall j: nat | j < |inodes| && j != i
        ensures SameFile(d, ns, disk, inodes, j)
      {
        OutsideDataKeepsFile(sb, d, ns, own, disk, inodes, j);
      }
      forall j | 0 <= j < |inodes|
        ensures FilledTo(disk, inodes[j], inodes[j].size)
      {
        assert j == i || SameFile(d, ns, disk, inodes, j);
      }
    }

    lemma NothingOwned(i: nat)
      requires Owned() && i < |inodes| && forall t :: 0 <= t <= NDIRECT ==> inodes[i].addrs[t] == 0
      ensures forall b :: b in owner ==> owner[b].inum != i
    {
    }

    lemma OwnershipMarks(d: seq<Block>, ns: seq<Inode>, own: map<nat, Place>)
      requires Ownership(sb, d, ns, own)
      ensures forall b: nat :: b < sb.size ==> (Used(sb, d, b) <==> b < sb.datastart || b in own)
      ensures forall b :: b in own ==> b >= sb.datastart
    {
    }
  }
}
