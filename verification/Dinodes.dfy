/** The on-disk inodes of kernel/fs.h: sixteen to a block, each with two words of type, device
    numbers and link count, its size, and its block addresses. */
module Dinodes {
  import opened Blocks
  import opened Bitmap
  import opened Inodes

  const DINODE_WORDS := 16

  /** The first word of an inode in its block. */
  function Base(inum: nat): (w: nat)
    ensures w + DINODE_WORDS <= WORDS
  {
    inum % IPB * DINODE_WORDS
  }

  function AddrAt(b: Block, inum: nat, k: nat): nat
    requires k <= NDIRECT
  {
    Word(b, Base(inum) + 3 + k)
  }

  function Addrs(b: Block, inum: nat): (r: seq<nat>)
    ensures |r| == NDIRECT + 1 && forall k :: 0 <= k <= NDIRECT ==> r[k] == AddrAt(b, inum, k)
  {
    seq(NDIRECT + 1, (k: nat) requires k <= NDIRECT => AddrAt(b, inum, k))
  }

  function Dinode(b: Block, inum: nat): Inode {
    Inode(Word(b, Base(inum)), Word(b, Base(inum) + 1), Word(b, Base(inum) + 2), Addrs(b, inum))
  }

  predicate Storable(ip: Inode) {
    ip.size < U32 && |ip.addrs| == NDIRECT + 1 && forall k :: 0 <= k <= NDIRECT ==> ip.addrs[k] < U32
  }

  /** The first `n` addresses stored. */
  function PutAddrs(b: Block, inum: nat, ip: Inode, n: nat): Block
    requires Storable(ip) && n <= NDIRECT + 1
  {
    if n == 0 then b else PutWord(PutAddrs(b, inum, ip, n - 1), Base(inum) + 3 + (n - 1), ip.addrs[n - 1])
  }

  /** The three words before the addresses stored. */
  function PutHead(b: Block, inum: nat, ip: Inode): Block
    requires Storable(ip)
  {
    PutWord(PutWord(PutWord(b, Base(inum), ip.kind), Base(inum) + 1, ip.links), Base(inum) + 2, ip.size)
  }

  function PutDinode(b: Block, inum: nat, ip: Inode): Block
    requires Storable(ip)
  {
    PutAddrs(PutHead(b, inum, ip), inum, ip, NDIRECT + 1)
  }

  lemma {:induction false} WordsOfAddrs(b: Block, inum: nat, ip: Inode, n: nat, w: nat)
    requires Storable(ip) && n <= NDIRECT + 1 && w < WORDS
    ensures Word(PutAddrs(b, inum, ip, n), w) ==
            var at := Base(inum) + 3; if at <= w < at + n then ip.addrs[w - at] else Word(b, w)
  {
    hide Word, PutWord, Base;
    if n == 0 {
    } else {
      WordsOfAddrs(b, inum, ip, n - 1, w);
      WordOfPutWord(PutAddrs(b, inum, ip, n - 1), Base(inum) + 3 + (n - 1), ip.addrs[n - 1], w);
    }
  }

  /** Two inodes of one block have disjoint words. */
  lemma BasesApart(i: nat, j: nat)
    ensures i % IPB != j % IPB ==> Base(i) + DINODE_WORDS <= Base(j) || Base(j) + DINODE_WORDS <= Base(i)
    ensures i % IPB == j % IPB ==> Base(i) == Base(j)
  {
  }

  lemma WordOfPutDinode(b: Block, inum: nat, ip: Inode, w: nat)
    requires Storable(ip) && w < WORDS
    ensures Word(PutDinode(b, inum, ip), w) ==
            if w == Base(inum) then ip.kind
            else if w == Base(inum) + 1 then ip.links
            else if w == Base(inum) + 2 then ip.size
            else if Base(inum) + 3 <= w < Base(inum) + DINODE_WORDS then ip.addrs[w - Base(inum) - 3]
            else Word(b, w)
  {
    hide Word, PutWord, Base, PutAddrs;
    var at := Base(inum);
    var c := PutWord(b, at, ip.kind);
    WordsOfAddrs(PutHead(b, inum, ip), inum, ip, NDIRECT + 1, w);
    WordOfPutWord(PutWord(c, at + 1, ip.links), at + 2, ip.size, w);
    WordOfPutWord(c, at + 1, ip.links, w);
    WordOfPutWord(b, at, ip.kind, w);
  }

  /** A stored inode reads back, and the others of its block are as they were. */
  lemma DinodeRoundTrip(b: Block, i: nat, ip: Inode, j: nat)
    requires Storable(ip)
    ensures Dinode(PutDinode(b, i, ip), j) == if i % IPB == j % IPB then ip else Dinode(b, j)
  {
    hide Word, PutWord, Base, PutAddrs, PutDinode;
    BasesApart(i, j);
    var c := PutDinode(b, i, ip);
    WordOfPutDinode(b, i, ip, Base(j));
    WordOfPutDinode(b, i, ip, Base(j) + 1);
    WordOfPutDinode(b, i, ip, Base(j) + 2);
    forall k | 0 <= k < NDIRECT + 1
      ensures AddrAt(c, j, k) == if i % IPB == j % IPB then ip.addrs[k] else AddrAt(b, j, k)
    {
      WordOfPutDinode(b, i, ip, Base(j) + 3 + k);
    }
    if i % IPB == j % IPB {
      assert Addrs(c, j) == ip.addrs;
    } else {
      assert Addrs(c, j) == Addrs(b, j);
    }
  }

  /** The inode blocks hold the inodes, except perhaps number `i`. */
  ghost predicate StoredBut(sb: Super, d: seq<Block>, inodes: seq<Inode>, i: nat) {
    forall j: nat :: j < |inodes| && j != i ==> StoredAt(sb, d, inodes, j)
  }

  ghost predicate StoredAt(sb: Super, d: seq<Block>, inodes: seq<Inode>, j: nat) {
    j < |inodes| && IBlock(sb, j) < |d| && Dinode(d[IBlock(sb, j)], j) == inodes[j]
  }

  lemma InodeBlocks(sb: Super, j: nat)
    requires SuperOk(sb) && j < sb.ninodes
    ensures sb.inodestart <= IBlock(sb, j) < sb.bmapstart < sb.size
  {
  }

  /** Storing inode `i` brings it up to date and leaves the rest alone. */
  lemma StoreInode(sb: Super, d: seq<Block>, inodes: seq<Inode>, i: nat)
    requires SuperOk(sb) && |d| == sb.size && |inodes| == sb.ninodes && i < |inodes| && Storable(inodes[i])
    requires StoredBut(sb, d, inodes, i)
    ensures IBlock(sb, i) < |d|
    ensures StoredBut(sb, d[IBlock(sb, i) := PutDinode(d[IBlock(sb, i)], i, inodes[i])], inodes, |inodes|)
  {
    hide Dinode, PutDinode, IBlock, SuperOk;
    InodeBlocks(sb, i);
    var e := d[IBlock(sb, i) := PutDinode(d[IBlock(sb, i)], i, inodes[i])];
    forall j: nat | j < |inodes| ensures StoredAt(sb, e, inodes, j) {
      InodeBlocks(sb, j);
      DinodeRoundTrip(d[IBlock(sb, i)], i, inodes[i], j);
      SameSlot(sb, i, j);
      assert j != i ==> StoredAt(sb, d, inodes, j);
    }
  }

  lemma SameSlot(sb: Super, i: nat, j: nat)
    ensures IBlock(sb, i) == IBlock(sb, j) && i % IPB == j % IPB ==> i == j
  {
  }

  // ---- Files as they are on the disk ----

  lemma SameUsed(sb: Super, d: seq<Block>, e: seq<Block>, b: nat)
    requires SuperOk(sb) && |e| == |d| == sb.size && forall b :: sb.bmapstart <= b < |d| ==> e[b] == d[b]
    requires b < sb.size
    ensures Used(sb, e, b) == Used(sb, d, b)
  {
    BitmapBeforeData(sb, b);
  }

  lemma SameRef(sb: Super, d: seq<Block>, inodes: seq<Inode>, owner: map<nat, Place>, e: seq<Block>, i: nat, s: nat)
    requires Ownership(sb, d, inodes, owner) && |e| == |d| && forall b :: sb.bmapstart <= b < |d| ==> e[b] == d[b]
    requires i < |inodes| && s < SLOTS
    ensures Ref(e, inodes[i], s) == Ref(d, inodes[i], s)
  {
    hide Used, Word;
    assert sb.bmapstart <= sb.datastart;
    hide SuperOk;
    assert OwnedAt(d, inodes, owner, i, NDIRECT);
    var x := inodes[i].addrs[NDIRECT];
    assert x == Ref(d, inodes[i], NDIRECT);
    assert x == 0 || e[x] == d[x];
  }

  /** Ownership and every file live in the bitmap and data blocks alone. */
  lemma BitmapAndDataDecide(sb: Super, d: seq<Block>, inodes: seq<Inode>, owner: map<nat, Place>, e: seq<Block>)
    requires Ownership(sb, d, inodes, owner) && |e| == |d| && forall b :: sb.bmapstart <= b < |d| ==> e[b] == d[b]
    ensures Ownership(sb, e, inodes, owner)
    ensures forall b: nat :: b < sb.size ==> Used(sb, e, b) == Used(sb, d, b)
  {
    hide Ref, Used, SuperOk;
    forall b: nat | b < sb.size ensures Used(sb, e, b) == Used(sb, d, b) {
      SameUsed(sb, d, e, b);
    }
    forall i: nat, s: nat | i < |inodes| && s < SLOTS ensures OwnedAt(e, inodes, owner, i, s) {
      SameRef(sb, d, inodes, owner, e, i, s);
      assert OwnedAt(d, inodes, owner, i, s);
    }
    forall b | b in owner ensures OwnerIs(e, inodes, b, owner[b]) {
      SameRef(sb, d, inodes, owner, e, owner[b].inum, owner[b].slot);
      assert OwnerIs(d, inodes, b, owner[b]);
    }
  }
}
