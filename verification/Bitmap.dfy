/** The free map of kernel/fs.c: one bit per disk block, packed into bitmap blocks. */
module Bitmap {
  import opened Blocks

  const BPB := 8 * BSIZE

  /** The layout that mkfs gives a disk: inode blocks, then the free map, then data blocks. */
  datatype Super = Super(size: nat, ninodes: nat, inodestart: nat, bmapstart: nat, datastart: nat)

  ghost predicate SuperOk(sb: Super) {
    && 0 < sb.inodestart < sb.bmapstart
    && sb.inodestart + sb.ninodes / IPB < sb.bmapstart
    && sb.bmapstart + sb.size / BPB < sb.datastart <= sb.size < U32
  }

  /** Inodes per block: struct dinode has 64 bytes. */
  const IPB := BSIZE / 64

  function IBlock(sb: Super, inum: nat): nat { inum / IPB + sb.inodestart }

  function BBlock(sb: Super, b: nat): nat { b / BPB + sb.bmapstart }

  // ---- Bits of a byte ----

  /** 1 << k */
  function Mask(k: nat): (m: nat)
    ensures m > 0
  {
    if k == 0 then 1 else 2 * Mask(k - 1)
  }

  /** Is bit `k` of `x` set? */
  predicate HasBit(x: nat, k: nat) {
    if k == 0 then x % 2 == 1 else HasBit(x / 2, k - 1)
  }

  lemma {:induction false} BitFits(x: nat, k: nat, n: nat)
    requires k < n && x < Mask(n)
    ensures if HasBit(x, k) then x >= Mask(k) else x + Mask(k) < Mask(n)
  {
    if k == 0 {
    } else {
      BitFits(x / 2, k - 1, n - 1);
    }
  }

  /** Adding 1 << k where bit k is clear sets that bit alone; subtracting it where it is set
      clears that bit alone. */
  lemma {:induction false} BitArithmetic(x: nat, k: nat, j: nat)
    ensures !HasBit(x, k) ==> HasBit(x + Mask(k), j) == (j == k || HasBit(x, j))
    ensures HasBit(x, k) && x >= Mask(k) ==> HasBit(x - Mask(k), j) == (j != k && HasBit(x, j))
  {
    if k > 0 {
      assert (x + Mask(k)) / 2 == x / 2 + Mask(k - 1);
      assert x >= Mask(k) ==> (x - Mask(k)) / 2 == x / 2 - Mask(k - 1);
      if j > 0 {
        BitArithmetic(x / 2, k - 1, j - 1);
      }
    } else {
      assert !HasBit(x, 0) ==> (x + 1) / 2 == x / 2;
      assert HasBit(x, 0) ==> (x - 1) / 2 == x / 2;
    }
  }

  function SetByteBit(x: byte, k: nat): byte
    requires k < 8
  {
    assert Mask(8) == 256 && Mask(4) == 16;
    BitFits(x, k, 8);
    if HasBit(x, k) then x else x + Mask(k)
  }

  function ClearByteBit(x: byte, k: nat): byte
    requires k < 8
  {
    assert Mask(8) == 256 && Mask(4) == 16;
    BitFits(x, k, 8);
    if HasBit(x, k) then x - Mask(k) else x
  }

  lemma BitsOfByte(x: byte, k: nat, j: nat)
    requires k < 8
    ensures HasBit(SetByteBit(x, k), j) == (j == k || HasBit(x, j))
    ensures HasBit(ClearByteBit(x, k), j) == (j != k && HasBit(x, j))
  {
    assert Mask(8) == 256 && Mask(4) == 16;
    BitFits(x, k, 8);
    BitArithmetic(x, k, j);
  }

  // ---- Bits of the map ----

  predicate BlockBit(blk: Block, i: nat)
    requires i < BPB
  {
    HasBit(blk[i / 8], i % 8)
  }

  function SetBlockBit(blk: Block, i: nat): Block
    requires i < BPB
  {
    blk[i / 8 := SetByteBit(blk[i / 8], i % 8)]
  }

  function ClearBlockBit(blk: Block, i: nat): Block
    requires i < BPB
  {
    blk[i / 8 := ClearByteBit(blk[i / 8], i % 8)]
  }

  lemma BitsOfBlock(blk: Block, i: nat, j: nat)
    requires i < BPB && j < BPB
    ensures BlockBit(SetBlockBit(blk, i), j) == (j == i || BlockBit(blk, j))
    ensures BlockBit(ClearBlockBit(blk, i), j) == (j != i && BlockBit(blk, j))
  {
    if i / 8 == j / 8 {
      BitsOfByte(blk[i / 8], i % 8, j % 8);
      assert i == 8 * (i / 8) + i % 8 && j == 8 * (j / 8) + j % 8;
    }
  }

  /** Is block `b` marked in use? */
  predicate Used(sb: Super, d: seq<Block>, b: nat) {
    BBlock(sb, b) < |d| && BlockBit(d[BBlock(sb, b)], b % BPB)
  }

  function MarkUsed(sb: Super, d: seq<Block>, b: nat): (e: seq<Block>)
    requires BBlock(sb, b) < |d|
    ensures |e| == |d|
  {
    d[BBlock(sb, b) := SetBlockBit(d[BBlock(sb, b)], b % BPB)]
  }

  function MarkFree(sb: Super, d: seq<Block>, b: nat): (e: seq<Block>)
    requires BBlock(sb, b) < |d|
    ensures |e| == |d|
  {
    d[BBlock(sb, b) := ClearBlockBit(d[BBlock(sb, b)], b % BPB)]
  }

  /** Marking a block changes its own bit and no other. */
  lemma MarksAreExact(sb: Super, d: seq<Block>, b: nat, c: nat)
    requires BBlock(sb, b) < |d| && BBlock(sb, c) < |d|
    ensures Used(sb, MarkUsed(sb, d, b), c) == (c == b || Used(sb, d, c))
    ensures Used(sb, MarkFree(sb, d, b), c) == (c != b && Used(sb, d, c))
  {
    if BBlock(sb, b) == BBlock(sb, c) {
      BitsOfBlock(d[BBlock(sb, b)], b % BPB, c % BPB);
      assert b == BPB * (b / BPB) + b % BPB && c == BPB * (c / BPB) + c % BPB;
    }
  }
}
