/** Where kernel/fs.h and kernel/log.c have the log header, the inodes and the free map, byte by byte. */
module DiskLayout {
  import opened Blocks
  import opened Bitmap
  import opened Dinodes
  import CrashSafety

  /** Four bytes, the lowest first. */
  function Le32(b: Block, at: nat): nat
    requires at + 4 <= 1024
  {
    b[at] as int + 256 * (b[at + 1] as int + 256 * (b[at + 2] as int + 256 * b[at + 3] as int))
  }

  lemma WordIsLe32(b: Block, i: nat)
    requires i < 256
    ensures Word(b, i) == Le32(b, 4 * i)
  {
  }

  /** The log header: the number of blocks, and then theirs. */
  lemma HeaderLayout(was: Block, lh: seq<nat>)
    requires |lh| <= CrashSafety.LOGBLOCKS && CrashSafety.WordsFit(lh)
    ensures Le32(CrashSafety.HeaderBlock(was, lh), 0) == |lh|
    ensures forall t :: 0 <= t < |lh| ==> Le32(CrashSafety.HeaderBlock(was, lh), 4 + 4 * t) == lh[t]
  {
    var b := CrashSafety.HeaderBlock(was, lh);
    CrashSafety.HeaderRoundTrip(was, lh);
    hide Word, Le32, CrashSafety.HeaderBlock;
    WordIsLe32(b, 0);
    forall t | 0 <= t < |lh| ensures Le32(b, 4 + 4 * t) == lh[t] {
      WordIsLe32(b, 1 + t);
      assert CrashSafety.ReadHeader(b)[t] == Word(b, 1 + t);
    }
  }

  /** Inode `inum`: sixteen to a block from inodestart on, of 64 bytes each; type and major number,
      minor number and link count, the size, twelve direct addresses and the indirect one. */
  lemma DinodeLayout(sb: Super, b: Block, inum: nat)
    ensures IBlock(sb, inum) == sb.inodestart + inum / 16
    ensures var at, ip := 64 * (inum % 16), Dinode(b, inum);
            && ip.kind == Le32(b, at) && ip.links == Le32(b, at + 4) && ip.size == Le32(b, at + 8)
            && |ip.addrs| == 13 && forall k :: 0 <= k < 13 ==> ip.addrs[k] == Le32(b, at + 12 + 4 * k)
  {
    hide Word, Le32;
    var w := Base(inum);
    assert w == 16 * (inum % 16);
    WordIsLe32(b, w);
    WordIsLe32(b, w + 1);
    WordIsLe32(b, w + 2);
    forall k | 0 <= k < 13 ensures Dinode(b, inum).addrs[k] == Le32(b, 64 * (inum % 16) + 12 + 4 * k) {
      WordIsLe32(b, w + 3 + k);
    }
  }

  /** The free map: block `b` has one bit, the lowest of a byte first, 8192 to a map block. */
  lemma BitmapLayout(sb: Super, d: seq<Block>, b: nat)
    requires sb.bmapstart + b / 8192 < |d|
    ensures Used(sb, d, b) <==>
            d[sb.bmapstart + b / 8192][b % 8192 / 8] / [1, 2, 4, 8, 16, 32, 64, 128][b % 8] % 2 == 1
  {
    var x := d[sb.bmapstart + b / 8192][b % 8192 / 8];
    assert b % 8192 % 8 == b % 8;
    BitIs(x, b % 8);
    assert Mask(0) == 1 && Mask(1) == 2 && Mask(2) == 4 && Mask(3) == 8;
    assert Mask(4) == 16 && Mask(5) == 32 && Mask(6) == 64 && Mask(7) == 128;
  }

  /** Bit `k` of a number. */
  lemma {:induction false} BitIs(x: nat, k: nat)
    requires k < 8
    ensures HasBit(x, k) <==> x / Mask(k) % 2 == 1
  {
    if k == 0 {
    } else {
      BitIs(x / 2, k - 1);
      assert Mask(0) == 1 && Mask(1) == 2 && Mask(2) == 4 && Mask(3) == 8;
      assert Mask(4) == 16 && Mask(5) == 32 && Mask(6) == 64 && Mask(7) == 128;
      HalfFirst(x, k);
    }
  }

  lemma HalfFirst(x: nat, k: nat)
    requires 0 < k < 8
    ensures var m := [1, 2, 4, 8, 16, 32, 64, 128]; x / 2 / m[k - 1] == x / m[k]
  {
    match k
    case 1 => assert x / 2 / 1 == x / 2;
    case 2 => assert x / 2 / 2 == x / 4;
    case 3 => assert x / 2 / 4 == x / 8;
    case 4 => assert x / 2 / 8 == x / 16;
    case 5 => assert x / 2 / 16 == x / 32;
    case 6 => assert x / 2 / 32 == x / 64;
    case 7 => assert x / 2 / 64 == x / 128;
  }
}
