/** Block ownership in kernel/fs.c: which inode slot refers to which disk block, as values,
    and what allocation, attachment and release do to it. */
module Inodes {
  import opened Blocks
  import opened Bitmap

  const NDIRECT := 12
  const NINDIRECT := WORDS
  const MAXFILE := NDIRECT + NINDIRECT

  /** Every place that can name a block: the direct entries, the indirect pointer, and the
      entries of the indirect block. */
  const SLOTS := NDIRECT + 1 + NINDIRECT

  type Word32 = x: nat | x < U32

  /** `kind` is the word of type and major device number, `links` that of minor number and link count. */
  datatype Inode = Inode(kind: Word32, links: Word32, size: nat, addrs: seq<nat>)

  predicate SameKind(ip: Inode, jp: Inode) { ip.kind == jp.kind && ip.links == jp.links }

  /** Nothing but the block addresses differs. */
  predicate OnlyAddrs(ip: Inode, jp: Inode) { SameKind(ip, jp) && ip.size == jp.size }

  datatype Place = Place(inum: nat, slot: nat)

  ghost predicate Shape(sb: Super, d: seq<Block>, inodes: seq<Inode>) {
    && SuperOk(sb) && |d| == sb.size && |inodes| == sb.ninodes
    && forall i :: 0 <= i < |inodes| ==> |inodes[i].addrs| == NDIRECT + 1 && inodes[i].addrs[NDIRECT] < |d|
  }

  /** The block that slot `s` of an inode names; 0 is none. */
  function Ref(d: seq<Block>, ip: Inode, s: nat): nat
    requires |ip.addrs| == NDIRECT + 1 && ip.addrs[NDIRECT] < |d| && s < SLOTS
  {
    if s <= NDIRECT then ip.addrs[s]
    else if ip.addrs[NDIRECT] == 0 then 0
    else Word(d[ip.addrs[NDIRECT]], s - NDIRECT - 1)
  }

  /** The slot of entry `k` of the indirect block. */
  function Entry(k: nat): nat { NDIRECT + 1 + k }

  /** The slot of file block `bn`. */
  function SlotOf(bn: nat): nat {
    if bn < NDIRECT then bn else bn + 1
  }

  /** The disk block of file block `bn`, or 0. */
  function Mapped(d: seq<Block>, ip: Inode, bn: nat): nat
    requires |ip.addrs| == NDIRECT + 1 && ip.addrs[NDIRECT] < |d| && bn < MAXFILE
  {
    Ref(d, ip, SlotOf(bn))
  }

  /** Slots whose block is already released although the slot still names it: the first `gone`
      indirect entries of inode `dying`. Only itrunc, half way, has any. */
  predicate Live(i: nat, s: nat, dying: nat, gone: nat) {
    !(i == dying && NDIRECT < s <= NDIRECT + gone)
  }

  ghost predicate OwnedAt(d: seq<Block>, inodes: seq<Inode>, owner: map<nat, Place>, i: nat, s: nat)
    requires i < |inodes| && |inodes[i].addrs| == NDIRECT + 1 && inodes[i].addrs[NDIRECT] < |d| && s < SLOTS
  {
    var r := Ref(d, inodes[i], s);
    r != 0 ==> r in owner && owner[r] == Place(i, s)
  }

  ghost predicate OwnerIs(d: seq<Block>, inodes: seq<Inode>, b: nat, p: Place) {
    && p.inum < |inodes| && p.slot < SLOTS
    && |inodes[p.inum].addrs| == NDIRECT + 1 && inodes[p.inum].addrs[NDIRECT] < |d|
    && Ref(d, inodes[p.inum], p.slot) == b
  }

  /** Every named block belongs to exactly one slot of one inode, lies in the data area, and is
      marked; and every marked block of the data area is named. */
  ghost predicate OwnershipUpTo(sb: Super, d: seq<Block>, inodes: seq<Inode>, owner: map<nat, Place>, dying: nat,
                                gone: nat) {
    && Shape(sb, d, inodes)
    && (forall i: nat, s: nat :: i < |inodes| && s < SLOTS && Live(i, s, dying, gone) ==>
         OwnedAt(d, inodes, owner, i, s))
    && (forall b :: b in owner ==> sb.datastart <= b < sb.size)
    && (forall b :: b in owner ==> OwnerIs(d, inodes, b, owner[b]) && Live(owner[b].inum, owner[b].slot, dying, gone))
    && (forall b: nat :: b < sb.size ==> (Used(sb, d, b) <==> b < sb.datastart || b in owner))
  }

  ghost predicate Ownership(sb: Super, d: seq<Block>, inodes: seq<Inode>, owner: map<nat, Place>) {
    OwnershipUpTo(sb, d, inodes, owner, 0, 0)
  }

  /** No two slots name the same block. */
  lemma OwnersAreUnique(sb: Super, d: seq<Block>, inodes: seq<Inode>, owner: map<nat, Place>, i: nat, s: nat, j: nat,
                        t: nat)
    requires Ownership(sb, d, inodes, owner)
    requires i < |inodes| && j < |inodes| && s < SLOTS && t < SLOTS
    requires Ref(d, inodes[i], s) == Ref(d, inodes[j], t) != 0
    ensures i == j && s == t
    ensures Used(sb, d, Ref(d, inodes[i], s))
  {
    assert OwnedAt(d, inodes, owner, i, s) && OwnedAt(d, inodes, owner, j, t);
  }

  ghost predicate Kept(d: seq<Block>, ip: Inode, e: seq<Block>, jp: Inode, bn: nat)
    requires |d| == |e| && bn < MAXFILE
    requires |ip.addrs| == NDIRECT + 1 && ip.addrs[NDIRECT] < |d|
    requires |jp.addrs| == NDIRECT + 1 && jp.addrs[NDIRECT] < |d|
  {
    var r := Mapped(d, ip, bn);
    0 < r < |d| ==> Mapped(e, jp, bn) == r && e[r] == d[r]
  }

  /** Every file block that was mapped keeps its place on disk and its bytes. */
  ghost predicate KeepsData(sb: Super, d: seq<Block>, inodes: seq<Inode>, e: seq<Block>, jnodes: seq<Inode>) {
    && Shape(sb, d, inodes) && Shape(sb, e, jnodes)
    && forall i: nat, bn: nat :: i < |inodes| && bn < MAXFILE ==> Kept(d, inodes[i], e, jnodes[i], bn)
  }

  // ---- Allocation ----

  /** balloc's effect: mark the block and zero it. */
  function Allocated(sb: Super, d: seq<Block>, b: nat): (e: seq<Block>)
    requires BBlock(sb, b) < |d| && b < |d|
    ensures |e| == |d|
  {
    MarkUsed(sb, d, b)[b := ZERO]
  }

  lemma BitmapBeforeData(sb: Super, b: nat)
    requires SuperOk(sb) && b < sb.size
    ensures sb.bmapstart <= BBlock(sb, b) < sb.datastart
  {
  }

  /** A free block is named by nobody, and allocating it disturbs no named block. */
  lemma AllocationIsFresh(sb: Super, d: seq<Block>, inodes: seq<Inode>, owner: map<nat, Place>, b: nat)
    requires Ownership(sb, d, inodes, owner) && b < sb.size && !Used(sb, d, b)
    ensures BBlock(sb, b) < |d| && sb.datastart <= b && b !in owner
    ensures forall x :: x in owner ==> Allocated(sb, d, b)[x] == d[x]
    ensures forall i: nat, s: nat :: i < |inodes| && s < SLOTS ==>
              Ref(Allocated(sb, d, b), inodes[i], s) == Ref(d, inodes[i], s)
  {
    BitmapBeforeData(sb, b);
    forall i: nat, s: nat | i < |inodes| && s < SLOTS
      ensures Ref(Allocated(sb, d, b), inodes[i], s) == Ref(d, inodes[i], s)
    {
      assert OwnedAt(d, inodes, owner, i, NDIRECT);
    }
  }

  lemma MarksAfterAllocation(sb: Super, d: seq<Block>, b: nat, c: nat)
    requires SuperOk(sb) && |d| == sb.size && sb.datastart <= b < sb.size && c < sb.size
    ensures BBlock(sb, b) < |d| && BBlock(sb, c) < |d|
    ensures Used(sb, Allocated(sb, d, b), c) == (c == b || Used(sb, d, c))
  {
    BitmapBeforeData(sb, b);
    BitmapBeforeData(sb, c);
    MarksAreExact(sb, d, b, c);
  }

  /** From (d, inodes) to (e, jnodes) slot (j, t) keeps its block, except that (i, s) gets `b`. */
  ghost predicate RefStep(d: seq<Block>, inodes: seq<Inode>, e: seq<Block>, jnodes: seq<Inode>, i: nat, s: nat, b: nat,
                          j: nat, t: nat)
    requires |d| == |e| && j < |inodes| == |jnodes| && t < SLOTS
    requires |inodes[j].addrs| == NDIRECT + 1 && inodes[j].addrs[NDIRECT] < |d|
    requires |jnodes[j].addrs| == NDIRECT + 1 && jnodes[j].addrs[NDIRECT] < |d|
  {
    Ref(e, jnodes[j], t) == if j == i && t == s then b else Ref(d, inodes[j], t)
  }

  /** Giving a free block to an empty slot keeps ownership, whatever the slot is stored in. */
  lemma AttachKeepsOwnership(sb: Super, d: seq<Block>, inodes: seq<Inode>, owner: map<nat, Place>,
                             e: seq<Block>, jnodes: seq<Inode>, i: nat, s: nat, b: nat)
    requires Ownership(sb, d, inodes, owner) && Shape(sb, e, jnodes)
    requires i < |inodes| && s < SLOTS && Ref(d, inodes[i], s) == 0
    requires sb.datastart <= b < sb.size && b !in owner
    requires forall j: nat, t: nat :: j < |inodes| && t < SLOTS ==> RefStep(d, inodes, e, jnodes, i, s, b, j, t)
    requires forall c: nat :: c < sb.size ==> (Used(sb, e, c) <==> c == b || Used(sb, d, c))
    ensures Ownership(sb, e, jnodes, owner[b := Place(i, s)])
  {
    assert sb.datastart > 0;
    hide Ref, Used, SuperOk;
    var next := owner[b := Place(i, s)];
    forall j: nat, t: nat | j < |jnodes| && t < SLOTS
      ensures OwnedAt(e, jnodes, next, j, t)
    {
      assert OwnedAt(d, inodes, owner, j, t) && RefStep(d, inodes, e, jnodes, i, s, b, j, t);
    }
    forall c | c in next
      ensures OwnerIs(e, jnodes, c, next[c])
    {
      assert c != b ==> OwnerIs(d, inodes, c, owner[c]);
      assert RefStep(d, inodes, e, jnodes, i, s, b, next[c].inum, next[c].slot);
    }
  }

  /** Nor does it disturb any mapped file block. */
  lemma AttachKeepsData(sb: Super, d: seq<Block>, inodes: seq<Inode>, owner: map<nat, Place>,
                        e: seq<Block>, jnodes: seq<Inode>, i: nat, s: nat, b: nat)
    requires Ownership(sb, d, inodes, owner) && Shape(sb, e, jnodes)
    requires i < |inodes| && s < SLOTS && Ref(d, inodes[i], s) == 0
    requires forall j: nat, t: nat :: j < |inodes| && t < SLOTS ==> RefStep(d, inodes, e, jnodes, i, s, b, j, t)
    requires forall c :: c in owner && owner[c].slot != NDIRECT ==> e[c] == d[c]
    ensures KeepsData(sb, d, inodes, e, jnodes)
  {
    forall j: nat, bn: nat | j < |inodes| && bn < MAXFILE
      ensures Kept(d, inodes[j], e, jnodes[j], bn)
    {
      assert OwnedAt(d, inodes, owner, j, SlotOf(bn)) && RefStep(d, inodes, e, jnodes, i, s, b, j, SlotOf(bn));
    }
  }

  function StoredInInode(inodes: seq<Inode>, i: nat, s: nat, b: nat): seq<Inode>
    requires i < |inodes| && s < |inodes[i].addrs|
  {
    inodes[i := inodes[i].(addrs := inodes[i].addrs[s := b])]
  }

  lemma RefsAfterStore(sb: Super, d: seq<Block>, inodes: seq<Inode>, owner: map<nat, Place>, b: nat, i: nat, s: nat,
                       j: nat, t: nat)
    requires Ownership(sb, d, inodes, owner) && b < sb.size && !Used(sb, d, b)
    requires i < |inodes| && s <= NDIRECT && inodes[i].addrs[s] == 0 && j < |inodes| && t < SLOTS
    ensures BBlock(sb, b) < |d|
    ensures RefStep(d, inodes, Allocated(sb, d, b), StoredInInode(inodes, i, s, b), i, s, b, j, t)
  {
    AllocationIsFresh(sb, d, inodes, owner, b);
    if j == i && s == NDIRECT < t {
      WordOfZero(t - NDIRECT - 1);
    } else {
      assert Ref(Allocated(sb, d, b), inodes[j], t) == Ref(d, inodes[j], t);
    }
  }

  /** Storing the new block in an inode's own slot. */
  lemma AttachInInode(sb: Super, d: seq<Block>, inodes: seq<Inode>, owner: map<nat, Place>, b: nat, i: nat, s: nat)
    requires Ownership(sb, d, inodes, owner) && b < sb.size && !Used(sb, d, b)
    requires i < |inodes| && s <= NDIRECT && inodes[i].addrs[s] == 0
    ensures BBlock(sb, b) < |d|
    ensures var e, jnodes := Allocated(sb, d, b), StoredInInode(inodes, i, s, b);
            Ownership(sb, e, jnodes, owner[b := Place(i, s)]) && KeepsData(sb, d, inodes, e, jnodes)
  {
    AllocationIsFresh(sb, d, inodes, owner, b);
    var e, jnodes := Allocated(sb, d, b), StoredInInode(inodes, i, s, b);
    forall j: nat, t: nat | j < |jnodes| && t < SLOTS
      ensures RefStep(d, inodes, e, jnodes, i, s, b, j, t)
    {
      RefsAfterStore(sb, d, inodes, owner, b, i, s, j, t);
    }
    forall c: nat | c < sb.size
      ensures Used(sb, e, c) <==> c == b || Used(sb, d, c)
    {
      MarksAfterAllocation(sb, d, b, c);
    }
    AttachKeepsOwnership(sb, d, inodes, owner, e, jnodes, i, s, b);
    AttachKeepsData(sb, d, inodes, owner, e, jnodes, i, s, b);
  }

  /** The disk after the new block is stored as entry `k` of the indirect block of `ip`. */
  function StoredInIndirect(d: seq<Block>, ind: nat, k: nat, b: nat): seq<Block>
    requires ind < |d| && k < NINDIRECT && b < U32
  {
    d[ind := PutWord(d[ind], k, b)]
  }

  lemma RefsAfterIndirectStore(sb: Super, d: seq<Block>, inodes: seq<Inode>, owner: map<nat, Place>, b: nat, i: nat,
                               k: nat, j: nat, t: nat)
    requires Ownership(sb, d, inodes, owner) && b < sb.size && !Used(sb, d, b)
    requires i < |inodes| && k < NINDIRECT && inodes[i].addrs[NDIRECT] != 0 && j < |inodes| && t < SLOTS
    ensures BBlock(sb, b) < |d|
    ensures var e := StoredInIndirect(Allocated(sb, d, b), inodes[i].addrs[NDIRECT], k, b);
            RefStep(d, inodes, e, inodes, i, Entry(k), b, j, t)
  {
    AllocationIsFresh(sb, d, inodes, owner, b);
    var ind := inodes[i].addrs[NDIRECT];
    var a := Allocated(sb, d, b);
    assert OwnedAt(d, inodes, owner, i, NDIRECT) && OwnedAt(d, inodes, owner, j, NDIRECT);
    assert Ref(a, inodes[j], t) == Ref(d, inodes[j], t);
    if j == i && t > NDIRECT {
      WordOfPutWord(a[ind], k, b, t - NDIRECT - 1);
    }
  }

  /** Storing the new block in the inode's indirect block. */
  lemma AttachInIndirect(sb: Super, d: seq<Block>, inodes: seq<Inode>, owner: map<nat, Place>, b: nat, i: nat, k: nat)
    requires Ownership(sb, d, inodes, owner) && b < sb.size && !Used(sb, d, b)
    requires i < |inodes| && k < NINDIRECT && inodes[i].addrs[NDIRECT] != 0 && Ref(d, inodes[i], Entry(k)) == 0
    ensures BBlock(sb, b) < |d|
    ensures var e := StoredInIndirect(Allocated(sb, d, b), inodes[i].addrs[NDIRECT], k, b);
            Ownership(sb, e, inodes, owner[b := Place(i, Entry(k))]) && KeepsData(sb, d, inodes, e, inodes)
  {
    hide Word, PutWord, BlockBit;
    AllocationIsFresh(sb, d, inodes, owner, b);
    var ind := inodes[i].addrs[NDIRECT];
    var e := StoredInIndirect(Allocated(sb, d, b), ind, k, b);
    assert OwnedAt(d, inodes, owner, i, NDIRECT);
    forall j: nat, t: nat | j < |inodes| && t < SLOTS
      ensures RefStep(d, inodes, e, inodes, i, Entry(k), b, j, t)
    {
      RefsAfterIndirectStore(sb, d, inodes, owner, b, i, k, j, t);
    }
    forall c: nat | c < sb.size
      ensures Used(sb, e, c) <==> c == b || Used(sb, d, c)
    {
      MarksAfterAllocation(sb, d, b, c);
      BitmapBeforeData(sb, c);
    }
    AttachKeepsOwnership(sb, d, inodes, owner, e, inodes, i, Entry(k), b);
    AttachKeepsData(sb, d, inodes, owner, e, inodes, i, Entry(k), b);
  }

  // ---- Release ----

  /** Clearing a bit of the free map moves no reference. */
  lemma RefsAfterFree(sb: Super, d: seq<Block>, inodes: seq<Inode>, owner: map<nat, Place>, dying: nat, gone: nat,
                      b: nat, j: nat, t: nat)
    requires OwnershipUpTo(sb, d, inodes, owner, dying, gone) && b < sb.size && j < |inodes| && t < SLOTS
    ensures BBlock(sb, b) < |d|
    ensures Ref(MarkFree(sb, d, b), inodes[j], t) == Ref(d, inodes[j], t)
  {
    BitmapBeforeData(sb, b);
    assert Live(j, NDIRECT, dying, gone);
    assert OwnedAt(d, inodes, owner, j, NDIRECT);
  }

  lemma MarksAfterFree(sb: Super, d: seq<Block>, b: nat)
    requires SuperOk(sb) && |d| == sb.size && b < sb.size
    ensures BBlock(sb, b) < |d|
    ensures forall c: nat :: c < sb.size ==> (Used(sb, MarkFree(sb, d, b), c) <==> c != b && Used(sb, d, c))
  {
    BitmapBeforeData(sb, b);
    forall c: nat | c < sb.size
      ensures Used(sb, MarkFree(sb, d, b), c) <==> c != b && Used(sb, d, c)
    {
      BitmapBeforeData(sb, c);
      MarksAreExact(sb, d, b, c);
    }
  }

  /** bfree of an inode's own entry, followed by clearing the entry. The indirect pointer goes
      last, when all the entries behind it are gone. */
  lemma ReleaseFromInode(sb: Super, d: seq<Block>, inodes: seq<Inode>, owner: map<nat, Place>, i: nat, s: nat,
                         gone: nat)
    requires OwnershipUpTo(sb, d, inodes, owner, i, gone) && i < |inodes| && s <= NDIRECT
    requires gone == if s == NDIRECT then NINDIRECT else 0
    requires inodes[i].addrs[s] != 0
    ensures var b := inodes[i].addrs[s];
            && b in owner && owner[b].inum == i && b < sb.size && BBlock(sb, b) < |d| && Used(sb, d, b)
            && Ownership(sb, MarkFree(sb, d, b), StoredInInode(inodes, i, s, 0), owner - {b})
  {
    hide Ref, Used, MarkFree, BBlock, SuperOk;
    var b := inodes[i].addrs[s];
    OwnEntry(d, inodes[i], s);
    assert OwnedAt(d, inodes, owner, i, s);
    MarksAfterFree(sb, d, b);
    var e, jnodes, next := MarkFree(sb, d, b), StoredInInode(inodes, i, s, 0), owner - {b};
    forall j: nat, t: nat | j < |jnodes| && t < SLOTS
      ensures OwnedAt(e, jnodes, next, j, t)
    {
      RefsAfterFree(sb, d, inodes, owner, i, gone, b, j, t);
      RefsAfterClear(e, inodes[i], s, t);
      assert Live(j, t, i, gone) ==> OwnedAt(d, inodes, owner, j, t);
    }
    forall c | c in next
      ensures OwnerIs(e, jnodes, c, next[c])
    {
      assert OwnerIs(d, inodes, c, owner[c]);
      RefsAfterFree(sb, d, inodes, owner, i, gone, b, next[c].inum, next[c].slot);
      RefsAfterClear(e, inodes[i], s, next[c].slot);
    }
  }

  lemma OwnEntry(d: seq<Block>, ip: Inode, s: nat)
    requires |ip.addrs| == NDIRECT + 1 && ip.addrs[NDIRECT] < |d| && s <= NDIRECT
    ensures Ref(d, ip, s) == ip.addrs[s]
  {
  }

  /** Clearing an inode's own entry clears what is behind it. */
  lemma RefsAfterClear(d: seq<Block>, ip: Inode, s: nat, t: nat)
    requires |ip.addrs| == NDIRECT + 1 && ip.addrs[NDIRECT] < |d| && s <= NDIRECT && t < SLOTS
    ensures Ref(d, ip.(addrs := ip.addrs[s := 0]), t) ==
            if t == s || (s == NDIRECT && t > NDIRECT) then 0 else Ref(d, ip, t)
  {
  }

  /** bfree of the next indirect entry, if it names a block. */
  lemma ReleaseEntry(sb: Super, d: seq<Block>, inodes: seq<Inode>, owner: map<nat, Place>, i: nat, k: nat)
    requires OwnershipUpTo(sb, d, inodes, owner, i, k) && i < |inodes| && k < NINDIRECT
    ensures var b := Ref(d, inodes[i], Entry(k));
            if b == 0 then OwnershipUpTo(sb, d, inodes, owner, i, k + 1)
            else && b in owner && owner[b].inum == i && b < sb.size && BBlock(sb, b) < |d| && Used(sb, d, b)
                 && OwnershipUpTo(sb, MarkFree(sb, d, b), inodes, owner - {b}, i, k + 1)
  {
    hide Ref, Used, MarkFree, BBlock;
    var b := Ref(d, inodes[i], Entry(k));
    assert OwnedAt(d, inodes, owner, i, Entry(k));
    assert forall j: nat, t: nat :: Live(j, t, i, k + 1) ==> Live(j, t, i, k);
    if b != 0 {
      MarksAfterFree(sb, d, b);
      var e, next := MarkFree(sb, d, b), owner - {b};
      forall j: nat, t: nat | j < |inodes| && t < SLOTS && Live(j, t, i, k + 1)
        ensures OwnedAt(e, inodes, next, j, t)
      {
        RefsAfterFree(sb, d, inodes, owner, i, k, b, j, t);
        assert OwnedAt(d, inodes, owner, j, t);
      }
      forall c | c in next
        ensures OwnerIs(e, inodes, c, next[c]) && Live(next[c].inum, next[c].slot, i, k + 1)
      {
        RefsAfterFree(sb, d, inodes, owner, i, k, b, next[c].inum, next[c].slot);
      }
    } else {
      forall c | c in owner
        ensures Live(owner[c].inum, owner[c].slot, i, k + 1)
      {
        assert OwnerIs(d, inodes, c, owner[c]);
      }
    }
  }

  // ---- Contents ----

  /** Every file block that starts below `len` is mapped. */
  ghost predicate FilledTo(d: seq<Block>, ip: Inode, len: nat) {
    && |ip.addrs| == NDIRECT + 1 && ip.addrs[NDIRECT] < |d|
    && len <= MAXFILE * BSIZE
    && forall bn: nat :: bn < MAXFILE && bn * BSIZE < len ==> 0 < Mapped(d, ip, bn) < |d|
  }

  ghost function ByteAt(d: seq<Block>, ip: Inode, x: nat): byte
    requires FilledTo(d, ip, x + 1)
  {
    d[Mapped(d, ip, x / BSIZE)][x % BSIZE]
  }

  /** The first `len` bytes of the file. */
  ghost function Bytes(d: seq<Block>, ip: Inode, len: nat): (c: seq<byte>)
    requires FilledTo(d, ip, len)
    ensures |c| == len
  {
    seq(len, x requires 0 <= x < len => assert FilledTo(d, ip, x + 1); ByteAt(d, ip, x))
  }

  /** File `j` has the same type, link count, size and bytes in both states. */
  ghost predicate SameFile(d: seq<Block>, ns: seq<Inode>, e: seq<Block>, ms: seq<Inode>, j: nat) {
    && j < |ns| == |ms| && OnlyAddrs(ms[j], ns[j])
    && FilledTo(d, ns[j], ns[j].size) && FilledTo(e, ms[j], ns[j].size)
    && Bytes(e, ms[j], ns[j].size) == Bytes(d, ns[j], ns[j].size)
  }

  /** So have all the files but `i`. */
  ghost predicate OthersSame(d: seq<Block>, ns: seq<Inode>, e: seq<Block>, ms: seq<Inode>, i: nat) {
    |ns| == |ms| && forall j: nat :: j < |ns| && j != i ==> SameFile(d, ns, e, ms, j)
  }

  /** `src` laid over `c` at `off`, growing it if need be. */
  function Splice(c: seq<byte>, off: nat, src: seq<byte>): (r: seq<byte>)
    requires off <= |c|
    ensures |r| == if |c| < off + |src| then off + |src| else |c|
    ensures forall x :: 0 <= x < |r| ==> r[x] == if off <= x < off + |src| then src[x - off] else c[x]
  {
    if |c| < off + |src| then c[..off] + src else c[..off] + src + c[off + |src|..]
  }

  lemma SpliceTwice(c: seq<byte>, off: nat, s: seq<byte>, t: seq<byte>)
    requires off <= |c|
    ensures Splice(Splice(c, off, s), off + |s|, t) == Splice(c, off, s + t)
  {
  }

  /** Files keep their bytes across whatever keeps mapped blocks in place. */
  lemma KeepsDataKeepsBytes(sb: Super, d: seq<Block>, inodes: seq<Inode>, e: seq<Block>, jnodes: seq<Inode>, i: nat,
                            len: nat)
    requires KeepsData(sb, d, inodes, e, jnodes) && i < |inodes| && FilledTo(d, inodes[i], len)
    ensures FilledTo(e, jnodes[i], len) && Bytes(e, jnodes[i], len) == Bytes(d, inodes[i], len)
  {
    forall bn: nat | bn < MAXFILE && bn * BSIZE < len
      ensures 0 < Mapped(e, jnodes[i], bn) < |e|
    {
      assert Kept(d, inodes[i], e, jnodes[i], bn);
    }
    forall x: nat | x < len
      ensures FilledTo(d, inodes[i], x + 1) && FilledTo(e, jnodes[i], x + 1)
      ensures ByteAt(e, jnodes[i], x) == ByteAt(d, inodes[i], x)
    {
      assert Kept(d, inodes[i], e, jnodes[i], x / BSIZE);
    }
  }

  lemma KeepsDataTransitive(sb: Super, d: seq<Block>, inodes: seq<Inode>, e: seq<Block>, jnodes: seq<Inode>,
                            f: seq<Block>, knodes: seq<Inode>)
    requires KeepsData(sb, d, inodes, e, jnodes) && KeepsData(sb, e, jnodes, f, knodes)
    ensures KeepsData(sb, d, inodes, f, knodes)
  {
    forall i: nat, bn: nat | i < |inodes| && bn < MAXFILE
      ensures Kept(d, inodes[i], f, knodes[i], bn)
    {
      assert Kept(d, inodes[i], e, jnodes[i], bn) && Kept(e, jnodes[i], f, knodes[i], bn);
    }
  }

  // ---- Writing into a mapped block ----

  function PutBytes(blk: Block, o: nat, src: seq<byte>): (r: Block)
    requires o + |src| <= BSIZE
    ensures forall y :: 0 <= y < BSIZE ==> r[y] == if o <= y < o + |src| then src[y - o] else blk[y]
  {
    blk[..o] + src + blk[o + |src|..]
  }

  lemma MappedInData(sb: Super, d: seq<Block>, inodes: seq<Inode>, owner: map<nat, Place>, i: nat, bn: nat)
    requires Ownership(sb, d, inodes, owner) && i < |inodes| && bn < MAXFILE && Mapped(d, inodes[i], bn) != 0
    ensures sb.datastart <= Mapped(d, inodes[i], bn) < |d|
  {
    assert OwnedAt(d, inodes, owner, i, SlotOf(bn));
  }

  /** A write into a file block moves no reference and no mark. */
  lemma DataWriteKeepsOwnership(sb: Super, d: seq<Block>, inodes: seq<Inode>, owner: map<nat, Place>, i: nat, bn: nat,
                                blk: Block)
    requires Ownership(sb, d, inodes, owner) && i < |inodes| && bn < MAXFILE && Mapped(d, inodes[i], bn) != 0
    ensures sb.datastart <= Mapped(d, inodes[i], bn) < |d|
    ensures var e := d[Mapped(d, inodes[i], bn) := blk];
            && Ownership(sb, e, inodes, owner)
            && (forall j: nat, t: nat :: j < |inodes| && t < SLOTS ==> Ref(e, inodes[j], t) == Ref(d, inodes[j], t))
  {
    var b := Mapped(d, inodes[i], bn);
    assert OwnedAt(d, inodes, owner, i, SlotOf(bn));
    var e := d[b := blk];
    forall j: nat, t: nat | j < |inodes| && t < SLOTS
      ensures Ref(e, inodes[j], t) == Ref(d, inodes[j], t) && OwnedAt(e, inodes, owner, j, t)
    {
      assert OwnedAt(d, inodes, owner, j, NDIRECT) && OwnedAt(d, inodes, owner, j, t);
    }
    forall c: nat | c < sb.size
      ensures Used(sb, e, c) <==> Used(sb, d, c)
    {
      BitmapBeforeData(sb, c);
    }
  }

  function Max(a: nat, b: nat): nat { if a < b then b else a }

  lemma ChunkFits(off: nat, len: nat, hi: nat, bn: nat)
    requires off % BSIZE + len <= BSIZE && off <= hi && bn * BSIZE < Max(hi, off + len)
    ensures bn * BSIZE < hi || bn == off / BSIZE
  {
    if bn > off / BSIZE {
      assert bn * BSIZE >= (off / BSIZE + 1) * BSIZE;
    }
  }

  /** Writing `src` into the block under offset `off` lays it over the file's bytes there. */
  lemma ChunkSplices(sb: Super, d: seq<Block>, inodes: seq<Inode>, owner: map<nat, Place>, i: nat, off: nat,
                     src: seq<byte>, hi: nat)
    requires Ownership(sb, d, inodes, owner) && i < |inodes|
    requires FilledTo(d, inodes[i], hi) && off <= hi
    requires off % BSIZE + |src| <= BSIZE && off + |src| <= MAXFILE * BSIZE && off / BSIZE < MAXFILE
    requires 0 < Mapped(d, inodes[i], off / BSIZE) < |d|
    ensures var b := Mapped(d, inodes[i], off / BSIZE);
            var e := d[b := PutBytes(d[b], off % BSIZE, src)];
            var end := Max(hi, off + |src|);
            && FilledTo(e, inodes[i], end)
            && Bytes(e, inodes[i], end) == Splice(Bytes(d, inodes[i], hi), off, src)
  {
    hide Word, OwnershipUpTo;
    var ip, q := inodes[i], off / BSIZE;
    var b := Mapped(d, ip, q);
    var blk := PutBytes(d[b], off % BSIZE, src);
    var e, end := d[b := blk], Max(hi, off + |src|);
    DataWriteKeepsOwnership(sb, d, inodes, owner, i, q, blk);
    forall bn: nat | bn < MAXFILE && bn * BSIZE < end
      ensures 0 < Mapped(e, ip, bn) < |e|
    {
      ChunkFits(off, |src|, hi, bn);
      assert Ref(e, ip, SlotOf(bn)) == Ref(d, ip, SlotOf(bn));
      assert Mapped(e, ip, bn) == Mapped(d, ip, bn);
    }
    var was, now := Bytes(d, ip, hi), Bytes(e, ip, end);
    forall x: nat | x < end
      ensures now[x] == Splice(was, off, src)[x]
    {
      ChunkByte(sb, d, inodes, owner, i, off, src, hi, x);
    }
  }

  lemma ChunkByte(sb: Super, d: seq<Block>, inodes: seq<Inode>, owner: map<nat, Place>, i: nat, off: nat,
                  src: seq<byte>, hi: nat, x: nat)
    requires Ownership(sb, d, inodes, owner) && i < |inodes|
    requires FilledTo(d, inodes[i], hi) && off <= hi
    requires off % BSIZE + |src| <= BSIZE && off + |src| <= MAXFILE * BSIZE && off / BSIZE < MAXFILE
    requires 0 < Mapped(d, inodes[i], off / BSIZE) < |d|
    requires x < Max(hi, off + |src|)
    ensures var b := Mapped(d, inodes[i], off / BSIZE);
            var e := d[b := PutBytes(d[b], off % BSIZE, src)];
            && 0 < Mapped(e, inodes[i], x / BSIZE) < |e|
            && e[Mapped(e, inodes[i], x / BSIZE)][x % BSIZE] == Splice(Bytes(d, inodes[i], hi), off, src)[x]
  {
    hide Word, OwnershipUpTo, PutBytes, Splice;
    var ip, q := inodes[i], off / BSIZE;
    var b := Mapped(d, ip, q);
    var blk := PutBytes(d[b], off % BSIZE, src);
    DataWriteKeepsOwnership(sb, d, inodes, owner, i, q, blk);
    ChunkFits(off, |src|, hi, x / BSIZE);
    assert Ref(d[b := blk], ip, SlotOf(x / BSIZE)) == Ref(d, ip, SlotOf(x / BSIZE));
    assert 0 < Mapped(d, ip, x / BSIZE) < |d|;
    if x / BSIZE == q {
      assert x - off == x % BSIZE - off % BSIZE;
      assert x < hi ==> Bytes(d, ip, hi)[x] == d[b][x % BSIZE];
    } else {
      if Mapped(d, ip, x / BSIZE) == b {
        OwnersAreUnique(sb, d, inodes, owner, i, SlotOf(q), i, SlotOf(x / BSIZE));
      }
      assert !(off <= x < off + |src|);
    }
  }

  /** ... and leaves every other file's bytes alone. */
  lemma ChunkKeepsOthers(sb: Super, d: seq<Block>, inodes: seq<Inode>, owner: map<nat, Place>, i: nat, bn: nat,
                         blk: Block, j: nat, len: nat)
    requires Ownership(sb, d, inodes, owner) && i < |inodes| && bn < MAXFILE
    requires 0 < Mapped(d, inodes[i], bn) < |d| && j < |inodes| && j != i && FilledTo(d, inodes[j], len)
    ensures var e := d[Mapped(d, inodes[i], bn) := blk];
            FilledTo(e, inodes[j], len) && Bytes(e, inodes[j], len) == Bytes(d, inodes[j], len)
  {
    var b := Mapped(d, inodes[i], bn);
    var e := d[b := blk];
    DataWriteKeepsOwnership(sb, d, inodes, owner, i, bn, blk);
    forall k: nat | k < MAXFILE
      ensures Mapped(e, inodes[j], k) == Mapped(d, inodes[j], k)
      ensures Mapped(d, inodes[j], k) != b
    {
      assert Ref(e, inodes[j], SlotOf(k)) == Ref(d, inodes[j], SlotOf(k));
      if Mapped(d, inodes[j], k) == b {
        OwnersAreUnique(sb, d, inodes, owner, i, SlotOf(bn), j, SlotOf(k));
      }
    }
  }

  /** A file's size has no part in who owns which block, nor in the bytes below a given length. */
  lemma ResizeKeeps(sb: Super, d: seq<Block>, inodes: seq<Inode>, owner: map<nat, Place>, i: nat, size: nat, len: nat)
    requires Ownership(sb, d, inodes, owner) && i < |inodes| && FilledTo(d, inodes[i], len)
    ensures Ownership(sb, d, inodes[i := inodes[i].(size := size)], owner)
    ensures FilledTo(d, inodes[i].(size := size), len)
    ensures Bytes(d, inodes[i].(size := size), len) == Bytes(d, inodes[i], len)
  {
    var jp := inodes[i].(size := size);
    var jnodes := inodes[i := jp];
    assert forall s: nat :: s < SLOTS ==> Ref(d, jp, s) == Ref(d, inodes[i], s);
    forall j: nat, s: nat | j < |jnodes| && s < SLOTS
      ensures OwnedAt(d, jnodes, owner, j, s)
    {
      assert OwnedAt(d, inodes, owner, j, s);
    }
    forall b | b in owner
      ensures OwnerIs(d, jnodes, b, owner[b])
    {
      assert OwnerIs(d, inodes, b, owner[b]);
    }
    forall bn: nat | bn < MAXFILE
      ensures Mapped(d, jp, bn) == Mapped(d, inodes[i], bn)
    {
    }
  }

  /** A file survives any change that leaves its inode and the data area alone. */
  lemma OutsideDataKeepsFile(sb: Super, d: seq<Block>, inodes: seq<Inode>, owner: map<nat, Place>, e: seq<Block>,
                             ms: seq<Inode>, j: nat)
    requires Ownership(sb, d, inodes, owner) && j < |inodes| == |ms| && ms[j] == inodes[j] && |e| == |d|
    requires FilledTo(d, inodes[j], inodes[j].size)
    requires forall b :: sb.datastart <= b < |d| ==> e[b] == d[b]
    ensures SameFile(d, inodes, e, ms, j)
  {
    var ip := inodes[j];
    assert OwnedAt(d, inodes, owner, j, NDIRECT);
    forall bn: nat | bn < MAXFILE
      ensures Mapped(e, ip, bn) == Mapped(d, ip, bn)
      ensures Mapped(d, ip, bn) != 0 ==> sb.datastart <= Mapped(d, ip, bn)
    {
      assert OwnedAt(d, inodes, owner, j, SlotOf(bn));
    }
  }

  lemma OthersSameTransitive(d: seq<Block>, ns: seq<Inode>, e: seq<Block>, ms: seq<Inode>, f: seq<Block>,
                             ls: seq<Inode>, i: nat)
    requires OthersSame(d, ns, e, ms, i) && OthersSame(e, ms, f, ls, i)
    ensures OthersSame(d, ns, f, ls, i)
  {
    hide FilledTo, Bytes;
    forall j: nat | j < |ns| && j != i
      ensures SameFile(d, ns, f, ls, j)
    {
      assert SameFile(d, ns, e, ms, j) && SameFile(e, ms, f, ls, j);
    }
  }
}
