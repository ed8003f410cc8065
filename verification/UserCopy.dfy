/** Copying between kernel and user memory, with pages of a lazily grown process allocated on
    first use (kernel/vm.c: copyout, copyin, vmfault). `root` and `sz` are those of the process. */
module UserCopy {
  import opened Common
  import opened Blocks
  import opened PageTables
  import opened PageOwners
  import opened Paging

  /** The byte a process finds at address `a`; a page not yet allocated below `sz` reads as zero. */
  ghost function UserByte(mem: Mem, root: nat, sz: nat, a: nat): Option<byte> {
    var v := a / PGSIZE;
    var e := PteAt(mem, root, v);
    if v >= MAXPAGE then None
    else if e.Entry? then
      if e.flags.u && IsData(mem, e.ppn) then Some(mem[e.ppn].bytes[a % PGSIZE]) else None
    else if v * PGSIZE < sz then Some(0) else None
  }

  /** The process reads `s` at address `va`. */
  ghost predicate ReadsAs(mem: Mem, root: nat, sz: nat, va: nat, s: seq<byte>) {
    forall k :: 0 <= k < |s| ==> UserByte(mem, root, sz, va + k) == Some(s[k])
  }

  /** What user addresses of this process read as; everything of other page tables is untouched. */
  ghost predicate SameBytes(mem: Mem, own: Owners, m: Mem, o: Owners, root: nat, sz: nat) {
    && IsRoot(o, root)
    && (forall a: nat :: UserByte(m, root, sz, a) == UserByte(mem, root, sz, a))
    && OthersSame(mem, own, m, o, root)
  }

  ghost predicate OthersSame(mem: Mem, own: Owners, m: Mem, o: Owners, root: nat) {
    && (forall r: nat, w: nat :: IsRoot(own, r) && r != root && w < MAXPAGE ==> PteAt(m, r, w) == PteAt(mem, r, w))
    && (forall r :: IsRoot(o, r) <==> IsRoot(own, r))
    && (forall p :: p in own && own[p].Leaf? && own[p].root != root ==>
          p in o && o[p] == own[p] && p in mem && p in m && m[p] == mem[p])
  }

  const LAZY := Flags(true, true, false, true)

  lemma WalkedSameBytes(mem: Mem, own: Owners, m: Mem, o: Owners, root: nat, sz: nat)
    requires Good(mem, own) && Walked(mem, own, m, o, root) && IsRoot(own, root)
    ensures SameBytes(mem, own, m, o, root, sz)
  {
    hide PteAt;
    forall a: nat ensures UserByte(m, root, sz, a) == UserByte(mem, root, sz, a) {
      var w := a / PGSIZE;
      if w < MAXPAGE {
        assert PteAt(m, root, w) == PteAt(mem, root, w);
        assert UserPage(mem, own, root, w);
      }
    }
  }

  /** Allocating a missing page below `sz` does not change what the process reads. */
  lemma LazyPageIsInvisible(mem: Mem, own: Owners, p: nat, m: Mem, o: Owners, root: nat, v: nat, sz: nat)
    requires Good(mem, own) && IsRoot(own, root) && Owns(own, p, Free) && v < MAXPAGE && v * PGSIZE < sz
    requires PteAt(mem, root, v) == Empty && Good(m, o)
    requires Mapped(mem[p := Zeroed()], own[p := Held], m, o, root, v, 1, p, LAZY, true)
    ensures SameBytes(mem, own, m, o, root, sz) && PteAt(m, root, v) == Entry(p, LAZY)
  {
    hide PteAt, TreeOk;
    var ma, oa := mem[p := Zeroed()], own[p := Held];
    assert Owns(oa, p, Held) && forall r :: IsRoot(oa, r) <==> IsRoot(own, r);
    forall r: nat, w: nat | IsRoot(own, r) && w < MAXPAGE
      ensures PteAt(m, r, w) == if r == root && w == v then Entry(p, LAZY) else PteAt(mem, r, w)
    {
      assert IsRoot(oa, r);
      OutsideView(mem, own, p, Zeroed(), r, w);
    }
    forall a: nat ensures UserByte(m, root, sz, a) == UserByte(mem, root, sz, a) {
      LazyByte(mem, own, p, m, o, root, v, sz, a);
    }
  }

  lemma LazyByte(mem: Mem, own: Owners, p: nat, m: Mem, o: Owners, root: nat, v: nat, sz: nat, a: nat)
    requires Good(mem, own) && IsRoot(own, root) && Owns(own, p, Free) && v < MAXPAGE && v * PGSIZE < sz
    requires PteAt(mem, root, v) == Empty && Good(m, o)
    requires Mapped(mem[p := Zeroed()], own[p := Held], m, o, root, v, 1, p, LAZY, true)
    requires a / PGSIZE < MAXPAGE ==>
               PteAt(m, root, a / PGSIZE) == if a / PGSIZE == v then Entry(p, LAZY) else PteAt(mem, root, a / PGSIZE)
    ensures UserByte(m, root, sz, a) == UserByte(mem, root, sz, a)
  {
    hide PteAt, TreeOk;
    var w := a / PGSIZE;
    if w < MAXPAGE && w != v {
      assert UserPage(mem, own, root, w);
    }
  }

  /** What uvmcopy gives the child of a fork: below `sz` it finds what the parent found, at whatever
      address, and the parent still finds it. */
  lemma ChildReadsTheSame(mem: Mem, own: Owners, m: Mem, o: Owners, src: nat, dst: nat, sz: nat, a: nat)
    requires Good(mem, own) && IsRoot(own, src) && IsRoot(own, dst) && src != dst && sz <= MAXPAGE * PGSIZE && a < sz
    requires Allocated(mem, own, m, o, dst, 0, Up(sz), CopyPlan(mem, src, Up(sz)))
    requires CopiedAt(mem, m, src, dst, a / PGSIZE)
    ensures UserByte(m, dst, sz, a) == UserByte(mem, src, sz, a) == UserByte(m, src, sz, a)
  {
    hide PteAt, TreeOk;
    var w := a / PGSIZE;
    assert PteAt(m, src, w) == PteAt(mem, src, w);
    assert UserPage(mem, own, src, w);
  }

  /** What uvmalloc gives a growing process: zeros in the new pages, and below what was there. */
  lemma GrownReadsZero(mem: Mem, own: Owners, m: Mem, o: Owners, root: nat, oldsz: nat, newsz: nat, perm: Flags, a: nat)
    requires Good(mem, own) && IsRoot(own, root) && Up(oldsz) <= Up(newsz) <= MAXPAGE && perm.u
    requires Allocated(mem, own, m, o, root, Up(oldsz), Up(newsz) - Up(oldsz), AllZero(Up(oldsz), Up(newsz), perm))
    ensures Up(oldsz) * PGSIZE <= a < Up(newsz) * PGSIZE ==> UserByte(m, root, newsz, a) == Some(0)
    ensures a < Up(oldsz) * PGSIZE ==> UserByte(m, root, newsz, a) == UserByte(mem, root, newsz, a)
  {
    hide PteAt, TreeOk, Allocated, Zeroed;
    var w := a / PGSIZE;
    if Up(oldsz) * PGSIZE <= a < Up(newsz) * PGSIZE {
      PlanIsZeroed(mem, own, m, o, root, Up(oldsz), Up(newsz), perm, w);
    } else if a < Up(oldsz) * PGSIZE {
      KeptBelow(mem, own, m, o, root, Up(oldsz), Up(newsz), perm, w);
    }
  }

  lemma KeptBelow(mem: Mem, own: Owners, m: Mem, o: Owners, root: nat, lo: nat, hi: nat, perm: Flags, w: nat)
    requires Good(mem, own) && IsRoot(own, root) && w < lo <= hi <= MAXPAGE
    requires Allocated(mem, own, m, o, root, lo, hi - lo, AllZero(lo, hi, perm))
    ensures PteAt(m, root, w) == PteAt(mem, root, w)
    ensures var e := PteAt(mem, root, w); e.Entry? && e.flags.u ==> e.ppn in mem && e.ppn in m && m[e.ppn] == mem[e.ppn]
  {
    hide PteAt, TreeOk, AllZero;
    assert UserPage(mem, own, root, w);
  }

  /** Every page mapped before is mapped as before. */
  ghost predicate EntriesKept(mem: Mem, m: Mem, root: nat) {
    forall w :: 0 <= w < MAXPAGE && PteAt(mem, root, w).Entry? ==> PteAt(m, root, w) == PteAt(mem, root, w)
  }

  /** vmfault: allocate the page of address `va` if it is a valid lazy one. The address is compared
      with the size as it is, so that one past the end in the last page is refused. */
  method Vmfault(mem: Memory, root: nat, sz: nat, va: nat) returns (r: Option<nat>)
    requires mem.Valid() && IsRoot(mem.own, root) && sz <= MAXPAGE * PGSIZE
    modifies mem
    ensures mem.Valid() && SameBytes(old(mem.pages), old(mem.own), mem.pages, mem.own, root, sz)
    ensures r.Some? ==> va < sz && va / PGSIZE < MAXPAGE
    ensures r.Some? ==> PteAt(mem.pages, root, va / PGSIZE) == Entry(r.value, Flags(true, true, false, true))
    ensures EntriesKept(old(mem.pages), mem.pages, root)
    ensures va < sz && old(PteAt(mem.pages, root, va / PGSIZE)).Entry? ==> r.None?
    ensures r.None? ==> va >= sz || old(PteAt(mem.pages, root, va / PGSIZE)).Entry? || |old(mem.list)| < 3
  {
    hide Good, FreeOk, PteAt, SameBytes, UserByte, SameLeaves, HasSlot, Mapped, LeafTable;
    ghost var m0, o0 := mem.pages, mem.own;
    GoodKeys(m0, o0);
    WalkedRefl(m0, o0, root);
    WalkedSameBytes(m0, o0, m0, o0, root, sz);
    if va >= sz { return None; }
    var v := va / PGSIZE;
    PageBelow(va, sz);
    var t := mem.Walk(root, v, false);
    EntryOf(mem.pages, root, v);
    if t.Some? && PteIn(mem.pages, t.value, Px0(v)) != Empty { return None; }
    r := mem.AddPage(root, v, Zeroed(), LAZY);
    if r.Some? {
      LazyPageIsInvisible(m0, o0, r.value, mem.pages, mem.own, root, v, sz);
      OtherEntries(m0, o0, r.value, mem.pages, mem.own, root, v);
    } else {
      WalkedSameBytes(m0, o0, mem.pages, mem.own, root, sz);
      WalkedEntries(m0, o0, mem.pages, mem.own, root);
    }
  }

  lemma PageBelow(va: nat, sz: nat)
    requires va < sz <= MAXPAGE * PGSIZE
    ensures va / PGSIZE < MAXPAGE && va / PGSIZE * PGSIZE < sz
  {
  }

  lemma WalkedEntries(mem: Mem, own: Owners, m: Mem, o: Owners, root: nat)
    requires Walked(mem, own, m, o, root) && IsRoot(own, root)
    ensures forall w :: 0 <= w < MAXPAGE ==> PteAt(m, root, w) == PteAt(mem, root, w)
  {
    hide PteAt;
  }

  lemma OtherEntries(mem: Mem, own: Owners, p: nat, m: Mem, o: Owners, root: nat, v: nat)
    requires Good(mem, own) && Owns(own, p, Free) && IsRoot(own, root)
    requires Mapped(mem[p := Zeroed()], own[p := Held], m, o, root, v, 1, p, LAZY, true)
    ensures forall w :: 0 <= w < MAXPAGE && w != v ==> PteAt(m, root, w) == PteAt(mem, root, w)
  {
    hide PteAt, TreeOk;
    assert IsRoot(own[p := Held], root);
    forall w | 0 <= w < MAXPAGE && w != v ensures PteAt(m, root, w) == PteAt(mem, root, w) {
      OutsideView(mem, own, p, Zeroed(), root, w);
    }
  }

  // ---- Writing to a page ----

  ghost predicate UserMapped(mem: Mem, root: nat, v: nat) {
    v < MAXPAGE && PteAt(mem, root, v).Entry? && PteAt(mem, root, v).flags.u
  }

  ghost predicate UserWritable(mem: Mem, root: nat, v: nat) {
    UserMapped(mem, root, v) && PteAt(mem, root, v).flags.w
  }

  lemma UserMappedOwned(mem: Mem, own: Owners, root: nat, v: nat)
    requires Good(mem, own) && IsRoot(own, root) && UserMapped(mem, root, v)
    ensures Owns(own, PteAt(mem, root, v).ppn, Leaf(root, v)) && IsData(mem, PteAt(mem, root, v).ppn)
  {
    hide PteAt;
    assert UserPage(mem, own, root, v);
  }

  /** New bytes in the memory of page `v` are seen at page `v` and nowhere else. */
  lemma WritePage(mem: Mem, own: Owners, root: nat, sz: nat, v: nat, bytes: seq<byte>)
    requires Good(mem, own) && IsRoot(own, root) && UserMapped(mem, root, v) && |bytes| == PGSIZE
    ensures var m := mem[PteAt(mem, root, v).ppn := Data(bytes)];
            && Good(m, own) && OthersSame(mem, own, m, own, root)
            && (forall w :: 0 <= w < MAXPAGE ==> PteAt(m, root, w) == PteAt(mem, root, w))
            && forall a: nat :: UserByte(m, root, sz, a) ==
                 if a / PGSIZE == v then Some(bytes[a % PGSIZE]) else UserByte(mem, root, sz, a)
  {
    hide PteAt, TreeOk;
    UserMappedOwned(mem, own, root, v);
    var p := PteAt(mem, root, v).ppn;
    var m := mem[p := Data(bytes)];
    OutsideTree(mem, own, p, Data(bytes), own[p]);
    assert own[p := own[p]] == own;
    forall r: nat, w: nat | IsRoot(own, r) && w < MAXPAGE ensures PteAt(m, r, w) == PteAt(mem, r, w) {
      OutsideView(mem, own, p, Data(bytes), r, w);
    }
    forall r: nat, w: nat | IsRoot(own, r) && w < MAXPAGE ensures UserPage(m, own, r, w) {
      assert UserPage(mem, own, r, w);
    }
    forall a: nat
      ensures UserByte(m, root, sz, a) ==
              if a / PGSIZE == v then Some(bytes[a % PGSIZE]) else UserByte(mem, root, sz, a)
    {
      var w := a / PGSIZE;
      if w < MAXPAGE {
        assert UserPage(mem, own, root, w);
      }
    }
  }

  function Overwrite(was: seq<byte>, off: nat, src: seq<byte>): (r: seq<byte>)
    requires off + |src| <= |was|
    ensures |r| == |was|
    ensures forall i :: 0 <= i < |was| ==> r[i] == if off <= i < off + |src| then src[i - off] else was[i]
  {
    was[..off] + src + was[off + |src|..]
  }

  /** The process reads the first `done` bytes of `src` at `va`, and elsewhere what it read before. */
  ghost predicate Spliced(mem: Mem, m: Mem, root: nat, sz: nat, va: nat, src: seq<byte>, done: nat)
    requires done <= |src|
  {
    forall a: nat :: UserByte(m, root, sz, a) ==
      if va <= a < va + done then Some(src[a - va]) else UserByte(mem, root, sz, a)
  }

  lemma InPage(a: nat, dst: nat, n: nat)
    requires dst % PGSIZE + n <= PGSIZE
    ensures a / PGSIZE == dst / PGSIZE ==>
              (dst <= a < dst + n <==> dst % PGSIZE <= a % PGSIZE < dst % PGSIZE + n) &&
              a - dst == a % PGSIZE - dst % PGSIZE
    ensures dst <= a < dst + n ==> a / PGSIZE == dst / PGSIZE
  {
  }

  /** One page's share of copyout. */
  lemma SplicePage(m0: Mem, mem: Mem, m: Mem, root: nat, sz: nat, va: nat, src: seq<byte>, done: nat, n: nat,
                   was: seq<byte>)
    requires done + n <= |src| && (va + done) % PGSIZE + n <= PGSIZE == |was| &&
             Spliced(m0, mem, root, sz, va, src, done)
    requires forall a: nat :: a / PGSIZE == (va + done) / PGSIZE ==> UserByte(mem, root, sz, a) == Some(was[a % PGSIZE])
    requires var bytes := Overwrite(was, (va + done) % PGSIZE, src[done..done + n]);
             forall a: nat :: UserByte(m, root, sz, a) ==
               if a / PGSIZE == (va + done) / PGSIZE then Some(bytes[a % PGSIZE]) else UserByte(mem, root, sz, a)
    ensures Spliced(m0, m, root, sz, va, src, done + n)
  {
    hide UserByte;
    forall a: nat
      ensures UserByte(m, root, sz, a) ==
              if va <= a < va + (done + n) then Some(src[a - va]) else UserByte(m0, root, sz, a)
    {
      InPage(a, va + done, n);
      assert UserByte(mem, root, sz, a) == if va <= a < va + done then Some(src[a - va]) else UserByte(m0, root, sz, a);
    }
  }

  lemma OthersTrans(m0: Mem, o0: Owners, m1: Mem, o1: Owners, m2: Mem, o2: Owners, root: nat)
    requires OthersSame(m0, o0, m1, o1, root) && OthersSame(m1, o1, m2, o2, root)
    ensures OthersSame(m0, o0, m2, o2, root)
  {
    hide PteAt;
  }

  lemma SplicedSame(m0: Mem, m1: Mem, o1: Owners, m2: Mem, o2: Owners, root: nat, sz: nat, va: nat, src: seq<byte>,
                    done: nat)
    requires done <= |src| && Spliced(m0, m1, root, sz, va, src, done) && SameBytes(m1, o1, m2, o2, root, sz)
    ensures Spliced(m0, m2, root, sz, va, src, done)
  {
    hide UserByte;
  }

  lemma MappedByte(mem: Mem, own: Owners, root: nat, sz: nat, v: nat)
    requires Good(mem, own) && IsRoot(own, root) && UserMapped(mem, root, v)
    ensures var p := PteAt(mem, root, v).ppn;
            IsData(mem, p) &&
            forall a: nat :: a / PGSIZE == v ==> UserByte(mem, root, sz, a) == Some(mem[p].bytes[a % PGSIZE])
  {
    hide PteAt;
    UserMappedOwned(mem, own, root, v);
  }

  lemma FirstOf(v: nat)
    ensures v * PGSIZE / PGSIZE == v
  {
  }

  /** The physical page of user page `v`, allocated now if it is a lazy one. */
  method UserPageOf(mem: Memory, root: nat, sz: nat, v: nat) returns (r: Option<nat>)
    requires mem.Valid() && IsRoot(mem.own, root) && sz <= MAXPAGE * PGSIZE
    modifies mem
    ensures mem.Valid() && SameBytes(old(mem.pages), old(mem.own), mem.pages, mem.own, root, sz)
    ensures EntriesKept(old(mem.pages), mem.pages, root)
    ensures r.Some? ==> UserMapped(mem.pages, root, v) && PteAt(mem.pages, root, v).ppn == r.value
    ensures old(UserMapped(mem.pages, root, v)) ==> r.Some?
  {
    hide Good, FreeOk, PteAt, SameBytes, UserByte, SameLeaves, HasSlot, LeafTable, Walked;
    ghost var m0, o0 := mem.pages, mem.own;
    if v < MAXPAGE {
      var t := mem.Walk(root, v, false);
      EntryOf(mem.pages, root, v);
      if t.Some? {
        var e := PteIn(mem.pages, t.value, Px0(v));
        if e.Entry? && e.flags.u {
          GoodKeys(m0, o0);
          WalkedRefl(m0, o0, root);
          WalkedSameBytes(m0, o0, m0, o0, root, sz);
          return Some(e.ppn);
        }
      }
    }
    FirstOf(v);
    r := Vmfault(mem, root, sz, v * PGSIZE);
  }

  /** Page `v` has one of the `n` bytes from address `va`. */
  predicate Touches(va: nat, n: nat, v: nat) { n > 0 && va / PGSIZE <= v && v * PGSIZE < va + n }

  lemma MappedSlot(mem: Mem, root: nat, v: nat)
    requires UserMapped(mem, root, v)
    ensures LeafTable(mem, root, v).Some? && PteIn(mem, LeafTable(mem, root, v).value, Px0(v)) == PteAt(mem, root, v)
    ensures PteAt(mem, root, v).Entry?
  {
  }

  /** Copy `src` to user address `va`. It stops before the first page that cannot be had or is
      read-only, after `done` bytes. */
  method Copyout(mem: Memory, root: nat, sz: nat, va: nat, src: seq<byte>) returns (ok: bool, done: nat)
    requires mem.Valid() && IsRoot(mem.own, root) && sz <= MAXPAGE * PGSIZE
    modifies mem
    ensures mem.Valid() && IsRoot(mem.own, root) && OthersSame(old(mem.pages), old(mem.own), mem.pages, mem.own, root)
    ensures done <= |src| && (ok <==> done == |src|) && Spliced(old(mem.pages), mem.pages, root, sz, va, src, done)
    ensures forall v :: Touches(va, done, v) ==> UserWritable(mem.pages, root, v)
    ensures !ok ==> !old(UserWritable(mem.pages, root, (va + done) / PGSIZE))
  {
    hide Good, FreeOk, PteAt, SameBytes, UserByte, UserMapped, UserWritable, SameLeaves, HasSlot, LeafTable, Walked,
         Spliced, OthersSame;
    ghost var m0, o0 := mem.pages, mem.own;
    Nothing(m0, o0, root, sz, va, src);
    done := 0;
    while done < |src|
      invariant mem.Valid() && IsRoot(mem.own, root) && OthersSame(m0, o0, mem.pages, mem.own, root)
      invariant done <= |src| && Spliced(m0, mem.pages, root, sz, va, src, done)
      invariant done < |src| ==> done == 0 || (va + done) % PGSIZE == 0
      invariant forall v :: Touches(va, done, v) ==> UserWritable(mem.pages, root, v)
      invariant EntriesKept(m0, mem.pages, root)
    {
      var dst := va + done;
      var v, off := dst / PGSIZE, dst % PGSIZE;
      StillWritable(m0, mem.pages, root, v);
      if v >= MAXPAGE { return false, done; }
      ghost var m1, o1 := mem.pages, mem.own;
      var pa := UserPageOf(mem, root, sz, v);
      MappedKept(m1, mem.pages, root, va, done);
      FaultKeeps(m0, o0, m1, o1, mem.pages, mem.own, root, sz, va, src, done);
      if pa.None? { return false, done; }
      var t := mem.Walk(root, v, false);
      MappedSlot(mem.pages, root, v);
      var e := PteIn(mem.pages, t.value, Px0(v));
      StillWritable(m0, mem.pages, root, v);
      if !e.flags.w { return false, done; }
      var n := if PGSIZE - off < |src| - done then PGSIZE - off else |src| - done;
      ghost var m2 := mem.pages;
      MappedByte(m2, mem.own, root, sz, v);
      UserMappedOwned(m2, mem.own, root, v);
      ghost var was := m2[pa.value].bytes;
      var bytes := Overwrite(mem.pages[pa.value].bytes, off, src[done..done + n]);
      WritePage(m2, mem.own, root, sz, v, bytes);
      FreeElsewhere(m2, mem.own, mem.freelist, mem.list, pa.value, Data(bytes), mem.own[pa.value]);
      assert mem.own[pa.value := mem.own[pa.value]] == mem.own;
      mem.pages := mem.pages[pa.value := Data(bytes)];
      SplicePage(m0, m2, mem.pages, root, sz, va, src, done, n, was);
      OthersTrans(m0, o0, m2, mem.own, mem.pages, mem.own, root);
      OneMoreMapped(m2, mem.pages, root, va, done, n, v);
      NextPage(dst, n, off);
      done := done + n;
    }
    ok := true;
  }

  lemma NextPage(dst: nat, n: nat, off: nat)
    requires off == dst % PGSIZE && n <= PGSIZE - off
    ensures n == PGSIZE - off ==> (dst + n) % PGSIZE == 0
  {
  }

  lemma Nothing(mem: Mem, own: Owners, root: nat, sz: nat, va: nat, src: seq<byte>)
    requires Good(mem, own)
    ensures Spliced(mem, mem, root, sz, va, src, 0) && OthersSame(mem, own, mem, own, root)
  {
  }

  /** Entries that stay keep their pages writable. */
  lemma StillWritable(mem: Mem, m: Mem, root: nat, v: nat)
    requires EntriesKept(mem, m, root)
    ensures UserWritable(mem, root, v) ==> v < MAXPAGE && UserWritable(m, root, v)
    ensures UserWritable(m, root, v) <==> UserMapped(m, root, v) && PteAt(m, root, v).flags.w
  {
    hide PteAt;
  }

  lemma MappedKept(mem: Mem, m: Mem, root: nat, va: nat, done: nat)
    requires EntriesKept(mem, m, root)
    requires forall v :: Touches(va, done, v) ==> UserWritable(mem, root, v)
    ensures forall v :: Touches(va, done, v) ==> UserWritable(m, root, v)
  {
    forall v | Touches(va, done, v) ensures UserWritable(m, root, v) {
      StillWritable(mem, m, root, v);
    }
  }

  lemma FaultKeeps(m0: Mem, o0: Owners, m1: Mem, o1: Owners, m2: Mem, o2: Owners,
                   root: nat, sz: nat, va: nat, src: seq<byte>, done: nat)
    requires done <= |src| && OthersSame(m0, o0, m1, o1, root) && Spliced(m0, m1, root, sz, va, src, done)
    requires SameBytes(m1, o1, m2, o2, root, sz)
    ensures IsRoot(o2, root) && OthersSame(m0, o0, m2, o2, root) && Spliced(m0, m2, root, sz, va, src, done)
  {
    hide UserByte, Spliced, OthersSame;
    OthersTrans(m0, o0, m1, o1, m2, o2, root);
    SplicedSame(m0, m1, o1, m2, o2, root, sz, va, src, done);
  }

  lemma OneMoreMapped(mem: Mem, m: Mem, root: nat, va: nat, done: nat, n: nat, v: nat)
    requires v == (va + done) / PGSIZE && (va + done) % PGSIZE + n <= PGSIZE && (done == 0 || (va + done) % PGSIZE == 0)
    requires UserWritable(mem, root, v) && forall w :: 0 <= w < MAXPAGE ==> PteAt(m, root, w) == PteAt(mem, root, w)
    requires forall w :: Touches(va, done, w) ==> UserWritable(mem, root, w)
    ensures forall w :: Touches(va, done + n, w) ==> UserWritable(m, root, w)
  {
    hide PteAt;
    forall w | Touches(va, done + n, w) ensures UserWritable(m, root, w) {
      assert w == v || Touches(va, done, w);
      assert UserWritable(mem, root, w);
    }
  }

  /** Copy `len` bytes from user address `va`: exactly what the process reads there. It cannot
      fail where everything is mapped already. */
  method Copyin(mem: Memory, root: nat, sz: nat, va: nat, len: nat) returns (ok: bool, dst: seq<byte>)
    requires mem.Valid() && IsRoot(mem.own, root) && sz <= MAXPAGE * PGSIZE
    modifies mem
    ensures mem.Valid() && SameBytes(old(mem.pages), old(mem.own), mem.pages, mem.own, root, sz)
    ensures |dst| <= len && (ok <==> |dst| == len)
    ensures ReadsAs(old(mem.pages), root, sz, va, dst)
    ensures (forall v :: Touches(va, len, v) ==> old(UserMapped(mem.pages, root, v))) ==> ok
  {
    hide Good, FreeOk, PteAt, SameBytes, UserByte, UserMapped, SameLeaves, HasSlot, LeafTable, Walked, OthersSame;
    ghost var m0, o0 := mem.pages, mem.own;
    GoodKeys(m0, o0);
    WalkedRefl(m0, o0, root);
    WalkedSameBytes(m0, o0, m0, o0, root, sz);
    dst := [];
    assert ReadsAs(m0, root, sz, va, dst);
    hide ReadsAs;
    while |dst| < len
      invariant mem.Valid() && IsRoot(mem.own, root) && SameBytes(m0, o0, mem.pages, mem.own, root, sz) && |dst| <= len
      invariant ReadsAs(m0, root, sz, va, dst)
      invariant EntriesKept(m0, mem.pages, root)
      decreases len - |dst|
    {
      var a := va + |dst|;
      var v, off := a / PGSIZE, a % PGSIZE;
      ghost var m1, o1 := mem.pages, mem.own;
      StillMapped(m0, m1, root, v);
      PageInRange(va, |dst|, len);
      var pa := UserPageOf(mem, root, sz, v);
      SameBytesTrans(m0, o0, m1, o1, mem.pages, mem.own, root, sz);
      if pa.None? { return false, dst; }
      var n := if PGSIZE - off < len - |dst| then PGSIZE - off else len - |dst|;
      MappedByte(mem.pages, mem.own, root, sz, v);
      var chunk := mem.pages[pa.value].bytes[off..off + n];
      ReadChunk(m0, o0, mem.pages, mem.own, root, sz, va, dst, chunk);
      dst := dst + chunk;
    }
    ok := true;
  }

  lemma StillMapped(mem: Mem, m: Mem, root: nat, v: nat)
    requires EntriesKept(mem, m, root)
    ensures UserMapped(mem, root, v) ==> UserMapped(m, root, v)
  {
    hide PteAt;
  }

  lemma PageInRange(va: nat, got: nat, len: nat)
    requires got < len
    ensures Touches(va, len, (va + got) / PGSIZE)
  {
  }

  lemma SameBytesTrans(m0: Mem, o0: Owners, m1: Mem, o1: Owners, m2: Mem, o2: Owners, root: nat, sz: nat)
    requires SameBytes(m0, o0, m1, o1, root, sz) && SameBytes(m1, o1, m2, o2, root, sz)
    ensures SameBytes(m0, o0, m2, o2, root, sz) && IsRoot(o2, root)
  {
    hide UserByte, OthersSame;
    OthersTrans(m0, o0, m1, o1, m2, o2, root);
  }

  lemma ReadChunk(m0: Mem, o0: Owners, mem: Mem, own: Owners, root: nat, sz: nat, va: nat, dst: seq<byte>,
                  chunk: seq<byte>)
    requires SameBytes(m0, o0, mem, own, root, sz) && Good(mem, own) && (va + |dst|) % PGSIZE + |chunk| <= PGSIZE
    requires UserMapped(mem, root, (va + |dst|) / PGSIZE) && IsData(mem, PteAt(mem, root, (va + |dst|) / PGSIZE).ppn)
    requires var off := (va + |dst|) % PGSIZE;
             chunk == mem[PteAt(mem, root, (va + |dst|) / PGSIZE).ppn].bytes[off..off + |chunk|]
    requires ReadsAs(m0, root, sz, va, dst)
    ensures ReadsAs(m0, root, sz, va, dst + chunk)
  {
    hide UserByte, OthersSame, Good, PteAt;
    var a := va + |dst|;
    MappedByte(mem, own, root, sz, a / PGSIZE);
    var all := dst + chunk;
    forall k | 0 <= k < |all| ensures UserByte(m0, root, sz, va + k) == Some(all[k]) {
      if k >= |dst| {
        InPage(va + k, a, |chunk|);
        assert UserByte(mem, root, sz, va + k) == UserByte(m0, root, sz, va + k);
      }
    }
  }

  /** What was copied out can always be copied in again, also where pages were allocated on the way. */
  method OutAndIn(mem: Memory, root: nat, sz: nat, va: nat, src: seq<byte>)
    returns (wrote: bool, read: bool, back: seq<byte>)
    requires mem.Valid() && IsRoot(mem.own, root) && sz <= MAXPAGE * PGSIZE
    modifies mem
    ensures mem.Valid() && (wrote ==> read && back == src)
  {
    hide Good, FreeOk, PteAt, UserByte, UserMapped, OthersSame, Touches;
    var done;
    wrote, done := Copyout(mem, root, sz, va, src);
    read, back := false, [];
    if !wrote { return; }
    ghost var m := mem.pages;
    read, back := Copyin(mem, root, sz, va, |src|);
    assert forall k :: 0 <= k < |src| ==> UserByte(m, root, sz, va + k) == Some(src[k]);
  }
}
