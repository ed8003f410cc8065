/** Every physical page has exactly one owner: the free list, a page table as one of its nodes,
    a page table as user memory, or a holder in the kernel. What each change of memory keeps. */
module PageOwners {
  import opened Common
  import opened Blocks
  import opened PageTables

  predicate IsData(mem: Mem, p: nat) { p in mem && mem[p].Data? && |mem[p].bytes| == PGSIZE }

  /** Memory owned by a page table is mapped there, and is data. */
  ghost predicate LeavesMapped(mem: Mem, own: Owners) {
    forall p :: p in own && own[p].Leaf? ==>
      && IsRoot(own, own[p].root) && own[p].v < MAXPAGE && IsData(mem, p)
      && PteAt(mem, own[p].root, own[p].v).Entry? && PteAt(mem, own[p].root, own[p].v).ppn == p
  }

  ghost predicate UserPage(mem: Mem, own: Owners, r: nat, w: nat) {
    PteAt(mem, r, w).Entry? && PteAt(mem, r, w).flags.u ==> Owns(own, PteAt(mem, r, w).ppn, Leaf(r, w))
  }

  /** What user code can reach is memory its own page table owns, at that very page: no aliases. */
  ghost predicate UserOwned(mem: Mem, own: Owners) {
    forall r: nat, w: nat :: IsRoot(own, r) && w < MAXPAGE ==> UserPage(mem, own, r, w)
  }

  ghost predicate Good(mem: Mem, own: Owners) {
    mem.Keys == own.Keys && TreeOk(mem, own) && LeavesMapped(mem, own) && UserOwned(mem, own)
  }

  /** No page table's map changes. */
  ghost predicate SameMaps(mem: Mem, own: Owners, m: Mem) {
    forall r: nat, w: nat :: IsRoot(own, r) && w < MAXPAGE ==> PteAt(m, r, w) == PteAt(mem, r, w)
  }

  /** Maps, roots, leaf owners and leaf contents all the same. */
  ghost predicate SameLeaves(mem: Mem, own: Owners, m: Mem, o: Owners) {
    && SameMaps(mem, own, m) && own.Keys == o.Keys
    && (forall r :: IsRoot(o, r) <==> IsRoot(own, r))
    && (forall p :: p in own ==> (own[p].Leaf? || o[p].Leaf? ==> o[p] == own[p]))
    && (forall p :: p in own && own[p].Leaf? ==> p in mem && p in m && m[p] == mem[p])
  }

  lemma SameLeavesKeeps(mem: Mem, own: Owners, m: Mem, o: Owners)
    requires LeavesMapped(mem, own) && UserOwned(mem, own) && SameLeaves(mem, own, m, o)
    ensures LeavesMapped(m, o) && UserOwned(m, o)
  {
    hide PteAt;
    forall p | p in o && o[p].Leaf?
      ensures IsRoot(o, o[p].root) && o[p].v < MAXPAGE && IsData(m, p)
      ensures PteAt(m, o[p].root, o[p].v).Entry? && PteAt(m, o[p].root, o[p].v).ppn == p
    {
      assert own[p] == o[p];
    }
    forall r: nat, w: nat | IsRoot(o, r) && w < MAXPAGE ensures UserPage(m, o, r, w) {
      assert UserPage(mem, own, r, w);
    }
  }

  // ---- Pages outside the trees ----

  lemma OutsideView(mem: Mem, own: Owners, p: nat, page: Page, r: nat, w: nat)
    requires TreeOk(mem, own) && p in own && !own[p].Node? && IsRoot(own, r) && w < MAXPAGE
    ensures PteAt(mem[p := page], r, w) == PteAt(mem, r, w)
    ensures LeafTable(mem[p := page], r, w) == LeafTable(mem, r, w)
  {
    hide TreeOk;
    LeafTableOwner(mem, own, r, w);
  }

  lemma OutsideTree(mem: Mem, own: Owners, p: nat, page: Page, o: Owner)
    requires TreeOk(mem, own) && p in own && !own[p].Node? && !o.Node?
    ensures TreeOk(mem[p := page], own[p := o])
  {
    var m, n := mem[p := page], own[p := o];
    forall q | q in n ensures NodeOk(m, n, q) {
      assert NodeOk(mem, own, q);
      if q != p && own[q].Node? {
        assert forall i :: PteIn(m, q, i) == PteIn(mem, q, i);
      }
    }
  }

  /** A page moves between the free list and a holder. */
  lemma Reown(mem: Mem, own: Owners, p: nat, page: Page, o: Owner)
    requires Good(mem, own) && p in own && own[p] in {Free, Held} && o in {Free, Held}
    ensures Good(mem[p := page], own[p := o]) && SameLeaves(mem, own, mem[p := page], own[p := o])
  {
    hide TreeOk, LeavesMapped, UserOwned, PteAt;
    var m, n := mem[p := page], own[p := o];
    OutsideTree(mem, own, p, page, o);
    forall r: nat, w: nat | IsRoot(own, r) && w < MAXPAGE ensures PteAt(m, r, w) == PteAt(mem, r, w) {
      OutsideView(mem, own, p, page, r, w);
    }
    SameLeavesKeeps(mem, own, m, n);
  }

  /** A held page becomes a table node. */
  lemma Grow(mem: Mem, own: Owners, p: nat, i: nat, c: nat)
    requires Good(mem, own) && Owns(own, c, Held)
    requires p in own && CanGrow(own[p], i) && IsTable(mem, p) && Child(mem, p, i).None?
    ensures p != c && Good(WithTable(mem, p, i, c), own[c := Below(own[p], p, i)])
    ensures SameLeaves(mem, own, WithTable(mem, p, i, c), own[c := Below(own[p], p, i)])
  {
    hide TreeOk, LeavesMapped, UserOwned, PteAt;
    AddTable(mem, own, p, i, c);
    var m, o := WithTable(mem, p, i, c), own[c := Below(own[p], p, i)];
    forall r: nat, w: nat | IsRoot(own, r) && w < MAXPAGE ensures PteAt(m, r, w) == PteAt(mem, r, w) {
      AddTableView(mem, own, p, i, c, r, w);
    }
    SameLeavesKeeps(mem, own, m, o);
  }

  // ---- Mapping and unmapping one page ----

  /** The map of every table after page `v` of `root` got entry `e`. */
  ghost predicate OnePte(mem: Mem, own: Owners, m: Mem, root: nat, v: nat, e: Pte) {
    forall r: nat, w: nat :: IsRoot(own, r) && w < MAXPAGE ==>
      PteAt(m, r, w) == if r == root && w == v then e else PteAt(mem, r, w)
  }

  ghost predicate HasSlot(mem: Mem, own: Owners, root: nat, v: nat) {
    IsRoot(own, root) && v < MAXPAGE && LeafTable(mem, root, v).Some? && IsTable(mem, LeafTable(mem, root, v).value)
  }

  /** The memory after storing the entry of page `v`, where it has one. */
  function SetAt(mem: Mem, root: nat, v: nat, e: Pte): Mem {
    var t := LeafTable(mem, root, v);
    if t.Some? && IsTable(mem, t.value) then SetPte(mem, t.value, Px0(v), e) else mem
  }

  lemma SetAtTree(mem: Mem, own: Owners, root: nat, v: nat, e: Pte)
    requires TreeOk(mem, own) && HasSlot(mem, own, root, v)
    ensures TreeOk(SetAt(mem, root, v, e), own) && OnePte(mem, own, SetAt(mem, root, v, e), root, v, e)
    ensures LeafTable(mem, root, v).value in own && own[LeafTable(mem, root, v).value].Node?
  {
    hide TreeOk, PteAt, Px0, Px1, Px2;
    LeafTableOwner(mem, own, root, v);
    SetLeafTree(mem, own, LeafTable(mem, root, v).value, Px0(v), e);
    forall r: nat, w: nat | IsRoot(own, r) && w < MAXPAGE
      ensures PteAt(SetAt(mem, root, v, e), r, w) == if r == root && w == v then e else PteAt(mem, r, w)
    {
      SetLeafView(mem, own, root, v, e, r, w);
    }
  }

  /** mappages stores one entry for a page it is given, or for one that user code cannot reach. */
  lemma MapPage(mem: Mem, own: Owners, root: nat, v: nat, p: nat, flags: Flags, give: bool)
    requires Good(mem, own) && HasSlot(mem, own, root, v) && PteAt(mem, root, v) == Empty
    requires if give then Owns(own, p, Held) && IsData(mem, p) else !flags.u
    ensures Good(SetAt(mem, root, v, Entry(p, flags)), if give then own[p := Leaf(root, v)] else own)
    ensures OnePte(mem, own, SetAt(mem, root, v, Entry(p, flags)), root, v, Entry(p, flags))
  {
    hide TreeOk, PteAt, LeafTable, Px0, Px1, Px2;
    var e := Entry(p, flags);
    var m, o := SetAt(mem, root, v, e), if give then own[p := Leaf(root, v)] else own;
    SetAtTree(mem, own, root, v, e);
    if give {
      OutsideTree(m, own, p, m[p], Leaf(root, v));
      assert m[p := m[p]] == m;
    }
    forall q | q in o && o[q].Leaf?
      ensures IsRoot(o, o[q].root) && o[q].v < MAXPAGE && IsData(m, q)
      ensures PteAt(m, o[q].root, o[q].v).Entry? && PteAt(m, o[q].root, o[q].v).ppn == q
    {
    }
    forall r: nat, w: nat | IsRoot(o, r) && w < MAXPAGE ensures UserPage(m, o, r, w) {
      assert UserPage(mem, own, r, w);
    }
  }

  /** uvmunmap clears the entry of an owned page; the page goes to the free list or to a holder. */
  lemma UnmapPage(mem: Mem, own: Owners, root: nat, v: nat, p: nat, page: Page, o: Owner)
    requires Good(mem, own) && HasSlot(mem, own, root, v) && Owns(own, p, Leaf(root, v)) && o in {Free, Held}
    ensures LeafTable(mem[p := page], root, v) == LeafTable(mem, root, v) && p != LeafTable(mem, root, v).value
    ensures Good(SetAt(mem[p := page], root, v, Empty), own[p := o])
    ensures OnePte(mem, own, SetAt(mem[p := page], root, v, Empty), root, v, Empty)
  {
    hide TreeOk, PteAt, LeafTable, Px0, Px1, Px2;
    LeafTableOwner(mem, own, root, v);
    var m, n := mem[p := page], own[p := o];
    OutsideTree(mem, own, p, page, o);
    forall r: nat, w: nat | IsRoot(own, r) && w < MAXPAGE
      ensures PteAt(m, r, w) == PteAt(mem, r, w) && LeafTable(m, r, w) == LeafTable(mem, r, w)
    {
      OutsideView(mem, own, p, page, r, w);
    }
    SetAtTree(m, n, root, v, Empty);
    var k := SetAt(m, root, v, Empty);
    forall q | q in n && n[q].Leaf?
      ensures IsRoot(n, n[q].root) && n[q].v < MAXPAGE && IsData(k, q)
      ensures PteAt(k, n[q].root, n[q].v).Entry? && PteAt(k, n[q].root, n[q].v).ppn == q
    {
      assert own[q] == n[q];
    }
    forall r: nat, w: nat | IsRoot(n, r) && w < MAXPAGE ensures UserPage(k, n, r, w) {
      assert UserPage(mem, own, r, w);
    }
  }

  /** uvmunmap clears an entry for memory the table does not own. */
  lemma UnmapForeign(mem: Mem, own: Owners, root: nat, v: nat)
    requires Good(mem, own) && HasSlot(mem, own, root, v)
    requires PteAt(mem, root, v).Entry? && !Owns(own, PteAt(mem, root, v).ppn, Leaf(root, v))
    ensures Good(SetAt(mem, root, v, Empty), own) && OnePte(mem, own, SetAt(mem, root, v, Empty), root, v, Empty)
  {
    hide TreeOk, PteAt, LeafTable, Px0, Px1, Px2;
    SetAtTree(mem, own, root, v, Empty);
    var m := SetAt(mem, root, v, Empty);
    forall q | q in own && own[q].Leaf?
      ensures IsRoot(own, own[q].root) && own[q].v < MAXPAGE && IsData(m, q)
      ensures PteAt(m, own[q].root, own[q].v).Entry? && PteAt(m, own[q].root, own[q].v).ppn == q
    {
      assert own[q] != Leaf(root, v);
    }
    forall r: nat, w: nat | IsRoot(own, r) && w < MAXPAGE ensures UserPage(m, own, r, w) {
      assert UserPage(mem, own, r, w);
    }
  }

  /** An owned page is what its owner maps. */
  lemma OwnedIsMapped(mem: Mem, own: Owners, root: nat, v: nat, p: nat)
    requires Good(mem, own) && Owns(own, p, Leaf(root, v))
    ensures PteAt(mem, root, v).Entry? && PteAt(mem, root, v).ppn == p
  {
  }

  /** No two user pages, of one process or of two, are the same physical page; and none is a page of
      a page table or on the free list. */
  lemma UserPagesDiffer(mem: Mem, own: Owners, r: nat, v: nat, s: nat, w: nat)
    requires Good(mem, own) && IsRoot(own, r) && IsRoot(own, s) && v < MAXPAGE && w < MAXPAGE
    requires PteAt(mem, r, v).Entry? && PteAt(mem, r, v).flags.u
    requires PteAt(mem, s, w).Entry? && PteAt(mem, s, w).flags.u
    ensures PteAt(mem, r, v).ppn == PteAt(mem, s, w).ppn ==> r == s && v == w
    ensures PteAt(mem, r, v).ppn in own && own[PteAt(mem, r, v).ppn].Leaf?
  {
    hide PteAt, TreeOk, LeavesMapped;
    assert UserPage(mem, own, r, v) && UserPage(mem, own, s, w);
  }

  /** A held page becomes an empty page table of its own. */
  lemma NewRoot(mem: Mem, own: Owners, p: nat)
    requires Good(mem, own) && Owns(own, p, Held)
    ensures Good(mem[p := EmptyTable()], own[p := Node(p, Root)]) && SameMaps(mem, own, mem[p := EmptyTable()])
    ensures var m := mem[p := EmptyTable()]; forall w :: 0 <= w < MAXPAGE ==> PteAt(m, p, w) == Empty
  {
    var m, o := mem[p := EmptyTable()], own[p := Node(p, Root)];
    assert forall i :: PteIn(m, p, i) == Empty;
    forall q | q in o ensures NodeOk(m, o, q) {
      if q != p {
        assert NodeOk(mem, own, q);
        assert own[q].Node? ==> forall i :: PteIn(m, q, i) == PteIn(mem, q, i);
      }
    }
    hide TreeOk;
    forall r: nat, w: nat | IsRoot(own, r) && w < MAXPAGE ensures PteAt(m, r, w) == PteAt(mem, r, w) {
      OutsideView(mem, own, p, EmptyTable(), r, w);
    }
    hide PteAt;
    forall r: nat, w: nat | IsRoot(o, r) && w < MAXPAGE ensures UserPage(m, o, r, w) {
      assert r != p ==> UserPage(mem, own, r, w);
    }
  }
}
