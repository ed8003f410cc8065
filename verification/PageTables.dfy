/** Sv39 page tables (section 4.4 of the RISC-V Privileged Architecture, version 1.12) over typed
    physical pages. A page is a free-list node, a table of 512 entries, or 4096 bytes of data. */
module PageTables {
  import opened Common
  import opened Blocks

  const ENTRIES := 512
  const PGSIZE := 4096
  /** MAXVA in pages. It is one bit less than three indices allow, so the root uses half its entries. */
  const MAXPAGE := 0x400_0000
  const TOP := 256

  datatype Flags = Flags(r: bool, w: bool, x: bool, u: bool)

  const NONE := Flags(false, false, false, false)

  datatype Pte = Empty | Entry(ppn: nat, flags: Flags)

  datatype Page = Run(next: Option<nat>) | Table(ptes: seq<Pte>) | Data(bytes: seq<byte>)

  type Mem = map<nat, Page>

  // ---- The walk ----

  function Px2(v: nat): nat { v / 0x4_0000 }

  function Px1(v: nat): (r: nat)
    ensures r < ENTRIES
  {
    v / 0x200 % 0x200
  }

  function Px0(v: nat): (r: nat)
    ensures r < ENTRIES
  {
    v % 0x200
  }

  lemma Px2Bound(v: nat)
    requires v < MAXPAGE
    ensures Px2(v) < TOP
  {
  }

  /** The three 9-bit indices determine the page. */
  lemma IndicesAreInjective(v: nat, w: nat)
    requires Px2(v) == Px2(w) && Px1(v) == Px1(w) && Px0(v) == Px0(w)
    ensures v == w
  {
    Recompose(v);
    Recompose(w);
  }

  lemma Recompose(v: nat)
    ensures v == Px2(v) * 0x4_0000 + Px1(v) * 0x200 + Px0(v)
  {
    assert v / 0x200 / 0x200 == v / 0x4_0000;
  }

  predicate IsTable(mem: Mem, p: nat) {
    p in mem && mem[p].Table? && |mem[p].ptes| == ENTRIES
  }

  function PteIn(mem: Mem, p: nat, i: nat): Pte {
    if IsTable(mem, p) && i < ENTRIES then mem[p].ptes[i] else Empty
  }

  function Child(mem: Mem, p: nat, i: nat): Option<nat> {
    var e := PteIn(mem, p, i);
    if e.Entry? then Some(e.ppn) else None
  }

  /** The level-0 table that holds the entry of page `v`, if it exists. */
  function LeafTable(mem: Mem, root: nat, v: nat): Option<nat> {
    var q := Child(mem, root, Px2(v));
    if q.None? then None else Child(mem, q.value, Px1(v))
  }

  /** The partial map a page table stands for. */
  function PteAt(mem: Mem, root: nat, v: nat): Pte {
    var t := LeafTable(mem, root, v);
    if t.None? then Empty else PteIn(mem, t.value, Px0(v))
  }

  // ---- What the hardware does ----

  /** Sv39 address translation from level `i` down: nine bits of the address select an entry of the table
      at page `a`, which holds the page of the next table or of the memory. */
  ghost function Translated(mem: Mem, a: nat, va: nat, i: nat): Pte
    requires i <= 2
    decreases i
  {
    var e := PteIn(mem, a, va / (if i == 2 then 0x4000_0000 else if i == 1 then 0x20_0000 else 0x1000) % 512);
    if i == 0 || e.Empty? then e else Translated(mem, e.ppn, va, i - 1)
  }

  /** The map a page table stands for is the one the hardware uses. */
  lemma MapIsTheHardwares(mem: Mem, root: nat, va: nat)
    requires va < MAXPAGE * PGSIZE
    ensures PteAt(mem, root, va / PGSIZE) == Translated(mem, root, va, 2)
  {
    IndicesOf(va);
    hide Px0, Px1, Px2, PteIn;
    var e2 := PteIn(mem, root, Px2(va / PGSIZE));
    if e2.Entry? {
      var e1 := PteIn(mem, e2.ppn, Px1(va / PGSIZE));
      assert Translated(mem, e2.ppn, va, 1) == if e1.Entry? then Translated(mem, e1.ppn, va, 0) else e1;
    }
  }

  lemma IndicesOf(va: nat)
    requires va < MAXPAGE * PGSIZE
    ensures Px2(va / PGSIZE) == va / 0x4000_0000 % 512
    ensures Px1(va / PGSIZE) == va / 0x20_0000 % 512
    ensures Px0(va / PGSIZE) == va / 0x1000 % 512
  {
    assert va / PGSIZE / 0x4_0000 == va / 0x4000_0000;
    assert va / PGSIZE / 0x200 == va / 0x20_0000;
  }

  // ---- Ownership ----

  datatype Spot = Root | Mid(i: nat) | Low(i: nat, j: nat, mid: nat)

  /** Who owns a physical page: the free list, a holder outside this model (a caller that just
      allocated it, say), a page table as its node, or a page table as the memory of page `v`. */
  datatype Owner = Free | Held | Node(root: nat, spot: Spot) | Leaf(root: nat, v: nat)

  type Owners = map<nat, Owner>

  /** Entry `i` of a table with this owner may point at a table below. */
  predicate CanGrow(o: Owner, i: nat) { o.Node? && !o.spot.Low? && i < (if o.spot.Root? then TOP else ENTRIES) }

  predicate Owns(own: Owners, p: nat, o: Owner) { p in own && own[p] == o }

  predicate IsRoot(own: Owners, root: nat) { Owns(own, root, Node(root, Root)) }

  /** The owner of the table below entry `i` of the table at `p`. */
  function Below(o: Owner, p: nat, i: nat): Owner
    requires o.Node? && !o.spot.Low?
  {
    Node(o.root, if o.spot.Root? then Mid(i) else Low(o.spot.i, i, p))
  }

  ghost predicate EntriesOk(mem: Mem, own: Owners, p: nat, o: Owner)
    requires o.Node?
  {
    !o.spot.Low? ==> forall i :: 0 <= i < ENTRIES ==>
      PteIn(mem, p, i).Entry? ==> PteIn(mem, p, i).flags == NONE && Owns(own, PteIn(mem, p, i).ppn, Below(o, p, i))
  }

  /** A node is reachable: its parent's entry points at it. */
  ghost predicate ParentOk(mem: Mem, own: Owners, p: nat, o: Owner)
    requires o.Node?
  {
    match o.spot
    case Root => p == o.root
    case Mid(i) => i < TOP && IsRoot(own, o.root) && PteIn(mem, o.root, i) == Entry(p, NONE)
    case Low(i, j, mid) =>
      i < TOP && j < ENTRIES && Owns(own, mid, Node(o.root, Mid(i))) && PteIn(mem, mid, j) == Entry(p, NONE)
  }

  ghost predicate NodeOk(mem: Mem, own: Owners, p: nat) {
    p in own && own[p].Node? ==> IsTable(mem, p) && EntriesOk(mem, own, p, own[p]) && ParentOk(mem, own, p, own[p])
  }

  ghost predicate TreeOk(mem: Mem, own: Owners) {
    forall p :: p in own ==> NodeOk(mem, own, p)
  }

  lemma ChildOwner(mem: Mem, own: Owners, p: nat, i: nat)
    requires TreeOk(mem, own) && p in own && own[p].Node? && !own[p].spot.Low? && i < ENTRIES && Child(mem, p, i).Some?
    ensures Owns(own, Child(mem, p, i).value, Below(own[p], p, i))
  {
    assert NodeOk(mem, own, p);
  }

  /** The walk ends in the node that belongs to exactly these indices of this table. */
  lemma LeafTableOwner(mem: Mem, own: Owners, root: nat, v: nat)
    requires TreeOk(mem, own) && IsRoot(own, root) && v < MAXPAGE
    ensures Child(mem, root, Px2(v)).Some? ==> Owns(own, Child(mem, root, Px2(v)).value, Node(root, Mid(Px2(v))))
    ensures LeafTable(mem, root, v).Some? ==>
            Owns(own, LeafTable(mem, root, v).value, Node(root, Low(Px2(v), Px1(v), Child(mem, root, Px2(v)).value)))
  {
    Px2Bound(v);
    var q := Child(mem, root, Px2(v));
    if q.Some? {
      ChildOwner(mem, own, root, Px2(v));
      if Child(mem, q.value, Px1(v)).Some? {
        ChildOwner(mem, own, q.value, Px1(v));
      }
    }
  }

  // ---- Changing one leaf entry ----

  function SetPte(mem: Mem, t: nat, k: nat, e: Pte): Mem
    requires IsTable(mem, t) && k < ENTRIES
  {
    mem[t := Table(mem[t].ptes[k := e])]
  }

  lemma SetPteIn(mem: Mem, t: nat, k: nat, e: Pte, p: nat, i: nat)
    requires IsTable(mem, t) && k < ENTRIES
    ensures PteIn(SetPte(mem, t, k, e), p, i) == if p == t && i == k then e else PteIn(mem, p, i)
  {
  }

  lemma SetLeafTree(mem: Mem, own: Owners, t: nat, k: nat, e: Pte)
    requires TreeOk(mem, own) && IsTable(mem, t) && k < ENTRIES && t in own && own[t].Node? && own[t].spot.Low?
    ensures TreeOk(SetPte(mem, t, k, e), own)
  {
    var m := SetPte(mem, t, k, e);
    forall p | p in own ensures NodeOk(m, own, p) {
      assert NodeOk(mem, own, p);
      if own[p].Node? {
        assert forall i :: PteIn(m, p, i) == PteIn(mem, p, i) || p == t;
      }
    }
  }

  /** Writing the entry of page `v` changes the map at `v` and nowhere else, in any table. */
  lemma SetLeafView(mem: Mem, own: Owners, root: nat, v: nat, e: Pte, r: nat, w: nat)
    requires TreeOk(mem, own) && IsRoot(own, root) && IsRoot(own, r) && v < MAXPAGE && w < MAXPAGE
    requires LeafTable(mem, root, v).Some? && IsTable(mem, LeafTable(mem, root, v).value)
    ensures var m := SetPte(mem, LeafTable(mem, root, v).value, Px0(v), e);
            && LeafTable(m, r, w) == LeafTable(mem, r, w)
            && PteAt(m, r, w) == if r == root && w == v then e else PteAt(mem, r, w)
  {
    hide TreeOk, Px0, Px1, Px2;
    var t := LeafTable(mem, root, v).value;
    LeafTableOwner(mem, own, root, v);
    LeafTableOwner(mem, own, r, w);
    SetPteIn(mem, t, Px0(v), e, r, Px2(w));
    var q := Child(mem, r, Px2(w));
    if q.Some? {
      SetPteIn(mem, t, Px0(v), e, q.value, Px1(w));
      var s := LeafTable(mem, r, w);
      if s.Some? {
        SetPteIn(mem, t, Px0(v), e, s.value, Px0(w));
        if s.value == t && Px0(v) == Px0(w) {
          IndicesAreInjective(v, w);
        }
      }
    }
  }

  // ---- Adding a table ----

  function EmptyTable(): (r: Page)
    ensures r.Table? && |r.ptes| == ENTRIES && forall i :: 0 <= i < ENTRIES ==> r.ptes[i] == Empty
  {
    Table(seq(ENTRIES, _ => Empty))
  }

  function WithTable(mem: Mem, p: nat, i: nat, c: nat): Mem
    requires IsTable(mem, p) && i < ENTRIES && c != p
  {
    SetPte(mem[c := EmptyTable()], p, i, Entry(c, NONE))
  }

  lemma WithTableIn(mem: Mem, p: nat, i: nat, c: nat, q: nat, k: nat)
    requires IsTable(mem, p) && i < ENTRIES && c != p
    ensures PteIn(WithTable(mem, p, i, c), q, k) ==
            if q == p && k == i then Entry(c, NONE) else if q == c then Empty else PteIn(mem, q, k)
  {
  }

  /** A held page becomes the table below a missing entry. */
  lemma AddTable(mem: Mem, own: Owners, p: nat, i: nat, c: nat)
    requires TreeOk(mem, own) && Owns(own, c, Held)
    requires p in own && CanGrow(own[p], i) && IsTable(mem, p) && Child(mem, p, i).None?
    ensures p != c && TreeOk(WithTable(mem, p, i, c), own[c := Below(own[p], p, i)])
  {
    var m, o := WithTable(mem, p, i, c), own[c := Below(own[p], p, i)];
    assert NodeOk(mem, own, p);
    forall q | q in o ensures NodeOk(m, o, q) {
      if q == c {
        assert forall k :: PteIn(m, c, k) == Empty;
        WithTableIn(mem, p, i, c, p, i);
      } else {
        assert NodeOk(mem, own, q);
        AddTableNode(mem, own, p, i, c, q);
      }
    }
  }

  lemma AddTableNode(mem: Mem, own: Owners, p: nat, i: nat, c: nat, q: nat)
    requires Owns(own, c, Held) && i < ENTRIES && q in own && NodeOk(mem, own, q) && q != c && p != c
    requires p in own && own[p].Node? && !own[p].spot.Low? && IsTable(mem, p) && Child(mem, p, i).None?
    ensures NodeOk(WithTable(mem, p, i, c), own[c := Below(own[p], p, i)], q)
  {
    hide IsTable;
    var m, o := WithTable(mem, p, i, c), own[c := Below(own[p], p, i)];
    if own[q].Node? {
      assert IsTable(m, q) by { TableKept(mem, p, i, c, q); }
      forall k | 0 <= k < ENTRIES
        ensures PteIn(m, q, k) == if q == p && k == i then Entry(c, NONE) else PteIn(mem, q, k)
      {
        WithTableIn(mem, p, i, c, q, k);
      }
      if own[q].spot.Mid? {
        WithTableIn(mem, p, i, c, own[q].root, own[q].spot.i);
      } else if own[q].spot.Low? {
        WithTableIn(mem, p, i, c, own[q].spot.mid, own[q].spot.j);
      }
    }
  }

  lemma TableKept(mem: Mem, p: nat, i: nat, c: nat, q: nat)
    requires IsTable(mem, p) && i < ENTRIES && c != p && IsTable(mem, q)
    ensures IsTable(WithTable(mem, p, i, c), q)
  {
  }

  /** A new empty table maps nothing: the map of every page table stays as it is. */
  lemma AddTableView(mem: Mem, own: Owners, p: nat, i: nat, c: nat, r: nat, w: nat)
    requires TreeOk(mem, own) && Owns(own, c, Held) && i < ENTRIES && IsRoot(own, r) && w < MAXPAGE
    requires p in own && own[p].Node? && !own[p].spot.Low? && IsTable(mem, p) && Child(mem, p, i).None?
    ensures p != c && PteAt(WithTable(mem, p, i, c), r, w) == PteAt(mem, r, w)
  {
    hide TreeOk, Px0, Px1, Px2, IsTable;
    var m := WithTable(mem, p, i, c);
    LeafTableOwner(mem, own, r, w);
    WithTableIn(mem, p, i, c, r, Px2(w));
    var q := Child(m, r, Px2(w));
    if q.Some? {
      WithTableIn(mem, p, i, c, q.value, Px1(w));
      var t := Child(m, q.value, Px1(w));
      if t.Some? {
        WithTableIn(mem, p, i, c, t.value, Px0(w));
      }
    }
  }
}
