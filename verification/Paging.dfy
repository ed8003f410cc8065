/** The physical page allocator (kernel/kalloc.c) and the page-table code (kernel/vm.c). Addresses
    of whole pages are page numbers. */
module Paging {
  import opened Common
  import opened Blocks
  import opened PageTables
  import opened PageOwners

  function NextOf(list: seq<nat>, k: nat): Option<nat> {
    if k < |list| then Some(list[k]) else None
  }

  /** The free list from its head is `list`: without repetition, ending, and exactly the free pages. */
  ghost predicate FreeOk(mem: Mem, own: Owners, head: Option<nat>, list: seq<nat>) {
    && head == NextOf(list, 0)
    && (forall k :: 0 <= k < |list| ==> Owns(own, list[k], Free) && list[k] in mem)
    && (forall k {:trigger mem[list[k]]} :: 0 <= k < |list| ==> mem[list[k]] == Run(NextOf(list, k + 1)))
    && (forall j, k :: 0 <= j < k < |list| ==> list[j] != list[k])
    && (forall p :: Owns(own, p, Free) ==> p in list)
  }

  /** Only pages from the free list changed owner, and became nodes of `root`. */
  ghost predicate Grows(own: Owners, o: Owners, root: nat) {
    own.Keys == o.Keys && forall p :: p in own ==> o[p] == own[p] || (own[p] == Free && o[p].Node? && o[p].root == root)
  }

  /** Held pages keep owner and content. */
  ghost predicate HeldKept(mem: Mem, own: Owners, m: Mem, o: Owners) {
    forall p :: Owns(own, p, Held) ==> p in mem && p in m && m[p] == mem[p] && Owns(o, p, Held)
  }

  ghost predicate LinksKept(mem: Mem, m: Mem, own: Owners) {
    forall p, i :: p in own && own[p].Node? && Child(mem, p, i).Some? ==> Child(m, p, i) == Child(mem, p, i)
  }

  /** All that walk may do to the state. */
  ghost predicate Walked(mem: Mem, own: Owners, m: Mem, o: Owners, root: nat) {
    SameLeaves(mem, own, m, o) && Grows(own, o, root) && HeldKept(mem, own, m, o)
  }

  lemma WalkedTrans(m0: Mem, o0: Owners, m1: Mem, o1: Owners, m2: Mem, o2: Owners, root: nat)
    requires Walked(m0, o0, m1, o1, root) && Walked(m1, o1, m2, o2, root)
    ensures Walked(m0, o0, m2, o2, root)
  {
    hide PteAt;
  }

  lemma WalkedRefl(mem: Mem, own: Owners, root: nat)
    requires mem.Keys == own.Keys
    ensures Walked(mem, own, mem, own, root)
  {
  }

  lemma Popped(mem: Mem, own: Owners, head: Option<nat>, list: seq<nat>, page: Page)
    requires FreeOk(mem, own, head, list) && list != []
    ensures FreeOk(mem[list[0] := page], own[list[0] := Held], NextOf(list, 1), list[1..])
  {
    var m, o, rest := mem[list[0] := page], own[list[0] := Held], list[1..];
    forall k {:trigger m[rest[k]]} | 0 <= k < |rest|
      ensures Owns(o, rest[k], Free) && rest[k] in m && m[rest[k]] == Run(NextOf(rest, k + 1))
    {
      PoppedLink(mem, own, head, list, k);
    }
    assert forall j, k :: 0 <= j < k < |rest| ==> rest[j] != rest[k] by { TailDistinct(list); }
    forall p | Owns(o, p, Free) ensures p in rest {
      assert Owns(own, p, Free);
      InTail(list, p);
    }
    TailNext(list, 0);
  }

  lemma TailDistinct(list: seq<nat>)
    requires list != [] && forall j, k :: 0 <= j < k < |list| ==> list[j] != list[k]
    ensures forall j, k :: 0 <= j < k < |list[1..]| ==> list[1..][j] != list[1..][k]
  {
  }

  lemma PoppedLink(mem: Mem, own: Owners, head: Option<nat>, list: seq<nat>, k: nat)
    requires FreeOk(mem, own, head, list) && k + 1 < |list|
    ensures var p := list[1..][k];
            p != list[0] && Owns(own, p, Free) && p in mem && mem[p] == Run(NextOf(list[1..], k + 1))
  {
    var j := k + 1;
    assert list[1..][k] == list[j] && list[0] != list[j];
    assert Owns(own, list[j], Free) && mem[list[j]] == Run(NextOf(list, j + 1));
    TailNext(list, j);
  }

  lemma TailNext(list: seq<nat>, j: nat)
    requires list != []
    ensures NextOf(list[1..], j) == NextOf(list, j + 1)
  {
  }

  lemma InTail(list: seq<nat>, p: nat)
    requires p in list && p != list[0]
    ensures p in list[1..]
  {
    var k :| 0 <= k < |list| && list[k] == p;
    assert list[1..][k - 1] == p;
  }

  lemma Pushed(mem: Mem, own: Owners, head: Option<nat>, list: seq<nat>, p: nat)
    requires FreeOk(mem, own, head, list) && p in own && own[p] != Free
    ensures FreeOk(mem[p := Run(head)], own[p := Free], Some(p), [p] + list)
  {
    var m, o, l := mem[p := Run(head)], own[p := Free], [p] + list;
    forall k {:trigger m[l[k]]} | 0 <= k < |l|
      ensures Owns(o, l[k], Free) && l[k] in m && m[l[k]] == Run(NextOf(l, k + 1))
    {
      if k > 0 {
        assert l[k] == list[k - 1] && NextOf(l, k + 1) == NextOf(list, k);
      } else {
        assert NextOf(l, 1) == NextOf(list, 0);
      }
    }
  }

  /** Memory that is not on the free list can be written, and its owner changed, freely. */
  lemma FreeElsewhere(mem: Mem, own: Owners, head: Option<nat>, list: seq<nat>, p: nat, page: Page, o: Owner)
    requires FreeOk(mem, own, head, list) && p in own && own[p] != Free && o != Free
    ensures FreeOk(mem[p := page], own[p := o], head, list)
  {
  }

  // ---- What mappages and uvmunmap do to every page table at once ----

  /** Pages v, v+1, ... of `root` map to ppn, ppn+1, ...; given pages become owned there. Apart
      from that only tables were added. */
  ghost predicate Mapped(mem: Mem, own: Owners, m: Mem, o: Owners,
                         root: nat, v: nat, n: nat, ppn: nat, perm: Flags, give: bool)
  {
    && own.Keys == o.Keys && (forall r :: IsRoot(o, r) <==> IsRoot(own, r))
    && (forall r: nat, w: nat :: IsRoot(own, r) && w < MAXPAGE ==>
          PteAt(m, r, w) == if r == root && v <= w < v + n then Entry(ppn + (w - v), perm) else PteAt(mem, r, w))
    && (forall p :: p in own ==>
          || o[p] == (if give && ppn <= p < ppn + n then Leaf(root, v + (p - ppn)) else own[p])
          || (own[p] == Free && o[p].Node? && o[p].root == root))
    && (forall p :: p in own && (own[p].Leaf? || own[p] == Held) ==> p in mem && p in m && m[p] == mem[p])
  }

  /** Pages v..v+n of `root` map to nothing; those it owned there went to the free list, or are held. */
  ghost predicate Unmapped(mem: Mem, own: Owners, m: Mem, o: Owners, root: nat, v: nat, n: nat, free: bool) {
    && own.Keys == o.Keys && (forall r :: IsRoot(o, r) <==> IsRoot(own, r))
    && (forall r: nat, w: nat :: IsRoot(own, r) && w < MAXPAGE ==>
          PteAt(m, r, w) == if r == root && v <= w < v + n then Empty else PteAt(mem, r, w))
    && (forall p :: p in own ==>
          o[p] == if own[p].Leaf? && own[p].root == root && v <= own[p].v < v + n
                  then (if free then Free else Held) else own[p])
    && (forall p :: p in o && (o[p].Leaf? || o[p] == Held) ==> p in mem && p in m && m[p] == mem[p])
  }

  lemma WalkedIsMapped(mem: Mem, own: Owners, m: Mem, o: Owners, root: nat, v: nat, ppn: nat, perm: Flags, give: bool)
    requires Walked(mem, own, m, o, root)
    ensures Mapped(mem, own, m, o, root, v, 0, ppn, perm, give)
  {
    hide PteAt;
  }

  lemma MappedWalk(m0: Mem, o0: Owners, m1: Mem, o1: Owners, m2: Mem, o2: Owners,
                   root: nat, v: nat, n: nat, ppn: nat, perm: Flags, give: bool)
    requires Mapped(m0, o0, m1, o1, root, v, n, ppn, perm, give) && Walked(m1, o1, m2, o2, root)
    requires give ==> forall p :: ppn <= p < ppn + n ==> Owns(o0, p, Held)
    ensures Mapped(m0, o0, m2, o2, root, v, n, ppn, perm, give)
  {
    hide PteAt;
    forall p | p in o0
      ensures || o2[p] == (if give && ppn <= p < ppn + n then Leaf(root, v + (p - ppn)) else o0[p])
              || (o0[p] == Free && o2[p].Node? && o2[p].root == root)
    {
      assert o1[p] == (if give && ppn <= p < ppn + n then Leaf(root, v + (p - ppn)) else o0[p]) ||
             (o0[p] == Free && o1[p].Node? && o1[p].root == root);
      assert o2[p] == o1[p] || (o1[p] == Free && o2[p].Node? && o2[p].root == root);
    }
  }

  lemma MappedOne(m0: Mem, o0: Owners, mem: Mem, own: Owners,
                  root: nat, v: nat, n: nat, ppn: nat, perm: Flags, give: bool)
    requires Mapped(m0, o0, mem, own, root, v, n, ppn, perm, give) && Good(mem, own) && HasSlot(mem, own, root, v + n)
    requires PteAt(m0, root, v + n) == Empty
    requires if give then Owns(o0, ppn + n, Held) && IsData(m0, ppn + n) else !perm.u
    ensures PteAt(mem, root, v + n) == Empty && (give ==> Owns(own, ppn + n, Held))
    ensures var m := SetAt(mem, root, v + n, Entry(ppn + n, perm));
            var o := if give then own[ppn + n := Leaf(root, v + n)] else own;
            Good(m, o) && Mapped(m0, o0, m, o, root, v, n + 1, ppn, perm, give)
  {
    hide PteAt, Good, SetAt, LeafTable, IsTable;
    assert PteAt(mem, root, v + n) == Empty;
    MapPage(mem, own, root, v + n, ppn + n, perm, give);
    var m, o := SetAt(mem, root, v + n, Entry(ppn + n, perm)), if give then own[ppn + n := Leaf(root, v + n)] else own;
    SetAtElsewhere(mem, own, root, v + n, Entry(ppn + n, perm));
  }

  /** Storing an entry touches only the table page. */
  lemma SetAtElsewhere(mem: Mem, own: Owners, root: nat, v: nat, e: Pte)
    requires Good(mem, own) && HasSlot(mem, own, root, v)
    ensures var t := LeafTable(mem, root, v).value;
            t in own && own[t].Node? &&
            forall p :: p in mem && p != t ==> p in SetAt(mem, root, v, e) && SetAt(mem, root, v, e)[p] == mem[p]
  {
    GoodTree(mem, own);
    hide TreeOk;
    SetAtTree(mem, own, root, v, e);
  }

  lemma UnmappedNone(mem: Mem, own: Owners, root: nat, v: nat, free: bool)
    requires mem.Keys == own.Keys
    ensures Unmapped(mem, own, mem, own, root, v, 0, free)
  {
    hide PteAt;
  }

  lemma UnmappedSkip(m0: Mem, o0: Owners, mem: Mem, own: Owners, root: nat, v: nat, n: nat, free: bool)
    requires Unmapped(m0, o0, mem, own, root, v, n, free) && Good(m0, o0) && PteAt(mem, root, v + n) == Empty
    requires IsRoot(o0, root) && v + n < MAXPAGE
    ensures Unmapped(m0, o0, mem, own, root, v, n + 1, free)
  {
    hide PteAt, Good;
    assert PteAt(m0, root, v + n) == Empty;
    forall p | p in o0 ensures o0[p] != Leaf(root, v + n) {
      if o0[p] == Leaf(root, v + n) {
        OwnedIsMapped(m0, o0, root, v + n, p);
      }
    }
  }

  /** One more entry cleared: of an owned page, which gets owner `o` and content `page`, or of a foreign one. */
  lemma UnmappedOne(m0: Mem, o0: Owners, mem: Mem, own: Owners, root: nat, v: nat, n: nat, free: bool, p: nat,
                    page: Page)
    requires Unmapped(m0, o0, mem, own, root, v, n, free) && Good(m0, o0) && Good(mem, own) &&
             HasSlot(mem, own, root, v + n)
    requires Owns(own, p, Leaf(root, v + n)) && (free || (p in mem && page == mem[p]))
    ensures var m, o := SetAt(mem[p := page], root, v + n, Empty), own[p := if free then Free else Held];
            && LeafTable(mem[p := page], root, v + n) == LeafTable(mem, root, v + n)
            && HasSlot(mem[p := page], own[p := if free then Free else Held], root, v + n)
            && Good(m, o) && Unmapped(m0, o0, m, o, root, v, n + 1, free)
  {
    hide PteAt, Good, SetAt, LeafTable;
    var w, x := v + n, if free then Free else Held;
    UnmapPage(mem, own, root, w, p, page, x);
    var m, o := SetAt(mem[p := page], root, w, Empty), own[p := x];
    assert o0[p] == Leaf(root, w);
    forall q | q in o0 && o0[q] == Leaf(root, w) ensures q == p {
      OwnedIsMapped(mem, own, root, w, p);
      OwnedIsMapped(mem, own, root, w, q);
    }
    SetAtOutside(mem[p := page], root, w, Empty);
    TableIsNode(mem, own, root, w);
  }

  lemma UnmappedForeign(m0: Mem, o0: Owners, mem: Mem, own: Owners, root: nat, v: nat, n: nat)
    requires Unmapped(m0, o0, mem, own, root, v, n, false) && Good(m0, o0) && Good(mem, own) &&
             HasSlot(mem, own, root, v + n)
    requires PteAt(mem, root, v + n).Entry? && !Owns(own, PteAt(mem, root, v + n).ppn, Leaf(root, v + n))
    ensures var m := SetAt(mem, root, v + n, Empty);
            Good(m, own) && Unmapped(m0, o0, m, own, root, v, n + 1, false)
  {
    hide PteAt, Good, SetAt, LeafTable;
    var w := v + n;
    UnmapForeign(mem, own, root, w);
    forall q | q in o0 ensures o0[q] != Leaf(root, w) {
      if o0[q] == Leaf(root, w) {
        OwnedIsMapped(mem, own, root, w, q);
      }
    }
    SetAtOutside(mem, root, w, Empty);
    TableIsNode(mem, own, root, w);
  }

  lemma SetAtOutside(mem: Mem, root: nat, v: nat, e: Pte)
    requires LeafTable(mem, root, v).Some?
    ensures SetAt(mem, root, v, e).Keys == mem.Keys
    ensures forall p :: p in mem && p != LeafTable(mem, root, v).value ==> SetAt(mem, root, v, e)[p] == mem[p]
  {
  }

  lemma TableIsNode(mem: Mem, own: Owners, root: nat, v: nat)
    requires Good(mem, own) && HasSlot(mem, own, root, v)
    ensures LeafTable(mem, root, v).value in own && own[LeafTable(mem, root, v).value].Node?
  {
    GoodTree(mem, own);
    hide TreeOk;
    LeafTableOwner(mem, own, root, v);
  }

  // ---- Growing user memory ----

  /** Content and permissions of pages to be added. */
  datatype New = New(fill: Page, perm: Flags)
  type Plan = map<nat, New>

  /** Those of the pages lo..lo+k of `root` that are in the plan are new memory as planned. */
  ghost predicate Allocated(mem: Mem, own: Owners, m: Mem, o: Owners, root: nat, lo: nat, k: nat, plan: Plan) {
    && own.Keys == o.Keys && (forall r :: IsRoot(o, r) <==> IsRoot(own, r))
    && (forall r: nat, w: nat :: IsRoot(own, r) && w < MAXPAGE && !(r == root && lo <= w < lo + k && w in plan) ==>
          PteAt(m, r, w) == PteAt(mem, r, w))
    && (forall w :: lo <= w < lo + k && w in plan ==> NewPage(own, m, o, root, w, plan[w]))
    && (forall p :: p in own ==> o[p] == own[p] || (own[p] == Free && TakenBy(o[p], root, lo, k)))
    && (forall p :: p in own && (own[p].Leaf? || own[p] == Held) ==> p in mem && p in m && m[p] == mem[p])
  }

  ghost predicate NewPage(own: Owners, m: Mem, o: Owners, root: nat, w: nat, n: New) {
    var e := PteAt(m, root, w);
    && e.Entry? && e.flags == n.perm && Owns(own, e.ppn, Free) && Owns(o, e.ppn, Leaf(root, w))
    && e.ppn in m && m[e.ppn] == n.fill
  }

  predicate TakenBy(o: Owner, root: nat, lo: nat, k: nat) {
    (o.Node? && o.root == root) || (o.Leaf? && o.root == root && lo <= o.v < lo + k)
  }

  lemma AllocatedNone(mem: Mem, own: Owners, root: nat, lo: nat, plan: Plan)
    requires mem.Keys == own.Keys
    ensures Allocated(mem, own, mem, own, root, lo, 0, plan)
  {
    hide PteAt;
  }

  lemma AllocatedWalk(m0: Mem, o0: Owners, m1: Mem, o1: Owners, m2: Mem, o2: Owners,
                      root: nat, lo: nat, k: nat, plan: Plan)
    requires Allocated(m0, o0, m1, o1, root, lo, k, plan) && Walked(m1, o1, m2, o2, root) && Good(m1, o1)
    requires IsRoot(o0, root) && lo + k <= MAXPAGE
    ensures Allocated(m0, o0, m2, o2, root, lo, k, plan)
  {
    hide PteAt, Good;
    forall w | lo <= w < lo + k && w in plan ensures NewPage(o0, m2, o2, root, w, plan[w]) {
      assert NewPage(o0, m1, o1, root, w, plan[w]);
    }
    forall p | p in o0 ensures o2[p] == o0[p] || (o0[p] == Free && TakenBy(o2[p], root, lo, k)) {
      assert o2[p] == o1[p] || (o1[p] == Free && o2[p].Node? && o2[p].root == root);
    }
  }

  /** Who owns what after one more page was taken from the free list and mapped. */
  lemma MoreOwners(m0: Mem, o0: Owners, m1: Mem, o1: Owners, p: nat, m2: Mem, o2: Owners,
                   root: nat, lo: nat, k: nat, plan: Plan, fill: Page, perm: Flags)
    requires Allocated(m0, o0, m1, o1, root, lo, k, plan) && Owns(o1, p, Free)
    requires Mapped(m1[p := fill], o1[p := Held], m2, o2, root, lo + k, 1, p, perm, true)
    ensures o0.Keys == o2.Keys && Owns(o0, p, Free) && Owns(o2, p, Leaf(root, lo + k)) && p in m2 && m2[p] == fill
    ensures forall r :: IsRoot(o2, r) <==> IsRoot(o0, r)
    ensures forall q :: q in o0 ==> o2[q] == o0[q] || (o0[q] == Free && TakenBy(o2[q], root, lo, k + 1))
    ensures forall q :: q in o0 && (o0[q].Leaf? || o0[q] == Held) ==> q in m0 && q in m2 && m2[q] == m0[q]
    ensures forall q :: q in o1 && o1[q].Leaf? ==> o2[q] == o1[q] && q in m1 && q in m2 && m2[q] == m1[q]
  {
    hide PteAt, NewPage;
    var oa := o1[p := Held];
    assert forall r :: IsRoot(oa, r) <==> IsRoot(o1, r);
    assert Owns(oa, p, Held);
    forall q | q in o0
      ensures o2[q] == o0[q] || (o0[q] == Free && TakenBy(o2[q], root, lo, k + 1))
      ensures o0[q].Leaf? || o0[q] == Held ==> q in m0 && q in m2 && m2[q] == m0[q]
    {
      assert o1[q] == o0[q] || (o0[q] == Free && TakenBy(o1[q], root, lo, k));
      assert q != p ==> o2[q] == oa[q] || (oa[q] == Free && o2[q].Node? && o2[q].root == root);
    }
  }

  /** One more page: taken from the free list, filled, and mapped. */
  lemma AllocatedMore(m0: Mem, o0: Owners, m1: Mem, o1: Owners, p: nat, m2: Mem, o2: Owners,
                      root: nat, lo: nat, k: nat, plan: Plan)
    requires Allocated(m0, o0, m1, o1, root, lo, k, plan) && Good(m1, o1) && Owns(o1, p, Free)
    requires IsRoot(o0, root) && lo + k < MAXPAGE && lo + k in plan
    requires Mapped(m1[p := plan[lo + k].fill], o1[p := Held], m2, o2, root, lo + k, 1, p, plan[lo + k].perm, true)
    ensures Allocated(m0, o0, m2, o2, root, lo, k + 1, plan)
  {
    hide PteAt, Good, TreeOk, TakenBy;
    var v, fill, perm := lo + k, plan[lo + k].fill, plan[lo + k].perm;
    MoreOwners(m0, o0, m1, o1, p, m2, o2, root, lo, k, plan, fill, perm);
    GoodTree(m1, o1);
    forall r: nat, w: nat | IsRoot(o0, r) && w < MAXPAGE
      ensures PteAt(m2, r, w) == if r == root && w == v then Entry(p, perm) else PteAt(m1, r, w)
    {
      assert IsRoot(o1, r) && IsRoot(o1[p := Held], r);
      OutsideView(m1, o1, p, fill, r, w);
    }
    forall w | lo <= w < v + 1 && w in plan ensures NewPage(o0, m2, o2, root, w, plan[w]) {
      if w < v {
        assert NewPage(o0, m1, o1, root, w, plan[w]);
      }
    }
  }

  lemma AllocatedSkip(mem: Mem, own: Owners, m: Mem, o: Owners, root: nat, lo: nat, k: nat, plan: Plan)
    requires Allocated(mem, own, m, o, root, lo, k, plan) && lo + k !in plan
    ensures Allocated(mem, own, m, o, root, lo, k + 1, plan)
  {
    hide PteAt;
  }

  /** Taking all new pages away again leaves at most new tables behind. */
  lemma AllocatedUndone(m0: Mem, o0: Owners, m1: Mem, o1: Owners, m2: Mem, o2: Owners,
                        root: nat, lo: nat, k: nat, plan: Plan)
    requires Allocated(m0, o0, m1, o1, root, lo, k, plan) && Unmapped(m1, o1, m2, o2, root, lo, k, true)
    requires IsRoot(o0, root) && lo + k <= MAXPAGE && forall w :: lo <= w < lo + k ==> PteAt(m0, root, w) == Empty
    requires forall p :: p in o0 && o0[p].Leaf? ==> PteAt(m0, o0[p].root, o0[p].v).Entry?
    ensures Walked(m0, o0, m2, o2, root)
  {
    hide PteAt;
    forall p | p in o0
      ensures o2[p] == o0[p] || (o0[p] == Free && o2[p].Node? && o2[p].root == root)
      ensures o0[p].Leaf? || o2[p].Leaf? ==> o2[p] == o0[p]
      ensures o0[p].Leaf? || o0[p] == Held ==> p in m0 && p in m2 && m2[p] == m0[p] && o2[p] == o0[p]
    {
      assert o1[p] == o0[p] || (o0[p] == Free && TakenBy(o1[p], root, lo, k));
    }
  }

  /** A page was taken, no entry for it could be made, and it was given back. */
  lemma GivenBack(m0: Mem, o0: Owners, p: nat, fill: Page, m: Mem, o: Owners, page: Page,
                  root: nat, v: nat, perm: Flags)
    requires Good(m0, o0) && Owns(o0, p, Free) && Good(m, o)
    requires Mapped(m0[p := fill], o0[p := Held], m, o, root, v, 0, p, perm, true)
    ensures Owns(o, p, Held) && Good(m[p := page], o[p := Free]) && Walked(m0, o0, m[p := page], o[p := Free], root)
  {
    hide PteAt, Good;
    var ma, oa := m0[p := fill], o0[p := Held];
    assert Owns(oa, p, Held) && o[p] == oa[p];
    Reown(m, o, p, page, Free);
    Reown(m0, o0, p, fill, Held);
    var m1, o1 := m[p := page], o[p := Free];
    forall q | q in o0
      ensures o1[q] == o0[q] || (o0[q] == Free && o1[q].Node? && o1[q].root == root)
      ensures o0[q].Leaf? || o1[q].Leaf? ==> o1[q] == o0[q]
      ensures o0[q].Leaf? || o0[q] == Held ==> q in m0 && q in m1 && m1[q] == m0[q] && o1[q] == o0[q]
    {
      assert o[q] == oa[q] || (oa[q] == Free && o[q].Node? && o[q].root == root);
    }
  }

  lemma LeavesHaveEntries(mem: Mem, own: Owners)
    requires Good(mem, own)
    ensures forall p :: p in own && own[p].Leaf? ==> PteAt(mem, own[p].root, own[p].v).Entry?
  {
  }

  /** PGROUNDUP, in pages. */
  function Up(sz: nat): nat { (sz + PGSIZE - 1) / PGSIZE }

  lemma UpBounds(a: nat, sz: nat)
    ensures a * PGSIZE < sz <==> a < Up(sz)
  {
  }

  lemma UpMonotone(a: nat, b: nat)
    requires a <= b
    ensures Up(a) <= Up(b)
  {
  }

  function Zeroed(): (r: Page)
    ensures r.Data? && |r.bytes| == PGSIZE && forall i :: 0 <= i < PGSIZE ==> r.bytes[i] == 0
  {
    Data(seq(PGSIZE, _ => 0))
  }

  class Memory {
    var pages: Mem
    var freelist: Option<nat>
    ghost var own: Owners
    ghost var list: seq<nat>

    ghost predicate Valid()
      reads this
    {
      Good(pages, own) && FreeOk(pages, own, freelist, list)
    }

    /** Before kinit every page is in the kernel's hands. */
    constructor (all: set<nat>)
      ensures Valid() && pages.Keys == all && forall p :: p in all ==> own[p] == Held
    {
      pages := map p | p in all :: Data(seq(PGSIZE, _ => 0));
      own := map p | p in all :: Held;
      freelist, list := None, [];
    }

    method Kalloc() returns (r: Option<nat>)
      requires Valid()
      modifies this
      ensures Valid() && SameLeaves(old(pages), old(own), pages, own)
      ensures r.None? <==> old(list) == []
      ensures r.None? ==> pages == old(pages) && own == old(own) && freelist == old(freelist) && list == old(list)
      ensures r.Some? ==> Owns(old(own), r.value, Free) && own == old(own)[r.value := Held] && IsData(pages, r.value)
      ensures r.Some? ==> pages == old(pages)[r.value := pages[r.value]] && list == old(list)[1..]
    {
      hide Good, SameLeaves;
      r := freelist;
      if r.None? {
        GoodKeys(pages, own);
        SameLeavesRefl(pages, own);
        return;
      }
      var p := r.value;
      ghost var junk := Data(seq(PGSIZE, _ => 5));
      assert list[0] == p;
      Popped(pages, own, freelist, list, junk);
      Reown(pages, own, p, junk, Held);
      freelist := pages[p].next;
      pages := pages[p := Data(seq(PGSIZE, _ => 5))];
      own, list := own[p := Held], list[1..];
    }

    /** Fails with the code's panic for a page outside physical memory. The caller owns the page. */
    method Kfree(p: nat) returns (ok: bool)
      requires FreeOk(pages, own, freelist, list) && pages.Keys == own.Keys && (p in own ==> own[p] != Free)
      modifies this
      ensures ok <==> p in old(pages)
      ensures !ok ==> pages == old(pages) && own == old(own) && list == old(list) && freelist == old(freelist)
      ensures ok ==>
                own == old(own)[p := Free] && pages == old(pages)[p := Run(old(freelist))] &&
                list == [p] + old(list)
      ensures FreeOk(pages, own, freelist, list)
    {
      if p !in pages { return false; }
      Pushed(pages, own, freelist, list, p);
      pages := pages[p := Run(freelist)];
      freelist := Some(p);
      own, list := own[p := Free], [p] + list;
      ok := true;
    }

    /** kinit's freerange: every page of the range goes on the free list. */
    method Freerange(lo: nat, hi: nat)
      requires Valid() && lo <= hi && forall p :: lo <= p < hi ==> Owns(own, p, Held)
      modifies this
      ensures Valid() && own.Keys == old(own).Keys
      ensures forall p :: p in own ==> own[p] == if lo <= p < hi then Free else old(own)[p]
    {
      hide Good, FreeOk, SameLeaves;
      var p := lo;
      while p < hi
        invariant lo <= p <= hi && Valid() && own.Keys == old(own).Keys
        invariant forall q :: q in own ==> own[q] == if lo <= q < p then Free else old(own)[q]
      {
        GoodKeys(pages, own);
        assert Owns(old(own), p, Held);
        Reown(pages, own, p, Run(freelist), Free);
        var ok := Kfree(p);
        p := p + 1;
      }
    }

    /** One level of walk: the table below entry `i` of the table at `p`. */
    method Descend(p: nat, i: nat, alloc: bool) returns (c: Option<nat>)
      requires Valid() && p in own && CanGrow(own[p], i)
      modifies this
      ensures Valid() && Walked(old(pages), old(own), pages, own, old(own)[p].root) &&
              LinksKept(old(pages), pages, old(own))
      ensures p in own && own[p] == old(own)[p]
      ensures c.Some? ==> Child(pages, p, i) == c && Owns(own, c.value, Below(own[p], p, i))
      ensures !alloc ==> c == Child(old(pages), p, i)
      ensures !alloc || old(Child(pages, p, i)).Some? ==>
              pages == old(pages) && own == old(own) && list == old(list) && freelist == old(freelist)
      ensures c.None? && alloc ==> list == [] == old(list)
      ensures |old(list)| - 1 <= |list|
    {
      hide Good, FreeOk, SameLeaves, TreeOk, Grows, HeldKept, LinksKept;
      ghost var root := own[p].root;
      GoodKeys(pages, own);
      WalkedRefl(pages, own, root);
      LinksRefl(pages, own);
      TableHere(pages, own, p);
      c := Child(pages, p, i);
      if c.Some? {
        GoodTree(pages, own);
        ChildOwner(pages, own, p, i);
        return;
      }
      if !alloc { return; }
      c := Kalloc();
      if c.None? { return; }
      ghost var m, o := pages, own;
      var t := c.value;
      TableHere(pages, own, p);
      NoChildYet(old(pages), old(own), pages, p, i, t);
      Grow(pages, own, p, i, t);
      NewNode(old(pages), old(own), p, i, t, m[t]);
      FreeElsewhere(pages, own, freelist, list, t, EmptyTable(), Below(own[p], p, i));
      pages := pages[t := EmptyTable()];
      own := own[t := Below(own[p], p, i)];
      FreeElsewhere(pages, own, freelist, list, p, Table(pages[p].ptes[i := Entry(t, NONE)]), own[p]);
      assert own[p := own[p]] == own;
      pages := pages[p := Table(pages[p].ptes[i := Entry(t, NONE)])];
      assert pages == WithTable(m, p, i, t) && m == old(pages)[t := m[t]];
      assert own == old(own)[t := Below(old(own)[p], p, i)];
      WithTableIn(m, p, i, t, p, i);
    }

    /** The level-0 table of page `v`; missing tables are created when `alloc` is set. It fails
        only when not asked to create, or when memory has run out. */
    method Walk(root: nat, v: nat, alloc: bool) returns (t: Option<nat>)
      requires Valid() && IsRoot(own, root) && v < MAXPAGE
      modifies this
      ensures Valid() && Walked(old(pages), old(own), pages, own, root) && IsRoot(own, root)
      ensures t.Some? ==> HasSlot(pages, own, root, v) && LeafTable(pages, root, v) == t
      ensures !alloc ==> t == LeafTable(old(pages), root, v)
      ensures !alloc ==> pages == old(pages) && own == old(own) && list == old(list) && freelist == old(freelist)
      ensures t.None? && alloc ==> |old(list)| < 2
      ensures |old(list)| - 2 <= |list|
    {
      hide Good, FreeOk, SameLeaves, Grows, HeldKept, LinksKept, Px1, Px2, Child, Walked;
      Px2Bound(v);
      GoodKeys(pages, own);
      WalkedRefl(pages, own, root);
      var p, level := root, 2;
      while level > 0
        invariant 0 <= level <= 2 && Valid() && IsRoot(own, root) && Walked(old(pages), old(own), pages, own, root)
        invariant level == 2 ==> p == root
        invariant level == 1 ==> Child(pages, root, Px2(v)) == Some(p) && Owns(own, p, Node(root, Mid(Px2(v))))
        invariant level == 0 ==> LeafTable(pages, root, v) == Some(p) && p in own && own[p].Node?
        invariant !alloc ==> pages == old(pages) && own == old(own) && list == old(list) && freelist == old(freelist)
        invariant |old(list)| - (2 - level) <= |list|
      {
        ghost var m, o := pages, own;
        var i := if level == 2 then Px2(v) else Px1(v);
        t := Descend(p, i, alloc);
        WalkedTrans(old(pages), old(own), m, o, pages, own, root);
        RootKept(m, o, pages, own, root);
        if t.None? { return; }
        if level == 1 {
          LinkKept(m, pages, o, root, Px2(v));
        }
        p := t.value;
        level := level - 1;
      }
      TableHere(pages, own, p);
      t := Some(p);
    }

    /** Store the entry of page `v`, whose table is `t`. */
    method StorePte(root: nat, v: nat, t: nat, e: Pte)
      requires FreeOk(pages, own, freelist, list) && HasSlot(pages, own, root, v) &&
               LeafTable(pages, root, v) == Some(t)
      requires t in own && own[t] != Free
      modifies this`pages
      ensures pages == SetAt(old(pages), root, v, e) && FreeOk(pages, own, freelist, list)
    {
      hide FreeOk;
      FreeElsewhere(pages, own, freelist, list, t, Table(pages[t].ptes[Px0(v) := e]), own[t]);
      assert own[t := own[t]] == own;
      pages := pages[t := Table(pages[t].ptes[Px0(v) := e])];
    }

    /** Map `n` pages. The first `done` of them are mapped when it returns, all of them unless
        memory for tables ran out; mapping over an existing entry is refused by the code. With
        `give` the pages become memory of this page table. */
    method Mappages(root: nat, v: nat, n: nat, ppn: nat, perm: Flags, ghost give: bool) returns (done: nat)
      requires Valid() && IsRoot(own, root) && 0 < n && v + n <= MAXPAGE
      requires forall w :: v <= w < v + n ==> PteAt(pages, root, w) == Empty
      requires if give then forall p :: ppn <= p < ppn + n ==> Owns(own, p, Held) && IsData(pages, p) else !perm.u
      modifies this
      ensures Valid() && done <= n && Mapped(old(pages), old(own), pages, own, root, v, done, ppn, perm, give)
      ensures done < n ==> |old(list)| < 2 * (done + 1)
      ensures |old(list)| - 2 * done <= |list| || done < n
    {
      hide Good, FreeOk, SameLeaves, Walked, PteAt, Mapped, SetAt, HasSlot;
      GoodKeys(pages, own);
      WalkedRefl(pages, own, root);
      WalkedIsMapped(pages, own, pages, own, root, v, ppn, perm, give);
      done := 0;
      while true
        invariant 0 <= done < n && Valid() && IsRoot(own, root)
        invariant Mapped(old(pages), old(own), pages, own, root, v, done, ppn, perm, give)
        invariant |old(list)| - 2 * done <= |list|
        decreases n - done
      {
        ghost var m, o := pages, own;
        var t := Walk(root, v + done, true);
        MappedWalk(old(pages), old(own), m, o, pages, own, root, v, done, ppn, perm, give);
        if t.None? { return; }
        MappedOne(old(pages), old(own), pages, own, root, v, done, ppn, perm, give);
        SetAtElsewhere(pages, own, root, v + done, Entry(ppn + done, perm));
        StorePte(root, v + done, t.value, Entry(ppn + done, perm));
        if give {
          GiveOwner(pages, own, freelist, list, ppn + done, Leaf(root, v + done));
          own := own[ppn + done := Leaf(root, v + done)];
        }
        MappedRoot(old(pages), old(own), pages, own, root, v, done + 1, ppn, perm, give);
        done := done + 1;
        if done == n { break; }
      }
    }

    /** Remove `n` mappings, and free the memory if asked to: then all of it is owned here. */
    method Uvmunmap(root: nat, v: nat, n: nat, free: bool)
      requires Valid() && IsRoot(own, root) && v + n <= MAXPAGE
      requires free ==> forall w :: v <= w < v + n && PteAt(pages, root, w).Entry? ==>
                          Owns(own, PteAt(pages, root, w).ppn, Leaf(root, w))
      modifies this
      ensures Valid() && Unmapped(old(pages), old(own), pages, own, root, v, n, free)
    {
      hide Good, FreeOk, PteAt, Unmapped, SetAt, HasSlot, SameLeaves, Walked;
      ghost var m0, o0 := pages, own;
      GoodKeys(pages, own);
      UnmappedNone(pages, own, root, v, free);
      for k := 0 to n
        invariant Valid() && IsRoot(own, root) && Unmapped(m0, o0, pages, own, root, v, k, free)
      {
        UnmappedRest(m0, o0, pages, own, root, v, k, free);
        var t := Walk(root, v + k, false);
        EntryOf(pages, root, v + k);
        if t.None? || PteIn(pages, t.value, Px0(v + k)) == Empty {
          UnmappedSkip(m0, o0, pages, own, root, v, k, free);
        } else {
          var p := PteIn(pages, t.value, Px0(v + k)).ppn;
          TableIsNode(pages, own, root, v + k);
          if free {
            UnmappedOne(m0, o0, pages, own, root, v, k, free, p, Run(freelist));
            GoodKeys(pages, own);
            var ok := Kfree(p);
          } else if Owns(own, p, Leaf(root, v + k)) {
            GoodKeys(pages, own);
            UnmappedOne(m0, o0, pages, own, root, v, k, free, p, pages[p]);
            assert pages[p := pages[p]] == pages;
            LeafToHeld(pages, own, freelist, list, p);
            own := own[p := Held];
          } else {
            UnmappedForeign(m0, o0, pages, own, root, v, k);
          }
          StorePte(root, v + k, t.value, Empty);
        }
        UnmappedRoot(m0, o0, pages, own, root, v, k + 1, free);
      }
    }

    /** kalloc, then the page filled by memset or memmove. */
    method KallocFilled(fill: Page) returns (r: Option<nat>)
      requires Valid() && fill.Data?
      modifies this
      ensures Valid()
      ensures r.None? ==> pages == old(pages) && own == old(own) && list == old(list) == [] && freelist == old(freelist)
      ensures r.Some? ==>
                Owns(old(own), r.value, Free) && own == old(own)[r.value := Held] &&
                pages == old(pages)[r.value := fill]
      ensures |old(list)| - 1 <= |list|
    {
      hide Good, FreeOk, SameLeaves;
      r := Kalloc();
      if r.None? { return; }
      var p := r.value;
      Reown(pages, own, p, fill, Held);
      FreeElsewhere(pages, own, freelist, list, p, fill, Held);
      assert own[p := Held] == own;
      pages := pages[p := fill];
    }

    /** Add one filled page of user memory at page `v`, or change nothing but tables. With three free
        pages, for it and two tables, it succeeds. */
    method AddPage(root: nat, v: nat, fill: Page, perm: Flags) returns (r: Option<nat>)
      requires Valid() && IsRoot(own, root) && v < MAXPAGE && PteAt(pages, root, v) == Empty && IsFull(fill)
      modifies this
      ensures Valid() && IsRoot(own, root)
      ensures r.None? ==> Walked(old(pages), old(own), pages, own, root)
      ensures r.Some? ==> Owns(old(own), r.value, Free)
      ensures r.Some? ==>
                Mapped(old(pages)[r.value := fill], old(own)[r.value := Held], pages, own, root, v, 1, r.value,
                       perm, true)
      ensures r.Some? ==> |old(list)| - 3 <= |list|
      ensures r.None? ==> |old(list)| < 3
    {
      hide Good, FreeOk, SameLeaves, PteAt, Mapped, Walked;
      ghost var m0, o0 := pages, own;
      GoodKeys(pages, own);
      WalkedRefl(pages, own, root);
      r := KallocFilled(fill);
      if r.None? { return; }
      var p := r.value;
      ghost var m1, o1 := pages, own;
      StillEmpty(m0, o0, p, fill, root, v);
      var done := Mappages(root, v, 1, p, perm, true);
      MappedRoot(m1, o1, pages, own, root, v, done, p, perm, true);
      if done == 0 {
        GoodKeys(pages, own);
        GivenBack(m0, o0, p, fill, pages, own, Run(freelist), root, v, perm);
        var ok := Kfree(p);
        RootKept(m0, o0, pages, own, root);
        r := None;
      }
    }

    method Uvmdealloc(root: nat, oldsz: nat, newsz: nat) returns (r: nat)
      requires Valid() && IsRoot(own, root) && oldsz <= MAXPAGE * PGSIZE
      requires forall w :: Up(newsz) <= w < Up(oldsz) && PteAt(pages, root, w).Entry? ==>
                 Owns(own, PteAt(pages, root, w).ppn, Leaf(root, w))
      modifies this
      ensures Valid() && r == if newsz >= oldsz then oldsz else newsz
      ensures Up(newsz) >= Up(oldsz) ==> pages == old(pages) && own == old(own)
      ensures Up(newsz) < Up(oldsz) ==>
                Unmapped(old(pages), old(own), pages, own, root, Up(newsz), Up(oldsz) - Up(newsz), true)
    {
      hide Good, FreeOk, PteAt, Unmapped;
      if newsz >= oldsz {
        UpMonotone(oldsz, newsz);
        return oldsz;
      }
      if Up(newsz) < Up(oldsz) {
        Uvmunmap(root, Up(newsz), Up(oldsz) - Up(newsz), true);
      }
      r := newsz;
    }

    /** Grow user memory from `oldsz` to `newsz` bytes. When memory runs out, every page taken
        for the process is returned: no map changes and at most page-table pages were added. It takes
        fewer than three free pages for each new one to fail. */
    method Uvmalloc(root: nat, oldsz: nat, newsz: nat, write: bool, exec: bool) returns (r: Option<nat>)
      requires Valid() && IsRoot(own, root) && newsz <= MAXPAGE * PGSIZE
      requires forall w :: Up(oldsz) <= w < Up(newsz) ==> PteAt(pages, root, w) == Empty
      modifies this
      ensures Valid()
      ensures newsz < oldsz ==> r == Some(oldsz) && pages == old(pages) && own == old(own)
      ensures newsz >= oldsz && r.Some? ==> r == Some(newsz) && Up(oldsz) <= Up(newsz)
      ensures newsz >= oldsz && r.Some? ==>
                Allocated(old(pages), old(own), pages, own, root, Up(oldsz), Up(newsz) - Up(oldsz),
                          AllZero(Up(oldsz), Up(newsz), Flags(true, write, exec, true)))
      ensures newsz >= oldsz && r.Some? ==>
                forall w :: Up(oldsz) <= w < Up(newsz) ==> ZeroedAt(pages, root, w, Flags(true, write, exec, true))
      ensures r.None? ==> Walked(old(pages), old(own), pages, own, root)
      ensures r.None? ==> |old(list)| < 3 * (Up(newsz) - Up(oldsz))
    {
      hide Good, FreeOk, PteAt, Unmapped, Allocated, Mapped, Walked, SameLeaves, Zeroed;
      if newsz < oldsz { return Some(oldsz); }
      UpMonotone(oldsz, newsz);
      var perm := Flags(true, write, exec, true);
      ghost var m0, o0, lo := pages, own, Up(oldsz);
      ghost var plan := AllZero(lo, Up(newsz), perm);
      GoodKeys(pages, own);
      LeavesHaveEntries(pages, own);
      AllocatedNone(pages, own, root, lo, plan);
      var a := Up(oldsz) * PGSIZE;
      ghost var k := 0;
      UpBounds(lo, newsz);
      while a < newsz
        invariant Valid() && IsRoot(own, root) && a == (lo + k) * PGSIZE && 0 <= k && lo + k <= Up(newsz)
        invariant Allocated(m0, o0, pages, own, root, lo, k, plan)
        invariant |old(list)| - 3 * k <= |list|
        decreases newsz - a
      {
        UpBounds(lo + k, newsz);
        UpBounds(lo + k + 1, newsz);
        AllocatedRest(m0, o0, pages, own, root, lo, k, plan);
        ghost var m1, o1 := pages, own;
        var p := AddPage(root, a / PGSIZE, Zeroed(), perm);
        if p.None? {
          AllocatedWalk(m0, o0, m1, o1, pages, own, root, lo, k, plan);
          AllocatedOwned(m0, o0, pages, own, root, lo, k, plan);
          ghost var m2, o2 := pages, own;
          GoodKeys(pages, own);
          WholePages(lo + k, lo);
          var back := Uvmdealloc(root, a, Up(oldsz) * PGSIZE);
          if k == 0 {
            UnmappedNone(m2, o2, root, lo, true);
          }
          AllocatedUndone(m0, o0, m2, o2, pages, own, root, lo, k, plan);
          return None;
        }
        AllocatedMore(m0, o0, m1, o1, p.value, pages, own, root, lo, k, plan);
        a := a + PGSIZE;
        k := k + 1;
      }
      UpBounds(lo + k, newsz);
      forall w | lo <= w < Up(newsz)
        ensures ZeroedAt(pages, root, w, perm)
      {
        PlanIsZeroed(m0, o0, pages, own, root, lo, Up(newsz), perm, w);
      }
      r := Some(newsz);
    }

    /** Copy the memory of `src` below `sz` to `dst`, page by page with the same permissions;
        lazily unallocated pages stay so. On failure `dst` is as before but for tables. */
    method Uvmcopy(src: nat, dst: nat, sz: nat) returns (ok: bool)
      requires Valid() && IsRoot(own, src) && IsRoot(own, dst) && src != dst && sz <= MAXPAGE * PGSIZE
      requires forall w :: 0 <= w < Up(sz) ==> PteAt(pages, dst, w) == Empty
      requires forall w :: 0 <= w < Up(sz) && PteAt(pages, src, w).Entry? ==>
                 Owns(own, PteAt(pages, src, w).ppn, Leaf(src, w))
      modifies this
      ensures Valid()
      ensures ok ==> Allocated(old(pages), old(own), pages, own, dst, 0, Up(sz), CopyPlan(old(pages), src, Up(sz)))
      ensures ok ==> forall w :: 0 <= w < Up(sz) ==> CopiedAt(old(pages), pages, src, dst, w)
      ensures !ok ==> Walked(old(pages), old(own), pages, own, dst)
      ensures !ok ==> |old(list)| < 3 * Up(sz)
    {
      hide Good, FreeOk, PteAt, Unmapped, Allocated, Mapped, Walked, SameLeaves, LeafTable, HasSlot;
      ghost var m0, o0, k := pages, own, 0;
      ghost var plan := CopyPlan(pages, src, Up(sz));
      GoodKeys(pages, own);
      LeavesHaveEntries(pages, own);
      AllocatedNone(pages, own, dst, 0, plan);
      var i := 0;
      while i < sz
        invariant Valid() && IsRoot(own, dst) && i == k * PGSIZE && 0 <= k <= Up(sz)
        invariant Allocated(m0, o0, pages, own, dst, 0, k, plan)
        invariant |old(list)| - 3 * k <= |list|
        decreases sz - i
      {
        UpBounds(k, sz);
        AllocatedRest(m0, o0, pages, own, dst, 0, k, plan);
        SourceKept(m0, o0, pages, own, src, dst, k, plan);
        var v := i / PGSIZE;
        var t := Walk(src, v, false);
        EntryOf(pages, src, v);
        if t.None? || PteIn(pages, t.value, Px0(v)) == Empty {
          AllocatedSkip(m0, o0, pages, own, dst, 0, k, plan);
        } else {
          var e := PteIn(pages, t.value, Px0(v));
          OwnedIsFull(m0, o0, e.ppn);
          ghost var m1, o1 := pages, own;
          var p := AddPage(dst, v, pages[e.ppn], e.flags);
          if p.None? {
            AllocatedWalk(m0, o0, m1, o1, pages, own, dst, 0, k, plan);
            AllocatedOwned(m0, o0, pages, own, dst, 0, k, plan);
            ghost var m2, o2 := pages, own;
            Uvmunmap(dst, 0, v, true);
            AllocatedUndone(m0, o0, m2, o2, pages, own, dst, 0, k, plan);
            return false;
          }
          AllocatedMore(m0, o0, m1, o1, p.value, pages, own, dst, 0, k, plan);
        }
        i := i + PGSIZE;
        k := k + 1;
      }
      UpBounds(k, sz);
      forall w | 0 <= w < Up(sz)
        ensures CopiedAt(m0, pages, src, dst, w)
      {
        PlanIsCopied(m0, o0, pages, own, src, dst, Up(sz), w);
      }
      ok := true;
    }

    /** A new, empty page table. */
    method Uvmcreate() returns (r: Option<nat>)
      requires Valid()
      modifies this
      ensures Valid()
      ensures r.None? ==> pages == old(pages) && own == old(own)
      ensures r.Some? ==> Owns(old(own), r.value, Free) && own == old(own)[r.value := Node(r.value, Root)]
      ensures r.Some? ==> forall w :: 0 <= w < MAXPAGE ==> PteAt(pages, r.value, w) == Empty
      ensures LeavesKept(old(pages), old(own), pages, own)
    {
      hide Good, FreeOk, SameLeaves, PteAt;
      GoodKeys(pages, own);
      r := Kalloc();
      if r.None? { return; }
      var p := r.value;
      KallocKeeps(old(pages), old(own), pages, own);
      NewRoot(pages, own, p);
      FreeElsewhere(pages, own, freelist, list, p, EmptyTable(), Node(p, Root));
      ghost var m, o := pages, own;
      pages := pages[p := EmptyTable()];
      own := own[p := Node(p, Root)];
    }

    /** Free the tables of the subtree at `p`, none of which maps a page any more: the code's
        panic does not happen, and exactly these pages go to the free list. */
    method Freewalk(p: nat) returns (ok: bool)
      requires FreeOk(pages, own, freelist, list) && pages.Keys == own.Keys
      requires p in own && own[p].Node? && SubtreeOk(pages, own, p)
      modifies this
      ensures ok && FreeOk(pages, own, freelist, list) && pages.Keys == own.Keys == old(own).Keys
      ensures FreedUnder(old(pages), old(own), pages, own, old(own)[p])
      decreases Height(own[p])
    {
      hide FreeOk, SubtreeOk, PartlyFreed, FreedUnder;
      ghost var m0, o0, po := pages, own, own[p];
      NothingFreed(m0, o0, p);
      for i := 0 to ENTRIES
        invariant FreeOk(pages, own, freelist, list) && pages.Keys == own.Keys == o0.Keys
        invariant PartlyFreed(m0, o0, pages, own, p, i)
      {
        PartTable(m0, o0, pages, own, p, i);
        var e := PteIn(pages, p, i);
        if e.Entry? && !e.flags.r && !e.flags.w && !e.flags.x {
          ChildReady(m0, o0, pages, own, p, i);
          ghost var m1, o1 := pages, own;
          ok := Freewalk(e.ppn);
          ChildFreed(m0, o0, m1, o1, pages, own, p, i);
          FreeElsewhere(pages, own, freelist, list, p, Table(pages[p].ptes[i := Empty]), own[p]);
          assert own[p := own[p]] == own;
          pages := pages[p := Table(pages[p].ptes[i := Empty])];
        } else if e.Entry? {
          EntryIsTable(m0, o0, p, i);
          return false;
        } else {
          NoChild(m0, o0, pages, own, p, i);
        }
      }
      AllFreed(m0, o0, pages, own, p, Run(freelist));
      ok := Kfree(p);
    }

    /** Free user memory below `sz` and then the page table. When nothing above `sz` is mapped,
        every page the table had, memory or node, is back on the free list. */
    method Uvmfree(root: nat, sz: nat) returns (ok: bool)
      requires Valid() && IsRoot(own, root) && sz <= MAXPAGE * PGSIZE
      requires forall w :: 0 <= w < Up(sz) && PteAt(pages, root, w).Entry? ==>
                 Owns(own, PteAt(pages, root, w).ppn, Leaf(root, w))
      requires forall w :: Up(sz) <= w < MAXPAGE ==> PteAt(pages, root, w) == Empty
      modifies this
      ensures ok && Valid() && own.Keys == old(own).Keys
      ensures forall q :: q in own ==> own[q] == if BelongsTo(old(own)[q], root) then Free else old(own)[q]
      ensures forall r: nat, w: nat :: IsRoot(own, r) && w < MAXPAGE ==> PteAt(pages, r, w) == old(PteAt(pages, r, w))
      ensures forall q :: q in own && own[q].Leaf? ==> q in pages && q in old(pages) && pages[q] == old(pages)[q]
    {
      hide Good, FreeOk, PteAt, SubtreeOk, FreedUnder;
      ghost var m0, o0 := pages, own;
      GoodKeys(pages, own);
      if sz > 0 {
        Uvmunmap(root, 0, Up(sz), true);
      } else {
        UnmappedNone(pages, own, root, 0, true);
      }
      LeavesHaveEntries(m0, o0);
      RootsOwnLeaves(m0, o0);
      UnmapsAll(m0, o0, pages, own, root, Up(sz));
      ghost var m1, o1 := pages, own;
      GoodKeys(pages, own);
      SubtreeReady(pages, own, root);
      ok := Freewalk(root);
      TreeGone(m1, o1, pages, own, root);
    }
  }

  /** Memory or node of this page table. */
  predicate BelongsTo(o: Owner, root: nat) { (o.Node? || o.Leaf?) && o.root == root }

  lemma RootsOwnLeaves(mem: Mem, own: Owners)
    requires Good(mem, own)
    ensures forall p :: p in own && own[p].Leaf? ==> IsRoot(own, own[p].root) && own[p].v < MAXPAGE
  {
  }

  /** Once everything below `n` is unmapped and nothing is above, the table owns no memory. */
  lemma UnmapsAll(m0: Mem, o0: Owners, m: Mem, o: Owners, root: nat, n: nat)
    requires Unmapped(m0, o0, m, o, root, 0, n, true) && IsRoot(o0, root)
    requires forall w :: n <= w < MAXPAGE ==> PteAt(m0, root, w) == Empty
    requires forall p :: p in o0 && o0[p].Leaf? ==>
               IsRoot(o0, o0[p].root) && o0[p].v < MAXPAGE && PteAt(m0, o0[p].root, o0[p].v).Entry?
    ensures IsRoot(o, root) && forall w :: 0 <= w < MAXPAGE ==> PteAt(m, root, w) == Empty
    ensures forall q :: q in o ==> o[q] == if o0[q].Leaf? && o0[q].root == root then Free else o0[q]
  {
    hide PteAt;
  }

  lemma NodesUnique(mem: Mem, own: Owners, q: nat, r: nat)
    requires TreeOk(mem, own) && q in own && r in own && own[q].Node? && own[q] == own[r]
    ensures q == r
  {
    assert NodeOk(mem, own, q) && NodeOk(mem, own, r);
  }

  lemma SubtreeReady(mem: Mem, own: Owners, root: nat)
    requires Good(mem, own) && IsRoot(own, root) && forall w :: 0 <= w < MAXPAGE ==> PteAt(mem, root, w) == Empty
    ensures SubtreeOk(mem, own, root)
  {
    GoodTree(mem, own);
    hide PteAt, TreeOk;
    forall q | q in own && InSub(own[q], own[root])
      ensures IsTable(mem, q) && EntriesOk(mem, own, q, own[q]) && ParentOk(mem, own, q, own[q])
      ensures own[q].spot.Low? ==> forall k :: PteIn(mem, q, k) == Empty
    {
      NodeAt(mem, own, q);
      if own[q].spot.Low? {
        forall k: nat ensures PteIn(mem, q, k) == Empty {
          if k < ENTRIES {
            var w := PathPage(own[q].spot.i, own[q].spot.j, k);
            LowIsReached(mem, own, q, k);
            assert PteAt(mem, root, w) == Empty;
          }
        }
      }
    }
    forall q, r | q in own && r in own && InSub(own[q], own[root]) && own[q] == own[r] ensures q == r {
      NodesUnique(mem, own, q, r);
    }
  }

  lemma NodeAt(mem: Mem, own: Owners, q: nat)
    requires TreeOk(mem, own) && q in own && own[q].Node?
    ensures NodeOk(mem, own, q)
  {
  }

  function PathPage(i: nat, j: nat, k: nat): nat { (i * 512 + j) * 512 + k }

  lemma PathIndices(i: nat, j: nat, k: nat)
    requires i < TOP && j < ENTRIES && k < ENTRIES
    ensures var w := PathPage(i, j, k); w < MAXPAGE && Px2(w) == i && Px1(w) == j && Px0(w) == k
  {
  }

  /** Every entry of a level-0 table is the entry of a page. */
  lemma LowIsReached(mem: Mem, own: Owners, q: nat, k: nat)
    requires TreeOk(mem, own) && q in own && own[q].Node? && own[q].spot.Low? && k < ENTRIES
    ensures own[q].spot.i < TOP && own[q].spot.j < ENTRIES
    ensures var w := PathPage(own[q].spot.i, own[q].spot.j, k);
            w < MAXPAGE && PteAt(mem, own[q].root, w) == PteIn(mem, q, k)
  {
    NodeAt(mem, own, q);
    NodeAt(mem, own, own[q].spot.mid);
    hide TreeOk, Px0, Px1, Px2, PathPage;
    PathIndices(own[q].spot.i, own[q].spot.j, k);
  }

  /** After the tree of `root` is freed the rest of memory is as good as before. */
  lemma TreeGone(mem: Mem, own: Owners, m: Mem, o: Owners, root: nat)
    requires Good(mem, own) && IsRoot(own, root) && FreedUnder(mem, own, m, o, own[root]) && m.Keys == o.Keys
    requires forall q :: q in own && own[q].Leaf? ==> own[q].root != root
    ensures Good(m, o)
    ensures forall q :: q in own ==> o[q] == if own[q].Node? && own[q].root == root then Free else own[q]
    ensures forall r: nat, w: nat :: IsRoot(o, r) && w < MAXPAGE ==> PteAt(m, r, w) == PteAt(mem, r, w)
    ensures forall q :: q in own && own[q].Leaf? ==> q in mem && q in m && m[q] == mem[q]
  {
    hide PteAt, TreeOk, FreedUnder;
    assert TreeOk(m, o) by { TreeGoneTree(mem, own, m, o, root); }
    forall r: nat, w: nat | IsRoot(o, r) && w < MAXPAGE ensures PteAt(m, r, w) == PteAt(mem, r, w) && IsRoot(own, r) {
      TreeGoneView(mem, own, m, o, root, r, w);
    }
    TreeGoneOwners(mem, own, m, o, root);
    forall p | p in o && o[p].Leaf?
      ensures IsRoot(o, o[p].root) && o[p].v < MAXPAGE && IsData(m, p)
      ensures PteAt(m, o[p].root, o[p].v).Entry? && PteAt(m, o[p].root, o[p].v).ppn == p
    {
      assert own[p] == o[p];
    }
    forall r: nat, w: nat | IsRoot(o, r) && w < MAXPAGE ensures UserPage(m, o, r, w) {
      assert UserPage(mem, own, r, w);
    }
  }

  lemma TreeGoneOwners(mem: Mem, own: Owners, m: Mem, o: Owners, root: nat)
    requires IsRoot(own, root) && FreedUnder(mem, own, m, o, own[root])
    ensures own.Keys == o.Keys
    ensures forall q :: q in own ==> o[q] == if own[q].Node? && own[q].root == root then Free else own[q]
    ensures forall q :: q in own && own[q].Leaf? ==> q in mem && q in m && m[q] == mem[q]
  {
  }

  lemma TreeGoneTree(mem: Mem, own: Owners, m: Mem, o: Owners, root: nat)
    requires TreeOk(mem, own) && IsRoot(own, root) && FreedUnder(mem, own, m, o, own[root])
    ensures TreeOk(m, o)
  {
    hide FreedUnder;
    TreeGoneOwners(mem, own, m, o, root);
    forall q | q in o ensures NodeOk(m, o, q) {
      assert NodeOk(mem, own, q);
      if o[q].Node? {
        OtherNode(mem, own, m, o, root, q);
      }
    }
  }

  lemma TreeGoneView(mem: Mem, own: Owners, m: Mem, o: Owners, root: nat, r: nat, w: nat)
    requires TreeOk(mem, own) && IsRoot(own, root) && FreedUnder(mem, own, m, o, own[root]) && IsRoot(o, r) &&
             w < MAXPAGE
    ensures IsRoot(own, r) && PteAt(m, r, w) == PteAt(mem, r, w)
  {
    hide TreeOk, Px0, Px1, Px2;
    assert own[root] == Node(root, Root);
    assert o[r] == own[r];
    LeafTableOwner(mem, own, r, w);
  }

  lemma OtherNode(mem: Mem, own: Owners, m: Mem, o: Owners, root: nat, q: nat)
    requires IsRoot(own, root) && FreedUnder(mem, own, m, o, own[root])
    requires q in own && o[q].Node? && NodeOk(mem, own, q)
    ensures NodeOk(m, o, q)
  {
    assert o[q] == own[q] && own[q].root != root;
    assert forall k :: PteIn(m, q, k) == PteIn(mem, q, k);
    match own[q].spot
    case Root =>
    case Mid(i) => assert PteIn(m, own[q].root, i) == PteIn(mem, own[q].root, i);
    case Low(_, j, mid) => assert PteIn(m, mid, j) == PteIn(mem, mid, j);
  }

  // ---- Freeing a tree of tables ----

  ghost function Height(o: Owner): nat
    requires o.Node?
  {
    match o.spot case Root => 2 case Mid(_) => 1 case Low(_, _, _) => 0
  }

  /** The node with owner `o` is in the subtree of the node with owner `po`. */
  ghost predicate InSub(o: Owner, po: Owner)
    requires po.Node?
  {
    o.Node? && o.root == po.root &&
    match po.spot
    case Root => true
    case Mid(i) => o.spot == Mid(i) || (o.spot.Low? && o.spot.i == i)
    case Low(_, _, _) => o == po
  }

  /** The entry of the subtree's top under which the node is. */
  ghost function Branch(o: Owner, po: Owner): nat
    requires o.Node? && po.Node?
  {
    if po.spot.Root? then (if o.spot.Root? then 0 else o.spot.i) else if o.spot.Low? then o.spot.j else 0
  }

  /** The nodes of the subtree are linked as a tree, one page per place, and map nothing. */
  ghost predicate SubtreeOk(mem: Mem, own: Owners, p: nat)
    requires p in own && own[p].Node?
  {
    && (own[p].spot.Root? ==> p == own[p].root)
    && (forall q :: q in own && InSub(own[q], own[p]) ==>
          IsTable(mem, q) && EntriesOk(mem, own, q, own[q]) &&
          (own[q].spot.Low? ==> forall k :: PteIn(mem, q, k) == Empty))
    && (forall q :: q in own && q != p && InSub(own[q], own[p]) ==> ParentOk(mem, own, q, own[q]))
    && (forall q, r :: q in own && r in own && InSub(own[q], own[p]) && own[q] == own[r] ==> q == r)
  }

  ghost predicate FreedUnder(mem: Mem, own: Owners, m: Mem, o: Owners, po: Owner)
    requires po.Node?
  {
    && own.Keys == o.Keys
    && (forall q :: q in own ==> o[q] == if InSub(own[q], po) then Free else own[q])
    && (forall q :: q in own && !InSub(own[q], po) ==> q in mem && q in m && m[q] == mem[q])
  }

  /** The branches below `i` of the subtree at `p` are freed and their entries cleared. */
  ghost predicate PartlyFreed(mem: Mem, own: Owners, m: Mem, o: Owners, p: nat, i: nat) {
    && own.Keys == o.Keys && p in own && own[p].Node? && IsTable(mem, p) && IsTable(m, p)
    && (forall q :: q in own ==>
         o[q] == if q != p && InSub(own[q], own[p]) && Branch(own[q], own[p]) < i then Free else own[q])
    && (forall q :: q in own && q != p && !(InSub(own[q], own[p]) && Branch(own[q], own[p]) < i) ==>
          q in mem && q in m && m[q] == mem[q])
    && (forall k: nat :: PteIn(m, p, k) == if k < i then Empty else PteIn(mem, p, k))
  }

  lemma NothingFreed(mem: Mem, own: Owners, p: nat)
    requires p in own && own[p].Node? && SubtreeOk(mem, own, p) && mem.Keys == own.Keys
    ensures PartlyFreed(mem, own, mem, own, p, 0)
  {
    assert InSub(own[p], own[p]);
  }

  lemma PartTable(mem: Mem, own: Owners, m: Mem, o: Owners, p: nat, i: nat)
    requires PartlyFreed(mem, own, m, o, p, i)
    ensures IsTable(m, p) && p in own && PteIn(m, p, i) == PteIn(mem, p, i) && own[p].Node? && p in o && o[p] == own[p]
  {
  }

  lemma EntryIsTable(mem: Mem, own: Owners, p: nat, i: nat)
    requires p in own && own[p].Node? && SubtreeOk(mem, own, p) && i < ENTRIES && PteIn(mem, p, i).Entry?
    ensures PteIn(mem, p, i).flags == NONE && !own[p].spot.Low?
    ensures Owns(own, PteIn(mem, p, i).ppn, Below(own[p], p, i))
  {
    assert InSub(own[p], own[p]);
  }

  /** Branch `i` of the tree at `p` is the subtree below its entry `i`. */
  lemma BranchIsSubtree(mem: Mem, own: Owners, p: nat, i: nat, q: nat)
    requires p in own && own[p].Node? && !own[p].spot.Low? && SubtreeOk(mem, own, p) && i < ENTRIES && q in own
    ensures InSub(own[q], Below(own[p], p, i)) <==> q != p && InSub(own[q], own[p]) && Branch(own[q], own[p]) == i
  {
    if q != p && InSub(own[q], own[p]) {
      assert ParentOk(mem, own, q, own[q]);
      if own[p].spot.Mid? && own[q].spot.Low? {
        assert own[own[q].spot.mid] == own[p];
      }
    }
  }

  /** A node in branch `i` implies an entry `i`. */
  lemma BranchHasEntry(mem: Mem, own: Owners, p: nat, q: nat)
    requires p in own && own[p].Node? && SubtreeOk(mem, own, p)
    requires q in own && q != p && InSub(own[q], own[p])
    ensures Branch(own[q], own[p]) < ENTRIES && PteIn(mem, p, Branch(own[q], own[p])).Entry?
  {
    assert ParentOk(mem, own, q, own[q]);
    if own[q].spot.Low? {
      var mid := own[q].spot.mid;
      if own[p].spot.Root? {
        assert InSub(own[mid], own[p]);
        assert ParentOk(mem, own, mid, own[mid]);
      }
    }
  }

  lemma KallocKeeps(mem: Mem, own: Owners, m: Mem, o: Owners)
    requires SameLeaves(mem, own, m, o)
    ensures LeavesKept(mem, own, m, o)
  {
  }

  /** Every page table of before maps as before, to the same memory. */
  ghost predicate LeavesKept(mem: Mem, own: Owners, m: Mem, o: Owners) {
    && SameMaps(mem, own, m)
    && forall p :: p in own && own[p].Leaf? ==> p in o && o[p] == own[p] && p in mem && p in m && m[p] == mem[p]
  }

  ghost function CopyPlan(mem: Mem, src: nat, n: nat): Plan {
    map w: nat | 0 <= w < n && PteAt(mem, src, w).Entry? :: CopyOf(mem, PteAt(mem, src, w))
  }

  /** Page `w` of `dst` is a copy of that of `src` in other memory, or both are missing. */
  ghost predicate CopiedAt(mem: Mem, m: Mem, src: nat, dst: nat, w: nat) {
    var e, c := PteAt(mem, src, w), PteAt(m, dst, w);
    && c.Entry? == e.Entry?
    && (e.Entry? ==> c.flags == e.flags && c.ppn != e.ppn && e.ppn in mem && c.ppn in m && m[c.ppn] == mem[e.ppn])
  }

  lemma PlanIsCopied(mem: Mem, own: Owners, m: Mem, o: Owners, src: nat, dst: nat, n: nat, w: nat)
    requires Allocated(mem, own, m, o, dst, 0, n, CopyPlan(mem, src, n)) && IsRoot(own, dst)
    requires w < n <= MAXPAGE && PteAt(mem, dst, w) == Empty
    requires var e := PteAt(mem, src, w); e.Entry? ==> Owns(own, e.ppn, Leaf(src, w))
    ensures CopiedAt(mem, m, src, dst, w)
  {
    hide PteAt;
    var plan := CopyPlan(mem, src, n);
    assert w in plan <==> PteAt(mem, src, w).Entry?;
    if w in plan {
      assert NewPage(own, m, o, dst, w, plan[w]);
    } else {
      assert PteAt(m, dst, w) == PteAt(mem, dst, w);
    }
  }

  ghost function CopyOf(mem: Mem, e: Pte): New
    requires e.Entry?
  {
    New(if e.ppn in mem then mem[e.ppn] else Zeroed(), e.flags)
  }

  /** Copying to `dst` leaves what is still to be copied from `src` alone. */
  lemma SourceKept(m0: Mem, o0: Owners, m: Mem, o: Owners, src: nat, dst: nat, k: nat, plan: Plan)
    requires Allocated(m0, o0, m, o, dst, 0, k, plan) && src != dst && IsRoot(o0, src) && k < MAXPAGE
    ensures PteAt(m, src, k) == PteAt(m0, src, k) && IsRoot(o, src)
    ensures forall p :: p in o0 && o0[p].Leaf? ==> p in m0 && p in m && m[p] == m0[p]
  {
    hide PteAt;
  }

  lemma OwnedIsFull(mem: Mem, own: Owners, p: nat)
    requires Good(mem, own) && p in own && own[p].Leaf?
    ensures p in mem && IsFull(mem[p])
  {
  }

  /** Page `w` of `root` is there, with these permissions and all its bytes zero. */
  ghost predicate ZeroedAt(m: Mem, root: nat, w: nat, perm: Flags) {
    var e := PteAt(m, root, w);
    && e.Entry? && e.flags == perm && e.ppn in m && m[e.ppn].Data? && |m[e.ppn].bytes| == 4096
    && forall i :: 0 <= i < 4096 ==> m[e.ppn].bytes[i] == 0
  }

  lemma PlanIsZeroed(mem: Mem, own: Owners, m: Mem, o: Owners, root: nat, lo: nat, hi: nat, perm: Flags, w: nat)
    requires lo <= w < hi && Allocated(mem, own, m, o, root, lo, hi - lo, AllZero(lo, hi, perm))
    ensures ZeroedAt(m, root, w, perm)
  {
    hide PteAt, Zeroed;
    assert Between(lo, w, hi) && w in AllZero(lo, hi, perm);
  }

  /** Zeroed pages lo..hi. */
  ghost function AllZero(lo: nat, hi: nat, perm: Flags): Plan {
    map w: nat | lo <= w < hi && Between(lo, w, hi) :: New(Zeroed(), perm)
  }

  predicate Between(lo: nat, w: nat, hi: nat) { lo <= w < hi }

  predicate IsFull(fill: Page) { fill.Data? && |fill.bytes| == PGSIZE }

  lemma WholePages(a: nat, b: nat)
    ensures Up(a * PGSIZE) == a && Up(b * PGSIZE) == b
  {
  }

  lemma StillEmpty(mem: Mem, own: Owners, p: nat, fill: Page, root: nat, v: nat)
    requires Good(mem, own) && Owns(own, p, Free) && IsRoot(own, root) && v < MAXPAGE
    ensures PteAt(mem[p := fill], root, v) == PteAt(mem, root, v) && IsRoot(own[p := Held], root)
  {
    GoodTree(mem, own);
    OutsideView(mem, own, p, fill, root, v);
  }

  lemma AllocatedRest(mem: Mem, own: Owners, m: Mem, o: Owners, root: nat, lo: nat, k: nat, plan: Plan)
    requires Allocated(mem, own, m, o, root, lo, k, plan) && IsRoot(own, root) && lo + k < MAXPAGE
    ensures PteAt(m, root, lo + k) == PteAt(mem, root, lo + k) && IsRoot(o, root)
  {
    hide PteAt;
  }

  lemma AllocatedOwned(mem: Mem, own: Owners, m: Mem, o: Owners, root: nat, lo: nat, k: nat, plan: Plan)
    requires Allocated(mem, own, m, o, root, lo, k, plan) && IsRoot(own, root) && lo + k <= MAXPAGE
    requires forall w :: lo <= w < lo + k ==> PteAt(mem, root, w) == Empty
    ensures forall w :: lo <= w < lo + k && PteAt(m, root, w).Entry? ==> Owns(o, PteAt(m, root, w).ppn, Leaf(root, w))
  {
    hide PteAt;
    forall w | lo <= w < lo + k && PteAt(m, root, w).Entry? ensures Owns(o, PteAt(m, root, w).ppn, Leaf(root, w)) {
      assert w in plan ==> NewPage(own, m, o, root, w, plan[w]);
    }
  }

  lemma UnmappedRoot(mem: Mem, own: Owners, m: Mem, o: Owners, root: nat, v: nat, n: nat, free: bool)
    requires Unmapped(mem, own, m, o, root, v, n, free) && IsRoot(own, root)
    ensures IsRoot(o, root)
  {
  }

  /** The pages still to be unmapped are as they were. */
  lemma UnmappedRest(mem: Mem, own: Owners, m: Mem, o: Owners, root: nat, v: nat, n: nat, free: bool)
    requires Unmapped(mem, own, m, o, root, v, n, free) && IsRoot(own, root) && v + n < MAXPAGE
    ensures PteAt(m, root, v + n) == PteAt(mem, root, v + n)
    ensures var l := Leaf(root, v + n); forall p :: Owns(own, p, l) ==> Owns(o, p, l)
  {
    hide PteAt;
  }

  lemma EntryOf(mem: Mem, root: nat, v: nat)
    ensures var t := LeafTable(mem, root, v);
            PteAt(mem, root, v) == if t.None? then Empty else PteIn(mem, t.value, Px0(v))
  {
  }

  lemma LeafToHeld(mem: Mem, own: Owners, head: Option<nat>, list: seq<nat>, p: nat)
    requires FreeOk(mem, own, head, list) && p in own && own[p].Leaf?
    ensures FreeOk(mem, own[p := Held], head, list)
  {
  }

  lemma MappedRoot(mem: Mem, own: Owners, m: Mem, o: Owners, root: nat, v: nat, n: nat, ppn: nat, perm: Flags,
                   give: bool)
    requires Mapped(mem, own, m, o, root, v, n, ppn, perm, give) && IsRoot(own, root)
    ensures IsRoot(o, root)
  {
  }

  lemma GiveOwner(mem: Mem, own: Owners, head: Option<nat>, list: seq<nat>, p: nat, o: Owner)
    requires FreeOk(mem, own, head, list) && Owns(own, p, Held) && o != Free
    ensures FreeOk(mem, own[p := o], head, list)
  {
  }

  lemma RootKept(mem: Mem, own: Owners, m: Mem, o: Owners, root: nat)
    requires IsRoot(own, root) && Walked(mem, own, m, o, root)
    ensures IsRoot(o, root)
  {
  }

  lemma LinkKept(mem: Mem, m: Mem, own: Owners, p: nat, i: nat)
    requires LinksKept(mem, m, own) && p in own && own[p].Node? && Child(mem, p, i).Some?
    ensures Child(m, p, i) == Child(mem, p, i)
  {
  }

  lemma GoodKeys(mem: Mem, own: Owners)
    requires Good(mem, own)
    ensures mem.Keys == own.Keys
  {
  }

  lemma GoodTree(mem: Mem, own: Owners)
    requires Good(mem, own)
    ensures TreeOk(mem, own)
  {
  }

  lemma SameLeavesRefl(mem: Mem, own: Owners)
    requires mem.Keys == own.Keys
    ensures SameLeaves(mem, own, mem, own)
  {
  }

  lemma LinksRefl(mem: Mem, own: Owners)
    ensures LinksKept(mem, mem, own)
  {
  }

  lemma TableHere(mem: Mem, own: Owners, p: nat)
    requires Good(mem, own) && p in own && own[p].Node?
    ensures IsTable(mem, p)
  {
    assert NodeOk(mem, own, p);
  }

  lemma NoChildYet(mem: Mem, own: Owners, m: Mem, p: nat, i: nat, t: nat)
    requires Child(mem, p, i).None? && t in m && m == mem[t := m[t]] && t != p
    ensures Child(m, p, i).None?
  {
  }

  /** A free page, taken and made the table below (p, i). */
  lemma NewNode(mem: Mem, own: Owners, p: nat, i: nat, t: nat, junk: Page)
    requires Good(mem, own) && Owns(own, t, Free) && junk.Data?
    requires p in own && CanGrow(own[p], i) && IsTable(mem, p) && Child(mem, p, i).None?
    ensures Walked(mem, own, WithTable(mem[t := junk], p, i, t), own[t := Below(own[p], p, i)], own[p].root)
    ensures LinksKept(mem, WithTable(mem[t := junk], p, i, t), own)
  {
    hide TreeOk, LeavesMapped, UserOwned, PteAt;
    var m0, o0 := mem[t := junk], own[t := Held];
    Reown(mem, own, t, junk, Held);
    Grow(m0, o0, p, i, t);
    var m, o := WithTable(m0, p, i, t), o0[t := Below(own[p], p, i)];
    assert o == own[t := Below(own[p], p, i)];
    forall q, k | q in own && own[q].Node? && Child(mem, q, k).Some? ensures Child(m, q, k) == Child(mem, q, k) {
      WithTableIn(m0, p, i, t, q, k);
    }
  }

  /** The subtree below entry `i` is untouched while the branches before it are freed. */
  lemma ChildReady(m0: Mem, o0: Owners, m: Mem, o: Owners, p: nat, i: nat)
    requires p in o0 && o0[p].Node? && SubtreeOk(m0, o0, p) && PartlyFreed(m0, o0, m, o, p, i)
    requires i < ENTRIES && PteIn(m, p, i).Entry?
    ensures !o0[p].spot.Low? && Owns(o, PteIn(m, p, i).ppn, Below(o0[p], p, i))
    ensures SubtreeOk(m, o, PteIn(m, p, i).ppn)
  {
    var c, po, pc := PteIn(m, p, i).ppn, o0[p], Below(o0[p], p, i);
    EntryIsTable(m0, o0, p, i);
    assert pc.Node?;
    BranchIsSubtree(m0, o0, p, i, c);
    forall q | q in o && InSub(o[q], pc) ensures o0[q] == o[q] && q != p && InSub(o0[q], po) && Branch(o0[q], po) == i {
      BranchIsSubtree(m0, o0, p, i, q);
    }
    forall q | q in o && InSub(o[q], pc)
      ensures IsTable(m, q) && EntriesOk(m, o, q, o[q]) && (o[q].spot.Low? ==> forall k :: PteIn(m, q, k) == Empty)
      ensures q != c ==> ParentOk(m, o, q, o[q])
    {
      SubtreeNode(m0, o0, m, o, p, i, c, q);
    }
  }

  lemma SubtreeNode(m0: Mem, o0: Owners, m: Mem, o: Owners, p: nat, i: nat, c: nat, q: nat)
    requires p in o0 && o0[p].Node? && SubtreeOk(m0, o0, p) && PartlyFreed(m0, o0, m, o, p, i)
    requires i < ENTRIES && !o0[p].spot.Low? && Owns(o0, c, Below(o0[p], p, i)) && q in o0 && o[q] == o0[q]
    requires q != p && InSub(o0[q], o0[p]) && Branch(o0[q], o0[p]) == i
    ensures IsTable(m, q) && EntriesOk(m, o, q, o[q]) && (o[q].spot.Low? ==> forall k :: PteIn(m, q, k) == Empty)
    ensures q != c ==> ParentOk(m, o, q, o[q])
  {
    var po := o0[p];
    assert forall k :: PteIn(m, q, k) == PteIn(m0, q, k);
    if !o0[q].spot.Low? {
      forall k | 0 <= k < ENTRIES && PteIn(m, q, k).Entry?
        ensures PteIn(m, q, k).flags == NONE && Owns(o, PteIn(m, q, k).ppn, Below(o[q], q, k))
      {
        assert Owns(o0, PteIn(m0, q, k).ppn, Below(o0[q], q, k));
      }
    }
    if q != c {
      BranchIsSubtree(m0, o0, p, i, q);
      assert ParentOk(m0, o0, q, o0[q]);
      if po.spot.Root? && o0[q].spot.Low? {
        var mid := o0[q].spot.mid;
        assert o0[mid] == o0[c];
        assert InSub(o0[c], po);
        assert forall k :: PteIn(m, mid, k) == PteIn(m0, mid, k);
      }
    }
  }

  lemma ChildFreed(m0: Mem, o0: Owners, m1: Mem, o1: Owners, m2: Mem, o2: Owners, p: nat, i: nat)
    requires p in o0 && o0[p].Node? && SubtreeOk(m0, o0, p) && PartlyFreed(m0, o0, m1, o1, p, i)
    requires i < ENTRIES && PteIn(m1, p, i).Entry? && !o0[p].spot.Low?
    requires FreedUnder(m1, o1, m2, o2, Below(o0[p], p, i))
    ensures p in o2 && o2[p] == o0[p] && IsTable(m2, p)
    ensures PartlyFreed(m0, o0, m2[p := Table(m2[p].ptes[i := Empty])], o2, p, i + 1)
  {
    hide SubtreeOk;
    var po, pc := o0[p], Below(o0[p], p, i);
    forall q | q in o0
      ensures InSub(o1[q], pc) <==> q != p && InSub(o0[q], po) && Branch(o0[q], po) == i
    {
      BranchIsSubtree(m0, o0, p, i, q);
    }
    var m := m2[p := Table(m2[p].ptes[i := Empty])];
    forall k: nat ensures PteIn(m, p, k) == if k < i + 1 then Empty else PteIn(m0, p, k) {
      assert PteIn(m1, p, k) == if k < i then Empty else PteIn(m0, p, k);
    }
  }

  lemma NoChild(m0: Mem, o0: Owners, m: Mem, o: Owners, p: nat, i: nat)
    requires p in o0 && o0[p].Node? && SubtreeOk(m0, o0, p) && PartlyFreed(m0, o0, m, o, p, i)
    requires PteIn(m, p, i) == Empty
    ensures PartlyFreed(m0, o0, m, o, p, i + 1)
  {
    forall q | q in o0 && q != p && InSub(o0[q], o0[p]) ensures Branch(o0[q], o0[p]) != i {
      BranchHasEntry(m0, o0, p, q);
    }
  }

  lemma AllFreed(m0: Mem, o0: Owners, m: Mem, o: Owners, p: nat, page: Page)
    requires p in o0 && o0[p].Node? && SubtreeOk(m0, o0, p) && PartlyFreed(m0, o0, m, o, p, ENTRIES)
    ensures p in o && o[p] == o0[p] && FreedUnder(m0, o0, m[p := page], o[p := Free], o0[p])
  {
    assert InSub(o0[p], o0[p]);
    forall q | q in o0 && q != p && InSub(o0[q], o0[p]) ensures Branch(o0[q], o0[p]) < ENTRIES {
      BranchHasEntry(m0, o0, p, q);
    }
  }
}
