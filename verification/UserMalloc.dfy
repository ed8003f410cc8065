/** malloc, free and morecore of user/umalloc.c on headers linked through memory, each proved to
    do to the chain of headers what FreeList says it does to the list of blocks. */
module UserMalloc {
  import opened FreeList

  const NULL := 0
  const HEADER := 16

  datatype Header = Header(ptr: nat, size: nat)

  /** The successor of block `i` on the circular list. */
  function Next(fl: seq<Chunk>, i: nat): Chunk
    requires i < |fl|
  {
    if i + 1 < |fl| then fl[i + 1] else fl[0]
  }

  ghost predicate LinkedAt(mem: map<nat, Header>, fl: seq<Chunk>, i: nat)
    requires i < |fl|
  {
    fl[i].addr in mem && mem[fl[i].addr] == Header(Next(fl, i).addr, fl[i].size)
  }

  /** The headers of the free blocks form a ring in address order, through `base`. */
  ghost predicate Linked(mem: map<nat, Header>, fl: seq<Chunk>) {
    forall i: nat :: i < |fl| ==> LinkedAt(mem, fl, i)
  }

  ghost predicate LiveHeaders(mem: map<nat, Header>, live: map<nat, nat>) {
    forall a :: a in live ==> a in mem && mem[a].size == live[a]
  }

  /** free's first conditional: the block takes over its successor if they touch. */
  function LinkBlock(mem: map<nat, Header>, p: nat, bp: nat): map<nat, Header>
    requires p in mem && bp in mem && mem[p].ptr in mem
  {
    var next := mem[p].ptr;
    if bp + mem[bp].size == next then mem[bp := Header(mem[next].ptr, mem[bp].size + mem[next].size)]
    else mem[bp := Header(next, mem[bp].size)]
  }

  /** free's second conditional: the predecessor takes over the block if they touch. */
  function LinkPrev(mem: map<nat, Header>, p: nat, bp: nat): map<nat, Header>
    requires p in mem && bp in mem
  {
    if p + mem[p].size == bp then mem[p := Header(mem[bp].ptr, mem[p].size + mem[bp].size)]
    else mem[p := Header(bp, mem[p].size)]
  }

  /** The blocks of the list after an insertion, one by one. */
  lemma InsertedBlocks(fl: seq<Chunk>, k: nat, b: Chunk)
    requires k < |fl|
    ensures var r := InsertAt(fl, k, b);
            var jn := k + 1 < |fl| && b.addr + b.size == fl[k + 1].addr;
            var jp := fl[k].addr + fl[k].size == b.addr;
            var c := if jn then Chunk(b.addr, b.size + fl[k + 1].size) else b;
            var s := if jn then 1 else 0;
            && |r| == |fl| + (if jp then 0 else 1) - s
            && (forall i :: 0 <= i < k ==> r[i] == fl[i])
            && (if jp then r[k] == Chunk(fl[k].addr, fl[k].size + c.size) else r[k] == fl[k] && r[k + 1] == c)
            && (forall i :: (if jp then k + 1 else k + 2) <= i < |r| ==> r[i] == fl[i + s - if jp then 0 else 1])
  {
    hide Join;
    var t := fl[k + 1..];
    var u := Join(b, t);
    JoinedBlocks(b, t);
    JoinedBlocks(fl[k], u);
  }

  lemma JoinedBlocks(b: Chunk, rest: seq<Chunk>)
    ensures var r := Join(b, rest);
            if rest != [] && b.addr + b.size == rest[0].addr then
              |r| == |rest| && r[0] == Chunk(b.addr, b.size + rest[0].size) &&
              forall i :: 1 <= i < |r| ==> r[i] == rest[i]
            else
              |r| == |rest| + 1 && r[0] == b && forall i :: 1 <= i < |r| ==> r[i] == rest[i - 1]
  {
  }

  /** Both conditionals together. */
  function LinkIn(mem: map<nat, Header>, p: nat, bp: nat): map<nat, Header>
    requires p in mem && bp in mem && mem[p].ptr in mem
  {
    LinkPrev(LinkBlock(mem, p, bp), p, bp)
  }

  ghost predicate Insertable(mem: map<nat, Header>, fl: seq<Chunk>, k: nat, b: Chunk) {
    && ListOk(fl) && Linked(mem, fl) && Before(fl, b.addr, k) && b.addr > BASE && b.size > 0
    && (forall j :: 0 <= j < |fl| ==> Apart(fl[j], b))
    && b.addr in mem && mem[b.addr].size == b.size
    && LinkedAt(mem, fl, k) && Next(fl, k).addr in mem
  }

  /** Blocks before the place: nothing of theirs changes. */
  lemma InsertLinkedBelow(mem: map<nat, Header>, fl: seq<Chunk>, k: nat, b: Chunk, i: nat)
    requires Insertable(mem, fl, k, b) && i < k
    ensures i < |InsertAt(fl, k, b)| && LinkedAt(LinkIn(mem, fl[k].addr, b.addr), InsertAt(fl, k, b), i)
  {
    assert LinkedAt(mem, fl, i);
    InsertedBlocks(fl, k, b);
    DistinctBlocks(fl, b);
    InsertedAtPlace(fl, k, b);
    hide InsertAt, ListOk, Linked, Apart;
  }

  /** The address of the block at the place stays. */
  lemma InsertedAtPlace(fl: seq<Chunk>, k: nat, b: Chunk)
    requires k < |fl|
    ensures k < |InsertAt(fl, k, b)| && InsertAt(fl, k, b)[k].addr == fl[k].addr
  {
    InsertedBlocks(fl, k, b);
  }

  /** The predecessor and the block itself, merged or not. */
  lemma InsertLinkedMiddle(mem: map<nat, Header>, fl: seq<Chunk>, k: nat, b: Chunk, i: nat)
    requires Insertable(mem, fl, k, b) && k <= i < |InsertAt(fl, k, b)|
    requires i == k || (i == k + 1 && fl[k].addr + fl[k].size != b.addr)
    ensures LinkedAt(LinkIn(mem, fl[k].addr, b.addr), InsertAt(fl, k, b), i)
  {
    hide InsertAt, Insertable;
    var n := if k + 1 < |fl| then k + 1 else 0;
    InsertableFacts(mem, fl, k, b, n);
    InsertedBlocks(fl, k, b);
    InsertedFirst(fl, k, b);
  }

  lemma InsertableFacts(mem: map<nat, Header>, fl: seq<Chunk>, k: nat, b: Chunk, n: nat)
    requires Insertable(mem, fl, k, b)
    ensures k < |fl| && b.size > 0 && LinkedAt(mem, fl, k) && Next(fl, k).addr in mem
    ensures b.addr in mem && mem[b.addr].size == b.size
    ensures n < |fl| ==> LinkedAt(mem, fl, n) && fl[n].addr != b.addr && (n != k ==> fl[n].addr != fl[k].addr)
    ensures n < |fl| ==> b.addr + b.size <= fl[n].addr || fl[n].addr + fl[n].size <= b.addr
    ensures fl[0].addr < b.addr && fl[k].addr < b.addr
  {
    DistinctBlocks(fl, b);
  }

  /** Blocks after the place: their headers are untouched and so is what they point to. */
  lemma InsertLinkedAbove(mem: map<nat, Header>, fl: seq<Chunk>, k: nat, b: Chunk, i: nat)
    requires Insertable(mem, fl, k, b) && k < i < |InsertAt(fl, k, b)|
    requires i == k + 1 ==> fl[k].addr + fl[k].size == b.addr
    ensures LinkedAt(LinkIn(mem, fl[k].addr, b.addr), InsertAt(fl, k, b), i)
  {
    var j := Shifted(fl, k, b, i);
    BlockAbove(fl, k, b, i);
    hide InsertAt, ListOk, Apart, Before;
    assert LinkedAt(mem, fl, j);
    OthersDiffer(mem, fl, k, b, j);
    LinkInElsewhere(mem, fl[k].addr, b.addr, fl[j].addr);
  }

  /** Where block `i` of the new list stood in the old one. */
  function Shifted(fl: seq<Chunk>, k: nat, b: Chunk, i: nat): int
    requires k < |fl|
  {
    i + (if k + 1 < |fl| && b.addr + b.size == fl[k + 1].addr then 1 else 0)
      - (if fl[k].addr + fl[k].size == b.addr then 0 else 1)
  }

  lemma BlockAbove(fl: seq<Chunk>, k: nat, b: Chunk, i: nat)
    requires k < |fl| && k < i < |InsertAt(fl, k, b)|
    requires i == k + 1 ==> fl[k].addr + fl[k].size == b.addr
    ensures var j := Shifted(fl, k, b, i);
            && k < j < |fl| && InsertAt(fl, k, b)[i] == fl[j]
            && Next(InsertAt(fl, k, b), i).addr == Next(fl, j).addr
  {
    hide InsertAt;
    InsertedBlocks(fl, k, b);
    InsertedFirst(fl, k, b);
  }

  lemma OthersDiffer(mem: map<nat, Header>, fl: seq<Chunk>, k: nat, b: Chunk, j: nat)
    requires Insertable(mem, fl, k, b) && k < j < |fl|
    ensures fl[j].addr != fl[k].addr && fl[j].addr != b.addr
  {
    DistinctBlocks(fl, b);
  }

  lemma LinkInElsewhere(mem: map<nat, Header>, p: nat, bp: nat, x: nat)
    requires p in mem && bp in mem && mem[p].ptr in mem && x in mem && x != p && x != bp
    ensures x in LinkIn(mem, p, bp) && LinkIn(mem, p, bp)[x] == mem[x]
  {
  }

  /** The list still starts at `base`. */
  lemma InsertedFirst(fl: seq<Chunk>, k: nat, b: Chunk)
    requires k < |fl|
    ensures |InsertAt(fl, k, b)| > 0 && InsertAt(fl, k, b)[0].addr == fl[0].addr
  {
    InsertedBlocks(fl, k, b);
  }

  lemma InsertKeepsLinked(mem: map<nat, Header>, fl: seq<Chunk>, k: nat, b: Chunk)
    requires Insertable(mem, fl, k, b)
    ensures Linked(LinkIn(mem, fl[k].addr, b.addr), InsertAt(fl, k, b))
  {
    var m, r := LinkIn(mem, fl[k].addr, b.addr), InsertAt(fl, k, b);
    InsertedBlocks(fl, k, b);
    hide InsertAt, ListOk, Linked, Apart, Before, LinkIn, LinkedAt;
    forall i: nat | i < |r|
      ensures LinkedAt(m, r, i)
    {
      if i < k {
        InsertLinkedBelow(mem, fl, k, b, i);
      } else if i == k || (i == k + 1 && fl[k].addr + fl[k].size != b.addr) {
        InsertLinkedMiddle(mem, fl, k, b, i);
      } else {
        InsertLinkedAbove(mem, fl, k, b, i);
      }
    }
    LinkedFromAll(m, r);
  }

  lemma LinkedFromAll(mem: map<nat, Header>, fl: seq<Chunk>)
    requires forall i: nat :: i < |fl| ==> LinkedAt(mem, fl, i)
    ensures Linked(mem, fl)
  {
  }

  lemma DistinctBlocks(fl: seq<Chunk>, b: Chunk)
    requires ListOk(fl) && b.addr > BASE && b.size > 0 && forall j :: 0 <= j < |fl| ==> Apart(fl[j], b)
    ensures forall j :: 0 <= j < |fl| ==> fl[j].addr != b.addr
    ensures forall i, j :: 0 <= i < j < |fl| ==> fl[i].addr != fl[j].addr
    ensures fl[0].addr != b.addr + b.size
  {
    assert forall i :: 0 < i < |fl| ==> fl[i] == fl[1..][i - 1];
  }

  /** Units for a request: the bytes rounded up, and one for the header. */
  function UnitsFor(nbytes: nat): (n: nat)
    ensures n > 0 && nbytes <= (n - 1) * HEADER < nbytes + HEADER
  {
    (nbytes + HEADER - 1) / HEADER + 1
  }

  function AtLeast4096(nu: nat): (n: nat)
    ensures n >= nu && n >= 4096 && (n == nu || n == 4096)
  {
    if nu < 4096 then 4096 else nu
  }

  /** The heap after sbrk's memory has been freed into it. */
  ghost function Obtained(h: Heap, a: nat, n: nat): Heap
    requires |h.fl| > 0 && h.fl[0].addr < a
  {
    Freed(Grown(h, a, n), a)
  }

  lemma ObtainedLive(h: Heap, a: nat, n: nat)
    requires Inv(h) && Fresh(h, a, n) && |h.fl| > 0 && h.fl[0].addr < a
    ensures Obtained(h, a, n).live == h.live
  {
    hide ListOk, UnitsOf, InFree, InLive, InsertAt, Position, Fresh;
    GrownKeepsInv(h, a, n);
    assert h.live[a := n] - {a} == h.live;
  }

  /** malloc's change to the headers when it uses block `p`. */
  function CutOut(mem: map<nat, Header>, prevp: nat, p: nat, nunits: nat): map<nat, Header>
    requires prevp in mem && p in mem && nunits <= mem[p].size
  {
    if mem[p].size == nunits then mem[prevp := Header(mem[p].ptr, mem[prevp].size)]
    else
      var m := mem[p := Header(mem[p].ptr, mem[p].size - nunits)];
      var q := p + m[p].size;
      m[q := Header(if q in m then m[q].ptr else 0, nunits)]
  }

  ghost predicate NoneFits(fl: seq<Chunk>, n: nat) {
    forall i :: 0 <= i < |fl| ==> fl[i].size < n
  }

  /** The heap malloc takes the block from. */
  ghost predicate Source(h: Heap, asked: bool, at: nat, nunits: nat, g: Heap) {
    if asked then
      |h.fl| > 0 && h.fl[0].addr < at && NoneFits(h.fl, nunits) && g == Obtained(h, at, AtLeast4096(nunits))
    else g == h
  }

  class Allocator {
    var mem: map<nat, Header>
    var freep: nat
    ghost var h: Heap
    ghost var f: nat

    constructor ()
      ensures Valid() && h == EMPTY && freep == NULL
    {
      mem, freep, h, f := map[], NULL, EMPTY, 0;
      new;
      EmptyInv();
    }

    /** freep points into the ring; before the first malloc it is null and there is no ring. */
    ghost predicate Valid()
      reads this
    {
      && Inv(h)
      && LiveHeaders(mem, h.live)
      && (freep == NULL ==> h == EMPTY)
      && (freep != NULL ==> Linked(mem, h.fl) && f < |h.fl| && freep == h.fl[f].addr)
    }

    /** The search loop of free: the block behind which `bp` belongs. */
    method FindPlace(bp: nat) returns (p: nat, ghost k: nat)
      requires Valid() && freep != NULL && bp > BASE
      requires forall i :: 0 <= i < |h.fl| ==> h.fl[i].addr != bp
      ensures k < |h.fl| && p == h.fl[k].addr && Before(h.fl, bp, k)
    {
      ghost var fl := h.fl;
      ghost var t := Position(fl, bp);
      p, k := freep, f;
      while !(bp > p && bp < mem[p].ptr)
        invariant k < |fl| && p == fl[k].addr
        decreases if k <= t then t - k else t + |fl| - k
      {
        assert LinkedAt(mem, fl, k);
        if p >= mem[p].ptr && (bp > p || bp < mem[p].ptr) {
          LastBlock(fl, bp, k);
          return;
        }
        NotYet(fl, bp, t, k);
        p := mem[p].ptr;
        k := if k + 1 < |fl| then k + 1 else 0;
      }
      assert LinkedAt(mem, fl, k);
      InnerBlock(fl, bp, k);
    }

    lemma LastBlock(fl: seq<Chunk>, bp: nat, k: nat)
      requires ListOk(fl) && k < |fl| && bp > BASE
      requires fl[k].addr >= Next(fl, k).addr && (bp > fl[k].addr || bp < Next(fl, k).addr)
      ensures Before(fl, bp, k)
    {
    }

    lemma InnerBlock(fl: seq<Chunk>, bp: nat, k: nat)
      requires ListOk(fl) && k < |fl| && fl[k].addr < bp < Next(fl, k).addr
      ensures Before(fl, bp, k)
    {
    }

    /** Away from its place the walk goes on, and it never steps over it. */
    lemma NotYet(fl: seq<Chunk>, bp: nat, t: nat, k: nat)
      requires ListOk(fl) && k < |fl| && bp > BASE && Before(fl, bp, t)
      requires forall i :: 0 <= i < |fl| ==> fl[i].addr != bp
      requires !(fl[k].addr < bp < Next(fl, k).addr)
      requires !(fl[k].addr >= Next(fl, k).addr && (bp > fl[k].addr || bp < Next(fl, k).addr))
      ensures k != t
    {
    }

    /** free: the block rejoins the list at its place, merged with the neighbours it touches, and
        freep is left at its predecessor. */
    method Free(ap: nat)
      requires Valid() && freep != NULL && ap > 0 && ap - 1 in h.live
      modifies this
      ensures Valid() && freep != NULL && h == Freed(old(h), ap - 1)
      ensures f == Position(old(h).fl, ap - 1) && freep == old(h).fl[f].addr
      ensures Before(old(h).fl, ap - 1, f)
    {
      hide ListOk, Linked, InsertAt, LinkedAt, Position, Before, Inv, LiveHeaders, Freed;
      var bp := ap - 1;
      NotFree(h, bp);
      var p;
      ghost var k;
      p, k := FindPlace(bp);
      FreeStep(mem, h, k, bp);
      if bp + mem[bp].size == mem[p].ptr {
        var next := mem[p].ptr;
        mem := mem[bp := Header(mem[next].ptr, mem[bp].size + mem[next].size)];
      } else {
        mem := mem[bp := Header(mem[p].ptr, mem[bp].size)];
      }
      if p + mem[p].size == bp {
        mem := mem[p := Header(mem[bp].ptr, mem[p].size + mem[bp].size)];
      } else {
        mem := mem[p := Header(bp, mem[p].size)];
      }
      freep := p;
      h, f := Freed(h, bp), k;
    }

    lemma FreeStep(mem: map<nat, Header>, h: Heap, k: nat, bp: nat)
      requires Inv(h) && LiveHeaders(mem, h.live) && Linked(mem, h.fl) && bp in h.live && Before(h.fl, bp, k)
      ensures h.fl[0].addr < bp && k == Position(h.fl, bp)
      ensures h.fl[k].addr in mem && bp in mem && mem[h.fl[k].addr].ptr in mem && mem[h.fl[k].addr].ptr != bp
      ensures bp != h.fl[k].addr && h.fl[k].addr != NULL
      ensures var m, g := LinkIn(mem, h.fl[k].addr, bp), Freed(h, bp);
              && Inv(g) && Linked(m, g.fl) && LiveHeaders(m, g.live)
              && k < |g.fl| && g.fl[k].addr == h.fl[k].addr
    {
      var b := Chunk(bp, h.live[bp]);
      FreedKeepsInv(h, bp);
      NotFree(h, bp);
      PositionIsUnique(h.fl, bp, k);
      assert LinkedAt(mem, h.fl, k) && LinkedAt(mem, h.fl, if k + 1 < |h.fl| then k + 1 else 0);
      assert forall i :: 0 <= i < |h.fl| ==> Apart(h.fl[i], b);
      InsertKeepsLinked(mem, h.fl, k, b);
      InsertedAtPlace(h.fl, k, b);
      LiveElsewhere(mem, h, k, bp);
      hide InsertAt, LinkIn, Linked, LiveHeaders;
    }

    lemma NotFree(h: Heap, a: nat)
      requires Inv(h) && a in h.live
      ensures a > BASE && forall i :: 0 <= i < |h.fl| ==> h.fl[i].addr != a
    {
      assert forall i :: 0 < i < |h.fl| ==> h.fl[i] == h.fl[1..][i - 1];
      assert forall i :: 0 <= i < |h.fl| ==> Apart(h.fl[i], Chunk(a, h.live[a]));
    }

    /** Linking a block in rewrites no other live block's header. */
    lemma LiveElsewhere(mem: map<nat, Header>, h: Heap, k: nat, bp: nat)
      requires Inv(h) && LiveHeaders(mem, h.live) && k < |h.fl| && bp in h.live
      requires h.fl[k].addr in mem && mem[h.fl[k].addr].ptr in mem
      ensures LiveHeaders(LinkIn(mem, h.fl[k].addr, bp), h.live - {bp})
    {
      forall a | a in h.live - {bp}
        ensures a in mem && a != h.fl[k].addr
      {
        NotFree(h, a);
      }
    }

    /** morecore: at least 4096 units from sbrk, handed to free. `at` is sbrk's answer. */
    method Morecore(nu: nat, at: nat) returns (p: nat)
      requires Valid() && freep != NULL && nu > 0
      requires at != NULL ==> Fresh(h, at, AtLeast4096(nu))
      modifies this
      ensures Valid() && freep != NULL
      ensures at == NULL ==> p == NULL && h == old(h) && f == old(f)
      ensures at != NULL ==>
                && p == freep && |old(h).fl| > 0 && old(h).fl[0].addr < at && h == Obtained(old(h), at, AtLeast4096(nu))
                && !NoneFits(h.fl, nu)
      ensures h.live == old(h).live
    {
      hide ListOk, Linked, InsertAt, LinkedAt, Position, Before, Inv, LiveHeaders, UnitsOf, Fresh, Freed;
      if at == NULL {
        return NULL;
      }
      var n := AtLeast4096(nu);
      var hp := Header(if at in mem then mem[at].ptr else 0, n);
      GrowStep(mem, h, at, hp);
      ObtainedLive(h, at, n);
      mem := mem[at := hp];
      h := Grown(h, at, n);
      ghost var g := h;
      Free(at + 1);
      BigEnough(g, at);
      p := freep;
    }

    lemma GrowStep(mem: map<nat, Header>, h: Heap, a: nat, hp: Header)
      requires Inv(h) && LiveHeaders(mem, h.live) && Linked(mem, h.fl) && Fresh(h, a, hp.size)
      ensures |h.fl| > 0 && h.fl[0].addr < a
      ensures var g := Grown(h, a, hp.size);
              Inv(g) && LiveHeaders(mem[a := hp], g.live) && Linked(mem[a := hp], g.fl) && a in g.live &&
              g.live[a] == hp.size
    {
      GrownKeepsInv(h, a, hp.size);
      NotFree(Grown(h, a, hp.size), a);
      LinkedElsewhere(mem, h.fl, a, hp);
    }

    lemma LinkedElsewhere(mem: map<nat, Header>, fl: seq<Chunk>, a: nat, x: Header)
      requires Linked(mem, fl) && forall i :: 0 <= i < |fl| ==> fl[i].addr != a
      ensures Linked(mem[a := x], fl)
    {
      var m := mem[a := x];
      forall i: nat | i < |fl|
        ensures LinkedAt(m, fl, i)
      {
        assert LinkedAt(mem, fl, i);
      }
    }

    /** The block freed is in the list, alone or inside a larger one. */
    lemma BigEnough(h: Heap, a: nat)
      requires |h.fl| > 0 && h.fl[0].addr < a && a in h.live
      ensures exists i :: 0 <= i < |Freed(h, a).fl| && Freed(h, a).fl[i].size >= h.live[a]
    {
      var fl, k, b := h.fl, Position(h.fl, a), Chunk(a, h.live[a]);
      InsertedBlocks(fl, k, b);
      var r := InsertAt(fl, k, b);
      var i := if fl[k].addr + fl[k].size == b.addr then k else k + 1;
      assert Freed(h, a).fl[i].size >= h.live[a];
    }

    // ---- malloc ----

    /** `d` steps on from block `f` around a list of `n`. */
    static function Around(f: nat, d: nat, n: nat): nat
      requires f < n && d <= n
    {
      if f + d < n then f + d else f + d - n
    }

    /** The blocks that the search has passed since freep are all too small. */
    static ghost predicate Passed(fl: seq<Chunk>, f: nat, d: nat, nunits: nat)
      requires f < |fl| && d <= |fl|
    {
      forall e: nat :: 1 <= e <= d ==> fl[Around(f, e, |fl|)].size < nunits
    }

    lemma PassedAll(fl: seq<Chunk>, f: nat, nunits: nat)
      requires f < |fl| && Passed(fl, f, |fl|, nunits)
      ensures forall i :: 0 <= i < |fl| ==> fl[i].size < nunits
    {
      forall i | 0 <= i < |fl|
        ensures fl[i].size < nunits
      {
        var e := if i > f then i - f else i + |fl| - f;
        assert Around(f, e, |fl|) == i;
      }
    }

    lemma TakenLinked(mem: map<nat, Header>, h: Heap, k: nat, n: nat)
      requires Inv(h) && LiveHeaders(mem, h.live) && Linked(mem, h.fl) && 0 < k < |h.fl| && 0 < n <= h.fl[k].size
      ensures h.fl[k - 1].addr in mem && h.fl[k].addr in mem && mem[h.fl[k].addr].size == h.fl[k].size
      ensures h.fl[k - 1].addr != NULL
      ensures var m, g := CutOut(mem, h.fl[k - 1].addr, h.fl[k].addr, n), Taken(h, k, n);
              Linked(m, g.fl) && LiveHeaders(m, g.live) && |g.fl| >= k && g.fl[k - 1].addr == h.fl[k - 1].addr
    {
      AddressesDiffer(h);
      TakenKeepsInv(h, k, n);
      var g := Taken(h, k, n);
      AddressesDiffer(g);
      assert LinkedAt(mem, h.fl, k - 1) && LinkedAt(mem, h.fl, k);
      assert |g.fl| >= k && g.fl[k - 1].addr == h.fl[k - 1].addr;
      TakenLiveHeaders(mem, h, k, n);
      hide Inv, LiveHeaders, Linked, CutOut, TakeAt, LinkedAt;
      var m := CutOut(mem, h.fl[k - 1].addr, h.fl[k].addr, n);
      forall i: nat | i < |g.fl|
        ensures LinkedAt(m, g.fl, i)
      {
        TakenLinkedAt(mem, h.fl, k, n, i);
      }
      LinkedFromAll(m, g.fl);
    }

    lemma TakenLiveHeaders(mem: map<nat, Header>, h: Heap, k: nat, n: nat)
      requires 0 < k < |h.fl| && 0 < n <= h.fl[k].size && LiveHeaders(mem, h.live)
      requires forall a, i :: a in h.live && 0 <= i < |h.fl| ==> h.fl[i].addr != a
      requires LinkedAt(mem, h.fl, k - 1) && LinkedAt(mem, h.fl, k) && h.fl[k - 1].addr != h.fl[k].addr
      requires TakenAddr(h.fl, k, n) !in h.live
      ensures LiveHeaders(CutOut(mem, h.fl[k - 1].addr, h.fl[k].addr, n), Taken(h, k, n).live)
    {
    }

    lemma TakenLinkedAt(mem: map<nat, Header>, fl: seq<Chunk>, k: nat, n: nat, i: nat)
      requires Linked(mem, fl) && 0 < k < |fl| && 0 < n <= fl[k].size && i < |TakeAt(fl, k, n)|
      requires forall i, j :: 0 <= i < j < |fl| ==> fl[i].addr != fl[j].addr
      requires forall i :: 0 <= i < |TakeAt(fl, k, n)| ==> TakeAt(fl, k, n)[i].addr != TakenAddr(fl, k, n)
      ensures LinkedAt(mem, fl, k - 1) && LinkedAt(mem, fl, k)
      ensures LinkedAt(CutOut(mem, fl[k - 1].addr, fl[k].addr, n), TakeAt(fl, k, n), i)
    {
      var r := TakeAt(fl, k, n);
      var j := if |r| < |fl| && i >= k then i + 1 else i;
      assert LinkedAt(mem, fl, j) && LinkedAt(mem, fl, k - 1) && LinkedAt(mem, fl, k);
      assert r[i].addr == fl[j].addr;
      hide Linked;
    }

    /** No two blocks, free or live, share an address. */
    lemma AddressesDiffer(h: Heap)
      requires Inv(h)
      ensures forall i, j :: 0 <= i < j < |h.fl| ==> h.fl[i].addr != h.fl[j].addr
      ensures forall a, i :: a in h.live && 0 <= i < |h.fl| ==> h.fl[i].addr != a
      ensures forall i :: 0 <= i < |h.fl| ==> h.fl[i].addr >= BASE
    {
      forall a, i | a in h.live && 0 <= i < |h.fl|
        ensures h.fl[i].addr != a
      {
        NotFree(h, a);
      }
    }

    /** Cut `nunits` units out of free block `p`, whose predecessor is `prevp`. */
    method Take(prevp: nat, p: nat, nunits: nat, ghost k: nat) returns (ap: nat)
      requires Valid() && freep != NULL && 0 < k < |h.fl| && 0 < nunits <= h.fl[k].size
      requires p == h.fl[k].addr && prevp == h.fl[k - 1].addr
      modifies this
      ensures Valid() && freep == prevp && h == Taken(old(h), k, nunits)
      ensures ap == TakenAddr(old(h).fl, k, nunits) + 1 && ap - 1 !in old(h).live && h.live[ap - 1] == nunits
    {
      hide ListOk, Linked, LinkedAt, Inv, LiveHeaders, TakeAt;
      TakenKeepsInv(h, k, nunits);
      TakenLinked(mem, h, k, nunits);
      var q := p;
      if mem[p].size == nunits {
        mem := mem[prevp := Header(mem[p].ptr, mem[prevp].size)];
      } else {
        mem := mem[p := Header(mem[p].ptr, mem[p].size - nunits)];
        q := p + mem[p].size;
        mem := mem[q := Header(if q in mem then mem[q].ptr else 0, nunits)];
      }
      freep := prevp;
      h, f := Taken(h, k, nunits), k - 1;
      ap := q + 1;
    }

    /** The first malloc makes `base` a ring of one. */
    method InitBase()
      requires Valid()
      modifies this
      ensures Valid() && freep != NULL && h == old(h) && (old(freep) != NULL ==> f == old(f) && freep == old(freep))
    {
      if freep == NULL {
        mem := mem[BASE := Header(BASE, 0)];
        freep, f := BASE, 0;
        assert LinkedAt(mem, h.fl, 0);
      }
    }

    /** The search stands at the block `d + 1` steps on from freep, with its predecessor in hand. */
    ghost predicate Searching(prevp: nat, p: nat, d: nat, nunits: nat)
      reads this
      requires Valid() && freep != NULL
    {
      && d < |h.fl|
      && prevp == h.fl[Around(f, d, |h.fl|)].addr
      && p == h.fl[Around(f, d + 1, |h.fl|)].addr
      && Passed(h.fl, f, d, nunits)
    }

    /** Block `k` is the first one behind block `f` that holds `n` units. */
    static ghost predicate FirstFit(fl: seq<Chunk>, f: nat, k: nat, n: nat) {
      f < |fl| && exists d :: 0 <= d < |fl| && Passed(fl, f, d, n) && k == Around(f, d + 1, |fl|)
    }

    /** malloc: first fit from freep on, and at most one trip to sbrk, whose answer is `at`. */
    method Malloc(nbytes: nat, at: nat) returns (ap: nat, ghost asked: bool, ghost g: Heap, ghost k: nat)
      requires Valid() && UnitsFor(nbytes) * HEADER < 0x8000_0000
      requires at != NULL ==> Fresh(h, at, AtLeast4096(UnitsFor(nbytes)))
      modifies this
      ensures Valid() && freep != NULL
      ensures asked ==> NoneFits(old(h).fl, UnitsFor(nbytes))
      ensures ap == NULL <==> asked && at == NULL
      ensures ap == NULL ==> h == old(h)
      ensures ap != NULL ==>
                && Source(old(h), asked, at, UnitsFor(nbytes), g)
                && 0 < k < |g.fl| && g.fl[k].size >= UnitsFor(nbytes)
                && h == Taken(g, k, UnitsFor(nbytes))
                && ap == TakenAddr(g.fl, k, UnitsFor(nbytes)) + 1 && ap - 1 !in g.live
      ensures ap != NULL ==> ap - 1 + UnitsFor(nbytes) == g.fl[k].addr + g.fl[k].size
      ensures ap != NULL ==>
                && ap - 1 in h.live && nbytes <= (h.live[ap - 1] - 1) * HEADER < nbytes + HEADER
                && forall a :: a in h.live <==> a == ap - 1 || a in old(h).live
      ensures !asked && old(freep) != NULL ==> FirstFit(g.fl, old(f), k, UnitsFor(nbytes))
    {
      hide Inv, Linked, LiveHeaders, Fresh, UnitsOf, Freed, Passed, TakeAt, Around, Grown, LinkedAt, NoneFits, ListOk;
      var nunits := UnitsFor(nbytes);
      InitBase();
      var prevp := freep;
      StartSearch(nunits);
      var p := mem[prevp].ptr;
      asked, g, k := false, h, 0;
      ghost var d := 0;
      while true
        invariant Valid() && freep != NULL && Searching(prevp, p, d, nunits)
        invariant h.live == old(h).live
        invariant Source(old(h), asked, at, nunits, h) && (!asked && old(freep) != NULL ==> f == old(f))
        invariant asked ==> at != NULL && NoneFits(old(h).fl, nunits) && !NoneFits(h.fl, nunits)
        decreases !asked, |h.fl| - d
      {
        k := SearchAt(prevp, p, d, nunits);
        if mem[p].size >= nunits {
          g := h;
          assert FirstFit(g.fl, f, k, nunits);
          ap := Take(prevp, p, nunits, k);
          return;
        }
        if p == freep {
          FullCircle(prevp, p, d, nunits);
          assert !asked;
          p := Morecore(nunits, at);
          asked := true;
          if p == NULL {
            ap := NULL;
            return;
          }
          d := 0;
          StartSearch(nunits);
        } else {
          SearchOn(prevp, p, d, nunits);
          d := d + 1;
        }
        prevp := p;
        p := mem[p].ptr;
      }
    }

    /** The header of free block `k` says where the next one is and how large this one. */
    lemma HeaderOf(k: nat)
      requires Valid() && freep != NULL && k < |h.fl|
      ensures var p := h.fl[k].addr; p in mem && mem[p] == Header(h.fl[Around(k, 1, |h.fl|)].addr, h.fl[k].size)
    {
      assert LinkedAt(mem, h.fl, k);
    }

    lemma StartSearch(nunits: nat)
      requires Valid() && freep != NULL
      ensures |h.fl| > 0 && freep in mem && Searching(freep, mem[freep].ptr, 0, nunits)
    {
      HeaderOf(f);
    }

    /** Where the search stands, in terms of the list. */
    lemma SearchAt(prevp: nat, p: nat, d: nat, nunits: nat) returns (k: nat)
      requires Valid() && freep != NULL && Searching(prevp, p, d, nunits) && nunits > 0
      ensures k == Around(f, d + 1, |h.fl|) && k < |h.fl| && p == h.fl[k].addr
      ensures p in mem && mem[p].size == h.fl[k].size
      ensures mem[p].size >= nunits ==> 0 < k && prevp == h.fl[k - 1].addr
    {
      k := Around(f, d + 1, |h.fl|);
      HeaderOf(k);
    }

    lemma SearchOn(prevp: nat, p: nat, d: nat, nunits: nat)
      requires Valid() && freep != NULL && Searching(prevp, p, d, nunits)
      requires p in mem && mem[p].size < nunits && p != freep
      ensures Searching(p, mem[p].ptr, d + 1, nunits)
    {
      HeaderOf(Around(f, d + 1, |h.fl|));
    }

    /** Back at freep, the search has seen every block and none will do. */
    lemma FullCircle(prevp: nat, p: nat, d: nat, nunits: nat)
      requires Valid() && freep != NULL && Searching(prevp, p, d, nunits)
      requires p in mem && mem[p].size < nunits && p == freep
      ensures NoneFits(h.fl, nunits)
    {
      AddressesDiffer(h);
      HeaderOf(Around(f, d + 1, |h.fl|));
      assert d + 1 == |h.fl|;
      PassedAll(h.fl, f, nunits);
    }
  }
}
