/** The free list of the user allocator in user/umalloc.c, as values: free blocks in address
    order behind the static `base`, live blocks, and the units obtained from sbrk. Addresses and
    sizes count units of sizeof(Header). */
module FreeList {

  const BASE := 1

  datatype Chunk = Chunk(addr: nat, size: nat)

  /** Address order, no empty block behind `base`, and a gap between any two neighbours: whatever
      could be coalesced has been. */
  ghost predicate ListOk(fl: seq<Chunk>) {
    && |fl| > 0
    && fl[0] == Chunk(BASE, 0)
    && NonEmpty(fl[1..])
    && Gapped(fl)
  }

  /** Every block ends before the next begins, with a gap. */
  ghost predicate Gapped(s: seq<Chunk>) {
    forall i, j :: 0 <= i < j < |s| ==> s[i].addr + s[i].size < s[j].addr
  }

  ghost predicate NonEmpty(s: seq<Chunk>) {
    forall i :: 0 <= i < |s| ==> s[i].size > 0
  }

  predicate Apart(a: Chunk, b: Chunk) {
    a.addr + a.size <= b.addr || b.addr + b.size <= a.addr
  }

  predicate Has(c: Chunk, u: nat) {
    c.addr <= u < c.addr + c.size
  }

  ghost predicate InFree(fl: seq<Chunk>, u: nat) {
    exists i :: 0 <= i < |fl| && Has(fl[i], u)
  }

  ghost predicate InLive(live: map<nat, nat>, u: nat) {
    exists a :: a in live && Has(Chunk(a, live[a]), u)
  }

  datatype Heap = Heap(fl: seq<Chunk>, live: map<nat, nat>, obtained: set<nat>)

  /** Free and live blocks are disjoint, and together they are exactly what sbrk gave. */
  ghost predicate Inv(h: Heap) {
    && ListOk(h.fl)
    && (forall a :: a in h.live ==> a > BASE && h.live[a] > 0)
    && (forall a, i :: a in h.live && 0 <= i < |h.fl| ==> Apart(h.fl[i], Chunk(a, h.live[a])))
    && (forall a, b :: a in h.live && b in h.live && a != b ==> Apart(Chunk(a, h.live[a]), Chunk(b, h.live[b])))
    && (forall u: nat :: u in h.obtained <==> InFree(h.fl, u) || InLive(h.live, u))
  }

  // ---- Inserting a block ----

  /** The last block that starts below `a`; `base` always does. */
  ghost predicate Before(fl: seq<Chunk>, a: nat, k: nat) {
    && k < |fl| && fl[k].addr < a
    && (k + 1 < |fl| ==> a <= fl[k + 1].addr)
  }

  lemma {:induction false} BeforeExists(fl: seq<Chunk>, a: nat)
    requires |fl| > 0 && fl[0].addr < a
    ensures exists k: nat :: Before(fl, a, k)
  {
    var n := |fl| - 1;
    if fl[n].addr < a {
      assert Before(fl, a, n);
    } else {
      BeforeExists(fl[..n], a);
      var k: nat :| Before(fl[..n], a, k);
      assert Before(fl, a, k);
    }
  }

  ghost function Position(fl: seq<Chunk>, a: nat): (k: nat)
    requires |fl| > 0 && fl[0].addr < a
    ensures Before(fl, a, k)
  {
    BeforeExists(fl, a);
    var k: nat :| Before(fl, a, k);
    k
  }

  lemma PositionIsUnique(fl: seq<Chunk>, a: nat, k: nat)
    requires ListOk(fl) && a > BASE && Before(fl, a, k)
    ensures Position(fl, a) == k
  {
    var p := Position(fl, a);
    assert !(p < k) && !(k < p);
  }

  /** `b` in front of `rest`, merged with its first block if they touch. */
  function Join(b: Chunk, rest: seq<Chunk>): (r: seq<Chunk>)
    ensures r != []
  {
    if rest != [] && b.addr + b.size == rest[0].addr then [Chunk(b.addr, b.size + rest[0].size)] + rest[1..]
    else [b] + rest
  }

  /** free()'s effect on the list, with `k` the block behind which `b` goes. */
  function InsertAt(fl: seq<Chunk>, k: nat, b: Chunk): seq<Chunk>
    requires k < |fl|
  {
    fl[..k] + Join(fl[k], Join(b, fl[k + 1..]))
  }

  ghost predicate From(s: seq<Chunk>, lo: nat) {
    forall i :: 0 <= i < |s| ==> s[i].addr >= lo
  }

  lemma GappedConcat(a: seq<Chunk>, b: seq<Chunk>)
    requires Gapped(a) && Gapped(b)
    requires forall i, j :: 0 <= i < |a| && 0 <= j < |b| ==> a[i].addr + a[i].size < b[j].addr
    ensures Gapped(a + b)
  {
  }

  lemma JoinGapped(b: Chunk, rest: seq<Chunk>)
    requires Gapped(rest) && NonEmpty(rest) && From(rest, b.addr + b.size)
    ensures Gapped(Join(b, rest)) && From(Join(b, rest), b.addr)
    ensures b.size > 0 ==> NonEmpty(Join(b, rest))
    ensures Join(b, rest)[0].addr == b.addr && Join(b, rest)[0].size >= b.size
  {
    if rest == [] {
    } else if b.addr + b.size == rest[0].addr {
      var m := Chunk(b.addr, b.size + rest[0].size);
      assert forall j :: 0 <= j < |rest[1..]| ==> rest[1..][j] == rest[j + 1];
      GappedConcat([m], rest[1..]);
    } else {
      assert forall j :: 0 < j < |rest| ==> rest[0].addr < rest[j].addr;
      GappedConcat([b], rest);
    }
  }

  /** Merging touching blocks neither adds nor loses a unit. */
  lemma JoinUnits(b: Chunk, rest: seq<Chunk>, u: nat)
    ensures InFree(Join(b, rest), u) <==> Has(b, u) || InFree(rest, u)
  {
    var r := Join(b, rest);
    if InFree(r, u) {
      var i :| 0 <= i < |r| && Has(r[i], u);
      if i > 0 {
        assert r[i] == rest[if |r| == |rest| then i else i - 1];
      } else if |r| == |rest| && !Has(b, u) {
        assert Has(rest[0], u);
      }
    }
    if Has(b, u) {
      assert Has(r[0], u);
    }
    if InFree(rest, u) {
      var i :| 0 <= i < |rest| && Has(rest[i], u);
      assert Has(r[if |r| == |rest| then i else i + 1], u);
    }
  }

  lemma ConcatUnits(a: seq<Chunk>, b: seq<Chunk>, u: nat)
    ensures InFree(a + b, u) <==> InFree(a, u) || InFree(b, u)
  {
    if InFree(a + b, u) {
      var i :| 0 <= i < |a + b| && Has((a + b)[i], u);
      assert if i < |a| then Has(a[i], u) else Has(b[i - |a|], u);
    }
    if InFree(a, u) {
      var i :| 0 <= i < |a| && Has(a[i], u);
      assert Has((a + b)[i], u);
    }
    if InFree(b, u) {
      var i :| 0 <= i < |b| && Has(b[i], u);
      assert Has((a + b)[|a| + i], u);
    }
  }

  /** Inserting gains exactly the block's units. */
  lemma InsertUnits(fl: seq<Chunk>, k: nat, b: Chunk, u: nat)
    requires k < |fl|
    ensures InFree(InsertAt(fl, k, b), u) <==> InFree(fl, u) || Has(b, u)
  {
    var tail := fl[k + 1..];
    JoinUnits(b, tail, u);
    JoinUnits(fl[k], Join(b, tail), u);
    ConcatUnits(fl[..k], Join(fl[k], Join(b, tail)), u);
    ConcatUnits(fl[..k], [fl[k]] + tail, u);
    ConcatUnits([fl[k]], tail, u);
    assert fl == fl[..k] + ([fl[k]] + tail);
    assert [fl[k]][0] == fl[k];
  }

  /** Inserting a block that is apart from all free ones keeps the list ordered and coalesced. */
  lemma InsertKeepsOrder(fl: seq<Chunk>, k: nat, b: Chunk)
    requires ListOk(fl) && b.size > 0 && Before(fl, b.addr, k)
    requires forall i :: 0 <= i < |fl| ==> Apart(fl[i], b)
    ensures ListOk(InsertAt(fl, k, b))
    ensures |InsertAt(fl, k, b)| > k && InsertAt(fl, k, b)[k].addr == fl[k].addr
  {
    hide Gapped, Join;
    var tail := fl[k + 1..];
    TailAbove(fl, k, b);
    JoinGapped(b, tail);
    var rest := Join(b, tail);
    JoinGapped(fl[k], rest);
    var r := Join(fl[k], rest);
    PrefixBelow(fl, k);
    GappedConcat(fl[..k], r);
    if k == 0 {
      JoinBase(rest);
      assert fl[..k] + r == [fl[0]] + rest;
      assert (fl[..k] + r)[1..] == rest;
    } else {
      assert (fl[..k] + r)[1..] == fl[1..k] + r;
    }
  }

  lemma JoinBase(rest: seq<Chunk>)
    requires rest != [] && rest[0].addr > BASE
    ensures Join(Chunk(BASE, 0), rest) == [Chunk(BASE, 0)] + rest
  {
  }

  lemma PrefixBelow(fl: seq<Chunk>, k: nat)
    requires ListOk(fl) && k < |fl|
    ensures Gapped(fl[..k])
    ensures forall i :: 0 <= i < k ==> fl[..k][i].addr + fl[..k][i].size < fl[k].addr
    ensures 0 < k ==> NonEmpty(fl[1..k]) && fl[k].size > 0
  {
    assert forall i :: 0 < i < |fl| ==> fl[i] == fl[1..][i - 1];
  }

  lemma TailAbove(fl: seq<Chunk>, k: nat, b: Chunk)
    requires ListOk(fl) && b.size > 0 && Before(fl, b.addr, k)
    requires forall i :: 0 <= i < |fl| ==> Apart(fl[i], b)
    ensures fl[k].addr + fl[k].size <= b.addr
    ensures Gapped(fl[k + 1..]) && NonEmpty(fl[k + 1..]) && From(fl[k + 1..], b.addr + b.size)
  {
    var tail := fl[k + 1..];
    forall i | 0 <= i < |tail|
      ensures tail[i].addr >= b.addr + b.size
    {
      assert tail[i] == fl[k + 1 + i] && Apart(fl[k + 1 + i], b);
    }
  }

  // ---- The operations ----

  /** free: the block goes back to the list. */
  ghost function Freed(h: Heap, a: nat): Heap
    requires |h.fl| > 0 && h.fl[0].addr < a && a in h.live
  {
    Heap(InsertAt(h.fl, Position(h.fl, a), Chunk(a, h.live[a])), h.live - {a}, h.obtained)
  }

  lemma FreedKeepsInv(h: Heap, a: nat)
    requires Inv(h) && a in h.live
    ensures Inv(Freed(h, a))
  {
    var b, k, g := Chunk(a, h.live[a]), Position(h.fl, a), Freed(h, a);
    InsertKeepsOrder(h.fl, k, b);
    forall c, i | c in g.live && 0 <= i < |g.fl|
      ensures Apart(g.fl[i], Chunk(c, g.live[c]))
    {
      ApartFromUnits(h, a, c, i);
    }
    forall u: nat
      ensures u in g.obtained <==> InFree(g.fl, u) || InLive(g.live, u)
    {
      InsertUnits(h.fl, k, b, u);
      if InLive(h.live, u) {
        var c :| c in h.live && Has(Chunk(c, h.live[c]), u);
        assert c == a || c in g.live;
      }
    }
  }

  lemma ApartWhenNothingShared(a: Chunk, b: Chunk)
    requires a.size > 0 && b.size > 0
    requires forall u: nat :: Has(a, u) ==> !Has(b, u)
    ensures Apart(a, b)
  {
    assert Has(a, a.addr) && Has(b, b.addr);
  }

  /** A live block stays apart from a merged one: it shares no unit with either part. */
  lemma ApartFromUnits(h: Heap, a: nat, c: nat, i: nat)
    requires Inv(h) && a in h.live && c in h.live && c != a
    requires i < |Freed(h, a).fl|
    ensures Apart(Freed(h, a).fl[i], Chunk(c, h.live[c]))
  {
    var b, k := Chunk(a, h.live[a]), Position(h.fl, a);
    var f, l := Freed(h, a).fl, Chunk(c, h.live[c]);
    InsertKeepsOrder(h.fl, k, b);
    hide InsertAt, Gapped;
    forall u: nat | Has(f[i], u)
      ensures !Has(l, u)
    {
      assert InFree(f, u);
      InsertUnits(h.fl, k, b, u);
      if !Has(b, u) {
        var j :| 0 <= j < |h.fl| && Has(h.fl[j], u);
        assert Apart(h.fl[j], l);
      }
    }
    if i > 0 {
      ApartWhenNothingShared(f[i], l);
    }
  }

  /** malloc: `n` units off the far end of free block `k`, or all of it. */
  function TakeAt(fl: seq<Chunk>, k: nat, n: nat): seq<Chunk>
    requires k < |fl| && n <= fl[k].size
  {
    if fl[k].size == n then fl[..k] + fl[k + 1..] else fl[k := Chunk(fl[k].addr, fl[k].size - n)]
  }

  function TakenAddr(fl: seq<Chunk>, k: nat, n: nat): nat
    requires k < |fl| && n <= fl[k].size
  {
    fl[k].addr + (fl[k].size - n)
  }

  function Taken(h: Heap, k: nat, n: nat): Heap
    requires k < |h.fl| && n <= h.fl[k].size
  {
    Heap(TakeAt(h.fl, k, n), h.live[TakenAddr(h.fl, k, n) := n], h.obtained)
  }

  /** The block each remaining block is, or is the front part of. */
  function TakeFrom(fl: seq<Chunk>, k: nat, n: nat, i: nat): nat
    requires k < |fl|
  {
    if fl[k].size == n && i >= k then i + 1 else i
  }

  lemma TakeBlock(fl: seq<Chunk>, k: nat, n: nat, i: nat)
    requires k < |fl| && n <= fl[k].size && i < |TakeAt(fl, k, n)|
    ensures var j, c := TakeFrom(fl, k, n, i), TakeAt(fl, k, n)[i];
            j < |fl| && c.addr == fl[j].addr && c.size == if j == k then fl[k].size - n else fl[j].size
  {
  }

  lemma TakeKeepsOrder(fl: seq<Chunk>, k: nat, n: nat)
    requires ListOk(fl) && 0 < k < |fl| && 0 < n <= fl[k].size
    ensures ListOk(TakeAt(fl, k, n))
  {
    var r := TakeAt(fl, k, n);
    TakeBlock(fl, k, n, 0);
    hide TakeAt;
    forall i | 0 <= i < |r[1..]| ensures r[1..][i].size > 0 {
      TakeBlock(fl, k, n, i + 1);
      var j := TakeFrom(fl, k, n, i + 1);
      assert fl[j] == fl[1..][j - 1];
    }
    forall i, j | 0 <= i < j < |r| ensures r[i].addr + r[i].size < r[j].addr {
      TakeBlock(fl, k, n, i);
      TakeBlock(fl, k, n, j);
    }
  }

  /** A unit of the list is either still free or in the block taken. */
  lemma TakeUnits(fl: seq<Chunk>, k: nat, n: nat, u: nat)
    requires k < |fl| && 0 < n <= fl[k].size
    ensures InFree(fl, u) <==> InFree(TakeAt(fl, k, n), u) || Has(Chunk(TakenAddr(fl, k, n), n), u)
  {
    var r, c := TakeAt(fl, k, n), Chunk(TakenAddr(fl, k, n), n);
    if InFree(fl, u) && !Has(c, u) {
      var i :| 0 <= i < |fl| && Has(fl[i], u);
      var j := if |r| < |fl| && i > k then i - 1 else i;
      assert Has(r[j], u);
    }
    if InFree(r, u) {
      var i :| 0 <= i < |r| && Has(r[i], u);
      var j := if |r| < |fl| && i >= k then i + 1 else i;
      assert Has(fl[j], u);
    }
    if Has(c, u) {
      assert Has(fl[k], u);
    }
  }

  lemma TakenListApart(h: Heap, k: nat, n: nat, a: nat, i: nat)
    requires Inv(h) && k < |h.fl| && n <= h.fl[k].size && a in h.live && i < |TakeAt(h.fl, k, n)|
    ensures Apart(TakeAt(h.fl, k, n)[i], Chunk(a, h.live[a]))
  {
    hide TakeAt, ListOk, InFree, InLive;
    TakeBlock(h.fl, k, n, i);
    assert Apart(h.fl[TakeFrom(h.fl, k, n, i)], Chunk(a, h.live[a]));
  }

  lemma TakenKeepsInv(h: Heap, k: nat, n: nat)
    requires Inv(h) && 0 < k < |h.fl| && 0 < n <= h.fl[k].size
    ensures TakenAddr(h.fl, k, n) !in h.live
    ensures Inv(Taken(h, k, n))
  {
    hide ListOk, TakeAt, InFree, InLive;
    var g, q := Taken(h, k, n), TakenAddr(h.fl, k, n);
    var c := Chunk(q, n);
    TakeKeepsOrder(h.fl, k, n);
    StartsAfterBase(h.fl, k);
    forall a | a in h.live
      ensures Apart(c, Chunk(a, h.live[a])) && a != q
    {
      assert Apart(h.fl[k], Chunk(a, h.live[a]));
    }
    forall a, i | a in g.live && 0 <= i < |g.fl|
      ensures Apart(g.fl[i], Chunk(a, g.live[a]))
    {
      if a != q {
        TakenListApart(h, k, n, a, i);
      } else {
        TakenApart(h.fl, k, n, i);
      }
    }
    forall u: nat
      ensures u in g.obtained <==> InFree(g.fl, u) || InLive(g.live, u)
    {
      TakeUnits(h.fl, k, n, u);
      LiveUnits(h.live, q, n, u);
    }
  }

  lemma StartsAfterBase(fl: seq<Chunk>, k: nat)
    requires ListOk(fl) && 0 < k < |fl|
    ensures fl[k].addr > BASE
  {
  }

  lemma TakenApart(fl: seq<Chunk>, k: nat, n: nat, i: nat)
    requires ListOk(fl) && 0 < k < |fl| && 0 < n <= fl[k].size && i < |TakeAt(fl, k, n)|
    ensures Apart(TakeAt(fl, k, n)[i], Chunk(TakenAddr(fl, k, n), n))
  {
    hide TakeAt;
    TakeBlock(fl, k, n, i);
  }

  lemma LiveUnits(live: map<nat, nat>, q: nat, n: nat, u: nat)
    requires q !in live
    ensures InLive(live[q := n], u) <==> InLive(live, u) || Has(Chunk(q, n), u)
  {
    var m := live[q := n];
    if InLive(live, u) {
      var a :| a in live && Has(Chunk(a, live[a]), u);
      assert a in m && m[a] == live[a];
    }
    if Has(Chunk(q, n), u) {
      assert q in m;
    }
  }

  /** The units of one block. */
  ghost function UnitsOf(c: Chunk): (r: set<nat>)
    ensures forall u: nat :: u in r <==> Has(c, u)
    ensures |r| == c.size
    decreases c.size
  {
    if c.size == 0 then {} else UnitsOf(Chunk(c.addr, c.size - 1)) + {c.addr + c.size - 1}
  }

  /** sbrk: fresh memory, made to look like one live block. */
  ghost function Grown(h: Heap, a: nat, n: nat): Heap {
    Heap(h.fl, h.live[a := n], h.obtained + UnitsOf(Chunk(a, n)))
  }

  ghost predicate Fresh(h: Heap, a: nat, n: nat) {
    a > BASE && n > 0 && forall u: nat :: a <= u < a + n ==> u !in h.obtained
  }

  lemma FreshIsApart(h: Heap, a: nat, n: nat, b: Chunk)
    requires Fresh(h, a, n) && b.size > 0 && forall u: nat :: Has(b, u) ==> u in h.obtained
    ensures Apart(b, Chunk(a, n)) && b.addr != a
  {
    forall u: nat | Has(b, u)
      ensures !Has(Chunk(a, n), u)
    {
    }
    ApartWhenNothingShared(b, Chunk(a, n));
  }

  lemma GrownKeepsInv(h: Heap, a: nat, n: nat)
    requires Inv(h) && Fresh(h, a, n)
    ensures a !in h.live && Inv(Grown(h, a, n))
  {
    hide ListOk, UnitsOf, Fresh, InFree, InLive;
    var g, c := Grown(h, a, n), Chunk(a, n);
    assert a > BASE && n > 0 by { FreshPositive(h, a, n); }
    forall i | 0 <= i < |h.fl|
      ensures Apart(h.fl[i], c)
    {
      FreshFromFree(h, a, n, i);
    }
    forall b | b in h.live
      ensures Apart(Chunk(b, h.live[b]), c) && b != a
    {
      FreshFromLive(h, a, n, b);
    }
    forall u: nat
      ensures u in g.obtained <==> InFree(g.fl, u) || InLive(g.live, u)
    {
      LiveUnits(h.live, a, n, u);
    }
  }

  lemma FreshFromFree(h: Heap, a: nat, n: nat, i: nat)
    requires Inv(h) && Fresh(h, a, n) && i < |h.fl|
    ensures Apart(h.fl[i], Chunk(a, n))
  {
    hide Gapped, InLive;
    if i > 0 {
      assert h.fl[i] == h.fl[1..][i - 1];
      assert forall u: nat :: Has(h.fl[i], u) ==> InFree(h.fl, u);
      hide Fresh;
      FreshIsApart(h, a, n, h.fl[i]);
    }
  }

  lemma FreshFromLive(h: Heap, a: nat, n: nat, b: nat)
    requires Inv(h) && Fresh(h, a, n) && b in h.live
    ensures Apart(Chunk(b, h.live[b]), Chunk(a, n)) && b != a
  {
    hide ListOk, InFree, Fresh;
    assert forall u: nat :: Has(Chunk(b, h.live[b]), u) ==> InLive(h.live, u);
    FreshIsApart(h, a, n, Chunk(b, h.live[b]));
  }

  lemma FreshPositive(h: Heap, a: nat, n: nat)
    requires Fresh(h, a, n)
    ensures a > BASE && n > 0
  {
  }

  // ---- Runs ----

  const EMPTY := Heap([Chunk(BASE, 0)], map[], {})

  datatype Op = Malloc(k: nat, n: nat) | Free(a: nat) | MoreCore(a: nat, n: nat)

  ghost predicate Enabled(h: Heap, op: Op) {
    match op
    case Malloc(k, n) => 0 < k < |h.fl| && 0 < n <= h.fl[k].size
    case Free(a) => a in h.live && |h.fl| > 0 && h.fl[0].addr < a
    case MoreCore(a, n) => Fresh(h, a, n) && |h.fl| > 0 && h.fl[0].addr < a
  }

  ghost function Apply(h: Heap, op: Op): Heap
    requires Enabled(h, op)
  {
    match op
    case Malloc(k, n) => Taken(h, k, n)
    case Free(a) => Freed(h, a)
    case MoreCore(a, n) => Freed(Grown(h, a, n), a)
  }

  lemma ApplyKeepsInv(h: Heap, op: Op)
    requires Inv(h) && Enabled(h, op)
    ensures Inv(Apply(h, op))
  {
    match op
    case Malloc(k, n) => TakenKeepsInv(h, k, n);
    case Free(a) => FreedKeepsInv(h, a);
    case MoreCore(a, n) =>
      GrownKeepsInv(h, a, n);
      FreedKeepsInv(Grown(h, a, n), a);
  }

  /** A run: any sequence of mallocs, frees and sbrks from the empty heap. */
  ghost predicate Reaches(hs: seq<Heap>, ops: seq<Op>) {
    && |hs| == |ops| + 1
    && hs[0] == EMPTY
    && forall i :: 0 <= i < |ops| ==> Steps(hs[i], ops[i], hs[i + 1])
  }

  ghost predicate Steps(h: Heap, op: Op, g: Heap) {
    Enabled(h, op) && g == Apply(h, op)
  }

  /** The list stays circular, ordered and coalesced, and the blocks disjoint, in every run. */
  lemma {:induction false} RunKeepsInv(hs: seq<Heap>, ops: seq<Op>)
    requires Reaches(hs, ops)
    ensures Inv(hs[|ops|])
  {
    if ops == [] {
      EmptyInv();
    } else {
      var n := |ops| - 1;
      RunKeepsInv(hs[..n + 1], ops[..n]);
      assert Steps(hs[n], ops[n], hs[n + 1]);
      ApplyKeepsInv(hs[n], ops[n]);
    }
  }

  lemma EmptyInv()
    ensures Inv(EMPTY)
  {
    assert forall u: nat :: !InFree(EMPTY.fl, u) && !InLive(EMPTY.live, u);
  }

  // ---- Conservation ----

  /** Total size of a list of blocks. */
  function Sum(s: seq<Chunk>): nat {
    if s == [] then 0 else Sum(s[..|s| - 1]) + s[|s| - 1].size
  }

  lemma LastUnits(s: seq<Chunk>, u: nat)
    requires Gapped(s) && s != []
    ensures var n := |s| - 1;
            && (InFree(s, u) <==> InFree(s[..n], u) || Has(s[n], u))
            && (InFree(s[..n], u) ==> !Has(s[n], u))
  {
    var n := |s| - 1;
    assert s == s[..n] + [s[n]] && [s[n]][0] == s[n];
    ConcatUnits(s[..n], [s[n]], u);
    if InFree(s[..n], u) {
      var i :| 0 <= i < n && Has(s[..n][i], u);
      assert s[i].addr + s[i].size < s[n].addr;
    }
  }

  lemma {:induction false} SumIsUnits(s: seq<Chunk>, us: set<nat>)
    requires Gapped(s) && forall u: nat :: u in us <==> InFree(s, u)
    ensures |us| == Sum(s)
  {
    if s == [] {
      assert us == {};
    } else {
      hide UnitsOf, InFree, Has;
      var n := |s| - 1;
      var last := UnitsOf(s[n]);
      forall u: nat
        ensures u in us <==> InFree(s[..n], u) || u in last
        ensures InFree(s[..n], u) ==> u !in last
      {
        LastUnits(s, u);
      }
      assert us == (us - last) + last;
      SumIsUnits(s[..n], us - last);
    }
  }

  ghost function Pick(m: map<nat, nat>): (a: nat)
    requires m != map[]
    ensures a in m
  {
    var a :| a in m;
    a
  }

  /** Total size of the live blocks. */
  ghost function LiveSum(m: map<nat, nat>): nat
    decreases |m|
  {
    if m == map[] then 0 else LiveSum(m - {Pick(m)}) + m[Pick(m)]
  }

  ghost predicate LiveApart(m: map<nat, nat>) {
    forall a, b :: a in m && b in m && a != b ==> Apart(Chunk(a, m[a]), Chunk(b, m[b]))
  }

  lemma RestApart(m: map<nat, nat>, a: nat, u: nat)
    requires a in m && LiveApart(m)
    ensures LiveApart(m - {a})
    ensures InLive(m - {a}, u) ==> !Has(Chunk(a, m[a]), u)
  {
    if InLive(m - {a}, u) {
      var b :| b in m - {a} && Has(Chunk(b, (m - {a})[b]), u);
      assert Apart(Chunk(b, m[b]), Chunk(a, m[a]));
    }
  }

  lemma Smaller(m: map<nat, nat>, a: nat)
    requires a in m
    ensures |m - {a}| < |m| && m == (m - {a})[a := m[a]]
  {
    assert (m - {a}).Keys == m.Keys - {a};
    assert |(m - {a}).Keys| == |m - {a}| && |m.Keys| == |m|;
  }

  lemma SplitCount(us: set<nat>, mine: set<nat>)
    requires mine <= us
    ensures |us| == |us - mine| + |mine|
  {
    assert us == (us - mine) + mine;
  }

  lemma {:induction false} LiveSumIsUnits(m: map<nat, nat>, us: set<nat>)
    requires LiveApart(m) && forall u: nat :: u in us <==> InLive(m, u)
    ensures |us| == LiveSum(m)
    decreases |m|
  {
    if m == map[] {
      assert us == {};
    } else {
      hide UnitsOf, LiveApart, InLive, Has;
      var a := Pick(m);
      var rest := m - {a};
      var mine := UnitsOf(Chunk(a, m[a]));
      Smaller(m, a);
      forall u: nat
        ensures u in us <==> InLive(rest, u) || u in mine
        ensures InLive(rest, u) ==> u !in mine
      {
        LiveUnits(rest, a, m[a], u);
        RestApart(m, a, u);
      }
      SplitCount(us, mine);
      RestApart(m, a, 0);
      LiveSumIsUnits(rest, us - mine);
    }
  }

  /** Free and live units add up to what sbrk gave. */
  lemma Conservation(h: Heap)
    requires Inv(h)
    ensures |h.obtained| == Sum(h.fl) + LiveSum(h.live)
  {
    var free := set u | u in h.obtained && InFree(h.fl, u);
    var used := set u | u in h.obtained && InLive(h.live, u);
    forall u | u in free
      ensures u !in used
    {
      var i :| 0 <= i < |h.fl| && Has(h.fl[i], u);
      forall a | a in h.live
        ensures !Has(Chunk(a, h.live[a]), u)
      {
        assert Apart(h.fl[i], Chunk(a, h.live[a]));
      }
    }
    assert h.obtained == free + used;
    SumIsUnits(h.fl, free);
    LiveSumIsUnits(h.live, used);
  }
}
