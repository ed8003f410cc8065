/** The split virtqueue of the disk driver (kernel/virtio_disk.c; sections 2.6 and 5.2 of VirtIO 1.1)
    as a state machine: the driver submits, interrupts and frees under its lock, and the device
    fetches and completes requests in any order in between. */
module VirtioQueue {
  import opened Common
  import opened Blocks

  const NUM := 8
  const WRAP := 65536

  /** What a descriptor points at: a command header, a buffer's data, a status byte. */
  datatype Place = Nowhere | Header(i: nat) | Data(b: nat) | Status(i: nat)

  /** `more` and `write` are the two flag bits. */
  datatype Desc = Desc(addr: Place, len: nat, more: bool, write: bool, next: nat)

  const CLEAR := Desc(Nowhere, 0, false, false, 0)

  datatype Op = Op(write: bool, sector: nat)

  datatype Info = Info(owner: Option<nat>, status: nat)

  /** A request from its submission until its descriptors are freed. */
  datatype Chain = Chain(mid: nat, last: nat, buf: nat, blockno: nat, write: bool)

  /** The shared memory, then bookkeeping: the chains by head descriptor, and which of them are
      waiting for the device, with the device, reported by the device, seen by the driver. */
  datatype Queue = Queue(
    free: seq<bool>, desc: seq<Desc>, ops: seq<Op>, info: seq<Info>,
    avail: seq<nat>, availIdx: nat, used: seq<nat>, usedIdx: nat, seen: nat,
    busy: set<nat>,
    fetched: nat, chains: map<nat, Chain>, queued: seq<nat>, working: set<nat>, reported: seq<nat>, done: set<nat>)

  // ---- Invariant ----

  function Triple(h: nat, c: Chain): set<nat> { {h, c.mid, c.last} }

  function Sector(blockno: nat): nat { blockno * 2 % 0x1_0000_0000 }

  /** The three descriptors of a chain as virtio_disk_rw formats them. */
  ghost predicate Formatted(desc: seq<Desc>, ops: seq<Op>, info: seq<Info>, h: nat, c: Chain) {
    && |desc| == |ops| == |info| == NUM && h < NUM && c.mid < NUM && c.last < NUM
    && h != c.mid && h != c.last && c.mid != c.last
    && ops[h] == Op(c.write, Sector(c.blockno))
    && desc[h] == Desc(Header(h), 16, true, false, c.mid)
    && desc[c.mid] == Desc(Data(c.buf), 1024, true, !c.write, c.last)
    && desc[c.last] == Desc(Status(h), 1, false, true, 0)
    && info[h].owner == Some(c.buf)
  }

  ghost predicate Sized(q: Queue) {
    && |q.free| == |q.desc| == |q.ops| == |q.info| == |q.avail| == |q.used| == NUM
    && q.availIdx < WRAP && q.usedIdx < WRAP && q.seen < WRAP && q.fetched < WRAP
  }

  ghost predicate ChainsOk(q: Queue) {
    && (forall h :: h in q.chains ==> Formatted(q.desc, q.ops, q.info, h, q.chains[h]))
    && (forall g, h :: g in q.chains && h in q.chains && g != h ==> Triple(g, q.chains[g]) !! Triple(h, q.chains[h]))
    && (forall g, h :: g in q.chains && h in q.chains && g != h ==> q.chains[g].buf != q.chains[h].buf)
  }

  ghost predicate InChain(chains: map<nat, Chain>, i: nat) {
    exists h :: h in chains && i in Triple(h, chains[h])
  }

  /** A descriptor is free exactly when it is in no chain, and then it is cleared. */
  ghost predicate FreeOk(q: Queue) {
    |q.free| == |q.desc| == NUM &&
    forall i :: 0 <= i < NUM ==> (q.free[i] <==> !InChain(q.chains, i)) && (q.free[i] ==> q.desc[i] == CLEAR)
  }

  /** Every request is at exactly one stage. */
  ghost predicate StagesOk(q: Queue) {
    && Distinct(q.queued) && Distinct(q.reported)
    && (forall h :: h in q.chains <==> h in q.queued || h in q.working || h in q.reported || h in q.done)
    && (forall h :: h in q.queued ==> h !in q.working && h !in q.reported && h !in q.done)
    && (forall h :: h in q.working ==> h !in q.reported && h !in q.done)
    && (forall h :: h in q.reported ==> h !in q.done)
  }

  /** The ring holds exactly the pending heads, between the two 16-bit indices. */
  ghost predicate RingHolds(ring: seq<nat>, from: nat, to: nat, pending: seq<nat>) {
    && |ring| == NUM && |pending| < NUM
    && to == (from + |pending|) % WRAP
    && forall k :: 0 <= k < |pending| ==> ring[(from + k) % NUM] == pending[k]
  }

  /** A buffer is marked busy exactly while its request is not yet seen to be finished. */
  ghost predicate BusyOk(q: Queue) {
    forall b :: b in q.busy <==> exists h :: h in q.chains && h !in q.done && q.chains[h].buf == b
  }

  ghost predicate Inv(q: Queue) {
    && Sized(q) && ChainsOk(q) && FreeOk(q) && StagesOk(q) && BusyOk(q)
    && RingHolds(q.avail, q.fetched, q.availIdx, q.queued)
    && RingHolds(q.used, q.seen, q.usedIdx, q.reported)
  }

  // ---- Counting ----


  ghost function FreeSet(free: seq<bool>): set<nat> {
    set i: nat | i in Indices(|free|) && free[i]
  }

  ghost predicate InRange(h: nat, c: Chain) {
    h < NUM && c.mid < NUM && c.last < NUM && h != c.mid && h != c.last && c.mid != c.last
  }

  /** Chains of three distinct descriptors each, pairwise disjoint. */
  ghost predicate Separate(chains: map<nat, Chain>) {
    && (forall h :: h in chains ==> InRange(h, chains[h]))
    && (forall g, h :: g in chains && h in chains && g != h ==> Triple(g, chains[g]) !! Triple(h, chains[h]))
  }

  ghost function Members(chains: map<nat, Chain>): set<nat> {
    set i: nat | i in Indices(NUM) && InChain(chains, i)
  }

  lemma InChainSplit(chains: map<nat, Chain>, h: nat, i: nat)
    requires h in chains
    ensures InChain(chains, i) <==> InChain(chains - {h}, i) || i in Triple(h, chains[h])
  {
    hide Triple;
    var rest := chains - {h};
    if InChain(chains, i) {
      var g :| g in chains && i in Triple(g, chains[g]);
      assert g != h ==> g in rest && rest[g] == chains[g];
    }
    if InChain(rest, i) {
      var g :| g in rest && i in Triple(g, rest[g]);
      assert g in chains && rest[g] == chains[g];
    }
  }

  lemma Apart(chains: map<nat, Chain>, h: nat, i: nat)
    requires Separate(chains) && h in chains && i in Triple(h, chains[h])
    ensures !InChain(chains - {h}, i)
  {
    hide Triple;
    var rest := chains - {h};
    forall g | g in rest ensures i !in Triple(g, rest[g]) {
      assert g in chains && rest[g] == chains[g] && g != h;
      assert Triple(g, chains[g]) !! Triple(h, chains[h]);
    }
  }

  lemma TripleCount(h: nat, c: Chain)
    requires InRange(h, c)
    ensures |Triple(h, c)| == 3 && forall i :: i in Triple(h, c) ==> i in Indices(NUM)
  {
    assert {h, c.mid, c.last} - {h} == {c.mid, c.last} && {c.mid, c.last} - {c.mid} == {c.last};
  }

  lemma {:induction false} MembersCount(chains: map<nat, Chain>)
    requires Separate(chains)
    ensures |Members(chains)| == 3 * |chains|
    decreases |chains|
  {
    hide InChain, Triple, InRange, Indices;
    if h :| h in chains {
      var rest := chains - {h};
      assert |rest| == |chains| - 1 by {
        assert rest.Keys == chains.Keys - {h};
        assert |rest.Keys| == |chains.Keys| - 1 && |rest| == |rest.Keys| && |chains| == |chains.Keys|;
      }
      MembersCount(rest);
      var t := Triple(h, chains[h]);
      TripleCount(h, chains[h]);
      assert Members(chains) == Members(rest) + t by {
        forall i: nat ensures i in Members(chains) <==> i in Members(rest) + t {
          InChainSplit(chains, h, i);
        }
      }
      assert Members(rest) !! t by {
        forall i | i in t ensures i !in Members(rest) {
          Apart(chains, h, i);
        }
      }
    } else {
      NoMembers(chains);
    }
  }

  lemma NoMembers(chains: map<nat, Chain>)
    requires forall h :: h !in chains
    ensures Members(chains) == {} && |chains| == 0
  {
    assert chains == map[];
  }

  lemma InvSeparate(q: Queue)
    requires ChainsOk(q)
    ensures Separate(q.chains)
  {
  }

  /** Free descriptors plus three for every request that has not been freed make up the queue. */
  lemma Conservation(q: Queue)
    requires Inv(q)
    ensures |FreeSet(q.free)| + 3 * |q.chains| == NUM
  {
    hide InChain, Triple, Indices, Separate, RingHolds, StagesOk, BusyOk, ChainsOk;
    InvSeparate(q);
    MembersCount(q.chains);
    MembersOrFree(q);
    var m, f := Members(q.chains), FreeSet(q.free);
    assert |m + f| == |m| + |f|;
  }

  lemma MembersOrFree(q: Queue)
    requires Inv(q)
    ensures Members(q.chains) + FreeSet(q.free) == Indices(NUM) && Members(q.chains) !! FreeSet(q.free)
  {
    hide InChain, Triple, Indices, Separate, RingHolds, StagesOk, BusyOk, ChainsOk;
    forall i: nat | i in Indices(NUM) ensures i in Members(q.chains) <==> i !in FreeSet(q.free) {
      assert q.free[i] <==> !InChain(q.chains, i);
    }
  }

  // ---- Rings with 16-bit indices ----

  lemma SlotOf(from: nat, n: nat)
    ensures (from + n) % WRAP % NUM == (from + n) % NUM
    ensures ((from + n) % WRAP + 1) % WRAP == (from + n + 1) % WRAP
  {
    var q, r := (from + n) / WRAP, (from + n) % WRAP;
    assert from + n == r + NUM * (8192 * q);
    SlotOfMultiple(r, 8192 * q);
  }

  lemma SlotOfMultiple(r: nat, k: nat)
    ensures (r + NUM * k) % NUM == r % NUM
  {
  }

  lemma SlotsDiffer(from: nat, j: nat, n: nat)
    requires j < n < NUM
    ensures (from + j) % NUM != (from + n) % NUM
  {
  }

  /** A new entry overwrites no pending one, even when the index wraps. */
  lemma RingPush(ring: seq<nat>, from: nat, to: nat, pending: seq<nat>, x: nat)
    requires RingHolds(ring, from, to, pending) && |pending| + 1 < NUM
    ensures RingHolds(ring[to % NUM := x], from, (to + 1) % WRAP, pending + [x])
  {
    var n := |pending|;
    SlotOf(from, n);
    var next, more := ring[to % NUM := x], pending + [x];
    forall k | 0 <= k < |more| ensures next[(from + k) % NUM] == more[k] {
      if k < n {
        SlotsDiffer(from, k, n);
      }
    }
  }

  lemma RingPop(ring: seq<nat>, from: nat, to: nat, pending: seq<nat>)
    requires RingHolds(ring, from, to, pending) && pending != [] && from < WRAP
    ensures RingHolds(ring, (from + 1) % WRAP, to, pending[1..])
    ensures ring[from % NUM] == pending[0]
  {
    var f, rest := (from + 1) % WRAP, pending[1..];
    assert ring[(from + 0) % NUM] == pending[0];
    forall k | 0 <= k < |rest| ensures ring[(f + k) % NUM] == rest[k] {
      PopSlot(from, k);
      assert ring[(from + (k + 1)) % NUM] == pending[k + 1];
    }
    PopEnd(from, |rest|);
  }

  lemma PopSlot(from: nat, k: nat)
    requires from < WRAP
    ensures ((from + 1) % WRAP + k) % NUM == (from + (k + 1)) % NUM
  {
  }

  lemma PopEnd(from: nat, n: nat)
    requires from < WRAP
    ensures ((from + 1) % WRAP + n) % WRAP == (from + n + 1) % WRAP
  {
  }

  /** The index comparison of the driver and of the device tells exactly whether work is pending. */
  lemma PendingIffIndicesDiffer(ring: seq<nat>, from: nat, to: nat, pending: seq<nat>)
    requires RingHolds(ring, from, to, pending) && from < WRAP
    ensures from != to <==> pending != []
  {
  }


  /** At most two requests are unfreed, so neither ring ever fills. */
  lemma FewPending(q: Queue)
    requires Inv(q)
    ensures |q.chains| <= 2 && |q.queued| <= 2 && |q.reported| <= 2
  {
    hide Inv, FreeOk, ChainsOk, BusyOk, RingHolds, Distinct;
    assert StagesOk(q) by { InvStages(q); }
    Conservation(q);
    assert |q.chains.Keys| == |q.chains|;
    DistinctBound(q.queued, q.chains.Keys);
    DistinctBound(q.reported, q.chains.Keys);
  }

  lemma InvStages(q: Queue)
    requires Inv(q)
    ensures StagesOk(q)
  {
  }

  // ---- Steps ----

  /** virtio_disk_rw up to its wait, with the descriptors it allocated. */
  function Submitted(q: Queue, h: nat, c: Chain): Queue
    requires |q.free| == |q.desc| == |q.ops| == |q.info| == |q.avail| == NUM && h < NUM && c.mid < NUM && c.last < NUM
  {
    q.(free := q.free[h := false][c.mid := false][c.last := false],
       ops := q.ops[h := Op(c.write, Sector(c.blockno))],
       desc := q.desc[h := Desc(Header(h), 16, true, false, c.mid)]
                     [c.mid := Desc(Data(c.buf), 1024, true, !c.write, c.last)]
                     [c.last := Desc(Status(h), 1, false, true, 0)],
       info := q.info[h := Info(Some(c.buf), 0xff)],
       avail := q.avail[q.availIdx % NUM := h],
       availIdx := (q.availIdx + 1) % WRAP,
       busy := q.busy + {c.buf},
       chains := q.chains[h := c],
       queued := q.queued + [h])
  }

  /** The device takes the next available head. */
  function Fetched(q: Queue): Queue
    requires |q.avail| == NUM && q.queued != []
  {
    q.(fetched := (q.fetched + 1) % WRAP, queued := q.queued[1..], working := q.working + {q.avail[q.fetched % NUM]})
  }

  /** The device reports a request, in whatever order it likes. */
  function Completed(q: Queue, h: nat, status: nat): Queue
    requires |q.info| == |q.used| == NUM && h < NUM
  {
    q.(info := q.info[h := q.info[h].(status := status)],
       used := q.used[q.usedIdx % NUM := h],
       usedIdx := (q.usedIdx + 1) % WRAP,
       working := q.working - {h},
       reported := q.reported + [h])
  }

  /** One round of virtio_disk_intr's loop. */
  function Seen(q: Queue): Queue
    requires |q.used| == |q.info| == NUM && q.reported != [] && q.used[q.seen % NUM] < NUM
    requires q.info[q.used[q.seen % NUM]].owner.Some?
  {
    var id := q.used[q.seen % NUM];
    q.(busy := q.busy - {q.info[id].owner.value},
       seen := (q.seen + 1) % WRAP,
       reported := q.reported[1..],
       done := q.done + {id})
  }

  /** virtio_disk_rw from its wait to its end. */
  function Freed(q: Queue, h: nat): Queue
    requires |q.free| == |q.desc| == |q.info| == NUM && h in q.chains && h < NUM
    requires q.chains[h].mid < NUM && q.chains[h].last < NUM
  {
    var c := q.chains[h];
    q.(free := q.free[h := true][c.mid := true][c.last := true],
       desc := q.desc[h := CLEAR][c.mid := CLEAR][c.last := CLEAR],
       info := q.info[h := q.info[h].(owner := None)],
       chains := q.chains - {h},
       done := q.done - {h})
  }

  // ---- Submitting ----

  /** The descriptors are free and the caller's buffer has no request of its own yet: the caller
      holds that buffer's sleep-lock. */
  ghost predicate CanSubmit(q: Queue, h: nat, c: Chain) {
    && InRange(h, c) && |q.free| == NUM && q.free[h] && q.free[c.mid] && q.free[c.last]
    && forall g :: g in q.chains ==> q.chains[g].buf != c.buf
  }

  /** Free descriptors belong to no chain. */
  lemma FreeIsOutside(q: Queue, i: nat, g: nat)
    requires FreeOk(q) && i < NUM && q.free[i] && g in q.chains
    ensures i !in Triple(g, q.chains[g])
  {
    assert !InChain(q.chains, i);
  }

  lemma OldChain(q: Queue, h: nat, c: Chain, g: nat)
    requires Sized(q) && ChainsOk(q) && FreeOk(q) && CanSubmit(q, h, c) && g in q.chains
    ensures var n := Submitted(q, h, c);
            g != h && Formatted(n.desc, n.ops, n.info, g, q.chains[g]) && Triple(g, q.chains[g]) !! Triple(h, c)
  {
    hide ChainsOk, FreeOk, Triple, Formatted;
    FreeIsOutside(q, h, g);
    FreeIsOutside(q, c.mid, g);
    FreeIsOutside(q, c.last, g);
    ChainBounds(q, g);
    Elsewhere(q, h, c, g);
  }

  lemma Elsewhere(q: Queue, h: nat, c: Chain, g: nat)
    requires Sized(q) && InRange(h, c) && g in q.chains && Formatted(q.desc, q.ops, q.info, g, q.chains[g])
    requires forall i :: i in [h, c.mid, c.last] ==> i !in Triple(g, q.chains[g])
    ensures var n := Submitted(q, h, c);
            g != h && Formatted(n.desc, n.ops, n.info, g, q.chains[g]) && Triple(g, q.chains[g]) !! Triple(h, c)
  {
    hide Sector;
    var l := [h, c.mid, c.last];
    assert l[0] == h && l[1] == c.mid && l[2] == c.last;
    var d := q.chains[g];
    assert h !in Triple(g, d) && c.mid !in Triple(g, d) && c.last !in Triple(g, d);
    assert g !in l && d.mid !in l && d.last !in l;
  }

  lemma SubmitChains(q: Queue, h: nat, c: Chain)
    requires Sized(q) && ChainsOk(q) && FreeOk(q) && CanSubmit(q, h, c)
    ensures ChainsOk(Submitted(q, h, c))
  {
    hide FreeOk, Formatted, Triple;
    var n := Submitted(q, h, c);
    assert Formatted(n.desc, n.ops, n.info, h, c) by { NewChain(q, h, c); }
    forall g | g in q.chains
      ensures g != h && Formatted(n.desc, n.ops, n.info, g, q.chains[g]) && Triple(g, q.chains[g]) !! Triple(h, c)
    {
      OldChain(q, h, c, g);
    }
  }

  lemma NewChain(q: Queue, h: nat, c: Chain)
    requires Sized(q) && CanSubmit(q, h, c)
    ensures var n := Submitted(q, h, c); Formatted(n.desc, n.ops, n.info, h, c)
  {
  }

  lemma SubmitFree(q: Queue, h: nat, c: Chain)
    requires Sized(q) && ChainsOk(q) && FreeOk(q) && CanSubmit(q, h, c)
    ensures FreeOk(Submitted(q, h, c))
  {
    hide Formatted;
    var n := Submitted(q, h, c);
    FreshHead(q, h);
    assert n.chains - {h} == q.chains;
    forall i | 0 <= i < NUM ensures (n.free[i] <==> !InChain(n.chains, i)) && (n.free[i] ==> n.desc[i] == CLEAR) {
      assert q.free[i] <==> !InChain(q.chains, i);
      InChainSplit(n.chains, h, i);
    }
  }

  lemma FreshHead(q: Queue, h: nat)
    requires FreeOk(q) && h < NUM && q.free[h]
    ensures h !in q.chains
  {
    if h in q.chains {
      FreeIsOutside(q, h, h);
    }
  }

  lemma SubmitStages(q: Queue, h: nat, c: Chain)
    requires Sized(q) && FreeOk(q) && StagesOk(q) && BusyOk(q) && CanSubmit(q, h, c)
    ensures StagesOk(Submitted(q, h, c)) && BusyOk(Submitted(q, h, c))
  {
    hide FreeOk;
    FreshHead(q, h);
    var n := Submitted(q, h, c);
    forall b ensures b in n.busy <==> exists g :: g in n.chains && g !in n.done && n.chains[g].buf == b {
      if b == c.buf {
        assert h in n.chains && n.chains[h].buf == b;
      } else if b in q.busy {
        var g :| g in q.chains && g !in q.done && q.chains[g].buf == b;
        assert g in n.chains && n.chains[g].buf == b;
      } else {
        assert forall g :: g in n.chains ==> g == h || n.chains[g] == q.chains[g];
      }
    }
  }

  lemma SubmitKeepsInv(q: Queue, h: nat, c: Chain)
    requires Inv(q) && CanSubmit(q, h, c)
    ensures Inv(Submitted(q, h, c))
  {
    hide ChainsOk, FreeOk, StagesOk, BusyOk, RingHolds, CanSubmit;
    assert h < NUM && c.mid < NUM && c.last < NUM by { Bounds(q, h, c); }
    SubmitChains(q, h, c);
    SubmitFree(q, h, c);
    SubmitStages(q, h, c);
    FewPending(q);
    RingPush(q.avail, q.fetched, q.availIdx, q.queued, h);
  }

  lemma Bounds(q: Queue, h: nat, c: Chain)
    requires CanSubmit(q, h, c)
    ensures h < NUM && c.mid < NUM && c.last < NUM
  {
  }

  // ---- The device ----

  lemma FetchKeepsInv(q: Queue)
    requires Inv(q) && q.fetched != q.availIdx
    ensures q.queued != [] && Inv(Fetched(q))
  {
    hide ChainsOk, FreeOk, RingHolds, BusyOk;
    PendingIffIndicesDiffer(q.avail, q.fetched, q.availIdx, q.queued);
    RingPop(q.avail, q.fetched, q.availIdx, q.queued);
    var n := Fetched(q);
    assert forall x :: x in q.queued <==> x == q.queued[0] || x in q.queued[1..];
    assert BusyOk(n) by { SameBusy(q, n); }
    assert ChainsOk(n) && FreeOk(n) by { SameChains(q, n); }
  }

  lemma SameBusy(q: Queue, n: Queue)
    requires BusyOk(q) && n.busy == q.busy && n.chains == q.chains && n.done == q.done
    ensures BusyOk(n)
  {
  }

  lemma SameChains(q: Queue, n: Queue)
    requires ChainsOk(q) && FreeOk(q) && n.chains == q.chains
    requires n.desc == q.desc && n.ops == q.ops && n.info == q.info && n.free == q.free
    ensures ChainsOk(n) && FreeOk(n)
  {
  }

  lemma CompleteChains(q: Queue, h: nat, status: nat)
    requires Sized(q) && ChainsOk(q) && FreeOk(q) && h < NUM
    ensures ChainsOk(Completed(q, h, status)) && FreeOk(Completed(q, h, status))
  {
    hide Triple, InChain;
    var n := Completed(q, h, status);
    forall g | g in q.chains ensures Formatted(n.desc, n.ops, n.info, g, q.chains[g]) {
      assert Formatted(q.desc, q.ops, q.info, g, q.chains[g]);
    }
  }

  lemma CompleteKeepsInv(q: Queue, h: nat, status: nat)
    requires Inv(q) && h in q.working
    ensures h < NUM && Inv(Completed(q, h, status))
  {
    hide FreeOk, ChainsOk, RingHolds, BusyOk;
    assert h < NUM by { ChainBounds(q, h); }
    var n := Completed(q, h, status);
    CompleteChains(q, h, status);
    FewPending(q);
    RingPush(q.used, q.seen, q.usedIdx, q.reported, h);
    assert BusyOk(n) by { SameBusy(q, n); }
  }

  lemma ChainBounds(q: Queue, h: nat)
    requires ChainsOk(q) && h in q.chains
    ensures Formatted(q.desc, q.ops, q.info, h, q.chains[h]) && InRange(h, q.chains[h])
  {
  }

  /** What the device finds by following a chain (section 5.2.6 of VirtIO 1.1): the operation and where
      on the disk, the data with its length and whether the device is to write it, the status byte. */
  datatype Request = Request(write: bool, sector: nat, data: Place, len: nat, into: bool, status: Place)

  /** None is a chain that the device cannot make sense of. */
  function Follow(q: Queue, h: nat): Option<Request>
    requires |q.desc| == |q.ops| == NUM
  {
    if h >= NUM || !q.desc[h].addr.Header? || q.desc[h].addr.i >= NUM then None else
    var head := q.desc[h];
    if head.len != 16 || head.write || !head.more || head.next >= NUM then None else
    var data := q.desc[head.next];
    if !data.more || data.next >= NUM then None else
    var status := q.desc[data.next];
    if status.len != 1 || !status.write || status.more then None else
    var op := q.ops[head.addr.i];
    Some(Request(op.write, op.sector, data.addr, data.len, data.write, status.addr))
  }

  /** In every reachable state the device finds under each published head the request that was
      submitted there: in that direction, for its own buffer of 1024 bytes and its own status byte. */
  lemma DeviceSeesTheRequest(q: Queue, h: nat)
    requires Inv(q) && (h in q.queued || h in q.working)
    ensures h in q.chains
    ensures var c := q.chains[h];
            Follow(q, h) == Some(Request(c.write, Sector(c.blockno), Data(c.buf), 1024, !c.write, Status(h)))
  {
    hide ChainsOk, FreeOk, BusyOk, RingHolds, Sector;
    ChainBounds(q, h);
  }

  // ---- Where the blocks are on the disk ----

  const SECTOR := 512

  /** The bytes of the disk that a request covers are those of its block, exactly when the block number
      is below 2^31: the product with 2 is computed in 32 bits. */
  lemma CoversItsBlockIff(q: Queue, h: nat)
    requires Inv(q) && (h in q.queued || h in q.working)
    ensures h in q.chains && Follow(q, h).Some?
    ensures var c, r := q.chains[h], Follow(q, h).value;
            c.blockno < 0x1_0000_0000 ==>
              (SECTOR * r.sector == BSIZE * c.blockno && SECTOR * r.sector + r.len == BSIZE * (c.blockno + 1) <==>
               c.blockno < 0x8000_0000)
  {
    hide Inv, Follow, Sector;
    DeviceSeesTheRequest(q, h);
    var c := q.chains[h];
    if c.blockno < 0x1_0000_0000 {
      SectorOf(c.blockno);
    }
  }

  lemma SectorOf(blockno: nat)
    requires blockno < 0x1_0000_0000
    ensures Sector(blockno) == if blockno < 0x8000_0000 then 2 * blockno else 2 * blockno - 0x1_0000_0000
  {
  }

  /** Requests for different blocks cover different bytes. */
  lemma BlocksApart(q: Queue, g: nat, h: nat)
    requires Inv(q) && (g in q.queued || g in q.working) && (h in q.queued || h in q.working)
    requires g in q.chains && h in q.chains && q.chains[g].blockno < q.chains[h].blockno < 0x8000_0000
    ensures Follow(q, g).Some? && Follow(q, h).Some?
    ensures var r, s := Follow(q, g).value, Follow(q, h).value;
            SECTOR * r.sector + r.len <= SECTOR * s.sector
  {
    CoversItsBlockIff(q, g);
    CoversItsBlockIff(q, h);
  }

  /** The disk's bytes, and the memory of the buffers. */
  datatype Store = Store(disk: seq<byte>, bufs: map<nat, seq<byte>>)

  /** What carrying out a request does. */
  ghost function Carry(s: Store, r: Request): Store
    requires r.data.Data? && r.data.b in s.bufs && |s.bufs[r.data.b]| == r.len
    requires SECTOR * r.sector + r.len <= |s.disk|
  {
    var at := SECTOR * r.sector;
    if r.write then s.(disk := s.disk[..at] + s.bufs[r.data.b] + s.disk[at + r.len..])
    else s.(bufs := s.bufs[r.data.b := s.disk[at..at + r.len]])
  }

  function BlockAt(disk: seq<byte>, b: nat): seq<byte>
    requires BSIZE * (b + 1) <= |disk|
  {
    disk[BSIZE * b..BSIZE * (b + 1)]
  }

  /** A write puts the buffer's bytes in its block and leaves every other block alone; a read brings the
      block's bytes into the buffer and leaves every other buffer and the disk alone. */
  lemma RequestIsCarriedOut(q: Queue, h: nat, s: Store, b: nat)
    requires Inv(q) && (h in q.queued || h in q.working) && h in q.chains
    requires q.chains[h].blockno < 0x8000_0000 && BSIZE * (q.chains[h].blockno + 1) <= |s.disk|
    requires q.chains[h].buf in s.bufs && |s.bufs[q.chains[h].buf]| == BSIZE && BSIZE * (b + 1) <= |s.disk|
    ensures Follow(q, h).Some? && Follow(q, h).value.data == Data(q.chains[h].buf) && Follow(q, h).value.len == BSIZE
    ensures SECTOR * Follow(q, h).value.sector + BSIZE <= |s.disk|
    ensures var c, t := q.chains[h], Carry(s, Follow(q, h).value);
            && |t.disk| == |s.disk|
            && BlockAt(t.disk, b) == (if c.write && b == c.blockno then s.bufs[c.buf] else BlockAt(s.disk, b))
            && t.bufs == if c.write then s.bufs else s.bufs[c.buf := BlockAt(s.disk, c.blockno)]
  {
    hide Inv, Follow, Sector, BlockAt;
    DeviceSeesTheRequest(q, h);
    CoversItsBlockIff(q, h);
    var c := q.chains[h];
    assert !c.write ==> s.disk[BSIZE * c.blockno..BSIZE * (c.blockno + 1)] == BlockAt(s.disk, c.blockno) by {
      BlockIs(s.disk, c.blockno);
    }
    if c.write {
      PutAt(s.disk, c.blockno, s.bufs[c.buf], b);
    }
  }

  lemma BlockIs(disk: seq<byte>, b: nat)
    requires BSIZE * (b + 1) <= |disk|
    ensures BlockAt(disk, b) == disk[BSIZE * b..BSIZE * (b + 1)]
  {
  }

  lemma PutAt(disk: seq<byte>, n: nat, data: seq<byte>, b: nat)
    requires |data| == BSIZE && BSIZE * (n + 1) <= |disk| && BSIZE * (b + 1) <= |disk|
    ensures var t := disk[..BSIZE * n] + data + disk[BSIZE * (n + 1)..];
            |t| == |disk| && BlockAt(t, b) == if b == n then data else BlockAt(disk, b)
  {
    var t := disk[..BSIZE * n] + data + disk[BSIZE * (n + 1)..];
    assert b < n || b == n || n + 1 <= b;
    forall k | 0 <= k < BSIZE ensures BlockAt(t, b)[k] == if b == n then data[k] else BlockAt(disk, b)[k] {
    }
  }

  // ---- The interrupt ----

  lemma FirstReported(q: Queue)
    requires Inv(q) && q.seen != q.usedIdx
    ensures q.reported != [] && q.used[q.seen % NUM] == q.reported[0] && q.reported[0] in q.chains
    ensures var h := q.reported[0];
            h < NUM && q.info[h].owner == Some(q.chains[h].buf) && q.chains[h].buf in q.busy && h !in q.done
  {
    hide ChainsOk, FreeOk, RingHolds;
    PendingIffIndicesDiffer(q.used, q.seen, q.usedIdx, q.reported);
    RingPop(q.used, q.seen, q.usedIdx, q.reported);
    var h := q.reported[0];
    assert h in q.reported;
    ChainBounds(q, h);
  }

  /** One completion is consumed, and exactly its submitter's buffer is released. */
  lemma SeeKeepsInv(q: Queue)
    requires Inv(q) && q.seen != q.usedIdx
    ensures q.reported != [] && q.used[q.seen % NUM] < NUM && q.info[q.used[q.seen % NUM]].owner.Some?
    ensures Inv(Seen(q)) && q.reported[0] in q.chains
    ensures q.busy - Seen(q).busy == {q.chains[q.reported[0]].buf}
  {
    hide ChainsOk, FreeOk, RingHolds, BusyOk;
    FirstReported(q);
    RingPop(q.used, q.seen, q.usedIdx, q.reported);
    var n, h := Seen(q), q.reported[0];
    assert forall x :: x in q.reported <==> x == h || x in q.reported[1..];
    assert ChainsOk(n) && FreeOk(n) by { SameChains(q, n); }
    SeenBusy(q, h);
    SameBusy(q.(busy := q.busy - {q.chains[h].buf}, done := q.done + {h}), n);
  }

  lemma SeenBusy(q: Queue, h: nat)
    requires ChainsOk(q) && BusyOk(q) && h in q.chains && h !in q.done
    ensures BusyOk(q.(busy := q.busy - {q.chains[h].buf}, done := q.done + {h}))
  {
    hide Formatted, Triple;
    var n := q.(busy := q.busy - {q.chains[h].buf}, done := q.done + {h});
    forall b ensures b in n.busy <==> exists g :: g in n.chains && g !in n.done && n.chains[g].buf == b {
      if b in n.busy {
        var g :| g in q.chains && g !in q.done && q.chains[g].buf == b;
        assert g in n.chains && g !in n.done;
      }
    }
  }

  // ---- Freeing ----

  /** A submitter that finds its buffer released owns a chain the device is through with. */
  lemma ReleasedIsDone(q: Queue, h: nat)
    requires StagesOk(q) && BusyOk(q) && h in q.chains && q.chains[h].buf !in q.busy
    ensures h in q.done
  {
  }

  lemma FreeChains(q: Queue, h: nat)
    requires Sized(q) && ChainsOk(q) && h in q.chains
    ensures InRange(h, q.chains[h]) && ChainsOk(Freed(q, h))
  {
    hide Formatted, Triple;
    ChainBounds(q, h);
    var n := Freed(q, h);
    forall g | g in n.chains ensures Formatted(n.desc, n.ops, n.info, g, n.chains[g]) {
      assert Triple(g, q.chains[g]) !! Triple(h, q.chains[h]);
      FreedElsewhere(q, h, g);
    }
  }

  lemma FreedElsewhere(q: Queue, h: nat, g: nat)
    requires Sized(q) && h in q.chains && g in q.chains && InRange(h, q.chains[h])
    requires Formatted(q.desc, q.ops, q.info, g, q.chains[g]) && Triple(g, q.chains[g]) !! Triple(h, q.chains[h])
    ensures var n := Freed(q, h); Formatted(n.desc, n.ops, n.info, g, q.chains[g])
  {
    hide Sector, Triple;
    ApartTriples(g, q.chains[g], h, q.chains[h]);
  }

  lemma ApartTriples(g: nat, d: Chain, h: nat, c: Chain)
    requires Triple(g, d) !! Triple(h, c)
    ensures g != h && g != c.mid && g != c.last && d.mid != h && d.mid != c.mid && d.mid != c.last
    ensures d.last != h && d.last != c.mid && d.last != c.last
  {
    assert g in Triple(g, d) && d.mid in Triple(g, d) && d.last in Triple(g, d);
    assert h in Triple(h, c) && c.mid in Triple(h, c) && c.last in Triple(h, c);
  }

  lemma FreeFree(q: Queue, h: nat)
    requires Sized(q) && ChainsOk(q) && FreeOk(q) && h in q.chains
    ensures InRange(h, q.chains[h]) && FreeOk(Freed(q, h))
  {
    hide Formatted, ChainsOk, Separate;
    ChainBounds(q, h);
    InvSeparate(q);
    var n := Freed(q, h);
    forall i | 0 <= i < NUM ensures (n.free[i] <==> !InChain(n.chains, i)) && (n.free[i] ==> n.desc[i] == CLEAR) {
      assert q.free[i] <==> !InChain(q.chains, i);
      InChainSplit(q.chains, h, i);
      if i in Triple(h, q.chains[h]) {
        Apart(q.chains, h, i);
      }
    }
  }

  lemma FreeKeepsInv(q: Queue, h: nat)
    requires Inv(q) && h in q.chains && q.chains[h].buf !in q.busy
    ensures InRange(h, q.chains[h]) && Inv(Freed(q, h))
  {
    hide ChainsOk, FreeOk, RingHolds, BusyOk;
    ReleasedIsDone(q, h);
    FreeChains(q, h);
    FreeFree(q, h);
    FreeBusy(q, h);
    SameBusy(q.(chains := q.chains - {h}, done := q.done - {h}), Freed(q, h));
  }

  lemma FreeBusy(q: Queue, h: nat)
    requires BusyOk(q) && h in q.done && h in q.chains
    ensures BusyOk(q.(chains := q.chains - {h}, done := q.done - {h}))
  {
    var n := q.(chains := q.chains - {h}, done := q.done - {h});
    forall b ensures b in n.busy <==> exists g :: g in n.chains && g !in n.done && n.chains[g].buf == b {
      if b in q.busy {
        var g :| g in q.chains && g !in q.done && q.chains[g].buf == b;
        assert g in n.chains && n.chains[g].buf == b;
      }
    }
  }

  // ---- Runs ----

  datatype Event = Submit(h: nat, c: Chain) | Fetch | Complete(head: nat, status: nat) | See | Free(chain: nat)

  /** Each step is guarded by what its code tests; the driver panics instead of seeing a failure status. */
  ghost predicate Step(q: Queue, e: Event, n: Queue) {
    Sized(q) &&
    match e
    case Submit(h, c) => CanSubmit(q, h, c) && n == Submitted(q, h, c)
    case Fetch => q.fetched != q.availIdx && q.queued != [] && n == Fetched(q)
    case Complete(h, status) => h in q.working && h < NUM && n == Completed(q, h, status)
    case See =>
      && q.seen != q.usedIdx && q.reported != [] && q.used[q.seen % NUM] < NUM
      && q.info[q.used[q.seen % NUM]].owner.Some? && q.info[q.used[q.seen % NUM]].status == 0
      && n == Seen(q)
    case Free(h) =>
      h in q.chains && q.chains[h].buf !in q.busy && InRange(h, q.chains[h]) && n == Freed(q, h)
  }

  lemma StepKeepsInv(q: Queue, e: Event, n: Queue)
    requires Inv(q) && Step(q, e, n)
    ensures Inv(n)
  {
    hide Inv, Submitted, Fetched, Completed, Seen, Freed, CanSubmit, InRange;
    match e
    case Submit(h, c) => SubmitKeepsInv(q, h, c);
    case Fetch => FetchKeepsInv(q);
    case Complete(h, status) => CompleteKeepsInv(q, h, status);
    case See => SeeKeepsInv(q);
    case Free(h) => FreeKeepsInv(q, h);
  }

  /** The queue as virtio_disk_init leaves it. */
  function Initial(): Queue {
    var zeros := seq(NUM, _ => 0);
    Queue(seq(NUM, _ => true), seq(NUM, _ => CLEAR), seq(NUM, _ => Op(false, 0)), seq(NUM, _ => Info(None, 0)),
          zeros, 0, zeros, 0, 0, {}, 0, map[], [], {}, [], {})
  }

  ghost predicate Run(qs: seq<Queue>, es: seq<Event>) {
    && |qs| == |es| + 1 && qs[0] == Initial()
    && forall i :: 0 <= i < |es| ==> Step(qs[i], es[i], qs[i + 1])
  }

  /** Every interleaving of submissions, device steps, interrupts and frees keeps the invariant. */
  lemma {:induction false} RunKeepsInv(qs: seq<Queue>, es: seq<Event>, i: nat)
    requires Run(qs, es) && i < |qs|
    ensures Inv(qs[i]) && |FreeSet(qs[i].free)| + 3 * |qs[i].chains| == NUM
  {
    hide Inv, Step, FreeSet;
    if i == 0 {
      InitialInv();
    } else {
      RunKeepsInv(qs, es, i - 1);
      StepKeepsInv(qs[i - 1], es[i - 1], qs[i]);
    }
    Conservation(qs[i]);
  }

  lemma InitialInv()
    ensures Inv(Initial())
  {
  }

  /** While a request is unfreed, something can move it on: no request and no process waiting
      for descriptors is stuck. */
  lemma Progress(q: Queue)
    requires Inv(q) && |FreeSet(q.free)| < 3
    ensures q.fetched != q.availIdx || q.working != {} || q.seen != q.usedIdx ||
            exists h :: h in q.chains && q.chains[h].buf !in q.busy
  {
    hide ChainsOk, FreeOk, RingHolds, FreeSet;
    Conservation(q);
    assert q.chains != map[];
    var h :| h in q.chains;
    PendingIffIndicesDiffer(q.avail, q.fetched, q.availIdx, q.queued);
    PendingIffIndicesDiffer(q.used, q.seen, q.usedIdx, q.reported);
    if h in q.done {
      DoneIsReleased(q, h);
    }
  }

  lemma DoneIsReleased(q: Queue, h: nat)
    requires ChainsOk(q) && BusyOk(q) && h in q.done && h in q.chains
    ensures q.chains[h].buf !in q.busy
  {
  }
}
