/** The buffer cache of kernel/bio.c: NBUF static buffers on a doubly linked ring kept in
    order of last use. Pointers into the static array are slot numbers, and HEAD is the
    list's sentinel. The disk behind it and the ordered writes sent to it are fields. */
module BufferCache {
  import opened Common
  import opened Blocks
  import opened CrashSafety

  const NBUF := 3 * MAXOPBLOCKS
  const HEAD := NBUF

  datatype Buf = Buf(valid: bool, dev: nat, blockno: nat, refcnt: nat, locked: bool, data: Block)

  predicate Holds(b: Buf, dev: nat, blockno: nat) {
    b.dev == dev && b.blockno == blockno
  }

  /** No block of a real device sits in two buffers. */
  ghost predicate Unique(bufs: seq<Buf>) {
    forall i, j :: 0 <= i < j < |bufs| && bufs[i].dev != 0 ==> !Holds(bufs[j], bufs[i].dev, bufs[i].blockno)
  }

  ghost predicate BufsOk(bufs: seq<Buf>) {
    && |bufs| == NBUF
    && Unique(bufs)
    && (forall i :: 0 <= i < NBUF && bufs[i].locked ==> bufs[i].refcnt > 0)
  }

  lemma UpdateKeepsBufsOk(bufs: seq<Buf>, r: nat, b: Buf)
    requires BufsOk(bufs) && r < NBUF
    requires Holds(b, bufs[r].dev, bufs[r].blockno) && (b.locked ==> b.refcnt > 0)
    ensures BufsOk(bufs[r := b])
  {
  }

  ghost predicate Cached(bufs: seq<Buf>, dev: nat, blockno: nat) {
    exists i :: 0 <= i < |bufs| && Holds(bufs[i], dev, blockno)
  }

  ghost predicate SomeFree(bufs: seq<Buf>) {
    exists i :: 0 <= i < |bufs| && bufs[i].refcnt == 0
  }

  /** `order` lists the slots 0..NBUF, each once. */
  ghost predicate Permutation(order: seq<nat>) {
    && |order| == NBUF
    && (forall k :: 0 <= k < |order| ==> order[k] < NBUF)
    && Distinct(order)
    && (forall i: nat :: i < NBUF ==> IndexOf(order, i) < NBUF)
  }

  /** The next and prev links run through the sentinel and then `order`, and back. */
  ghost predicate Linked(next: seq<nat>, prev: seq<nat>, order: seq<nat>) {
    && |next| == |prev| == NBUF + 1
    && (forall k :: 0 <= k < |order| ==> order[k] < NBUF)
    && (forall k {:trigger next[order[k]]} :: 0 <= k < |order| ==> next[order[k]] == At(order, k + 1))
    && (forall k {:trigger prev[order[k]]} :: 0 <= k < |order| ==> prev[order[k]] == At(order, k - 1))
    && next[HEAD] == At(order, 0)
    && prev[HEAD] == At(order, |order| - 1)
  }

  /** Slot `k` of the list, which the sentinel closes at both ends. */
  ghost function At(order: seq<nat>, k: int): nat {
    if 0 <= k < |order| then order[k] else HEAD
  }

  /** Most recent first. */
  ghost predicate ByRecency(order: seq<nat>, lastUse: seq<nat>) {
    && |lastUse| == NBUF
    && (forall k :: 0 <= k < |order| ==> order[k] < NBUF)
    && forall j, k :: 0 <= j < k < |order| ==> lastUse[order[j]] >= lastUse[order[k]]
  }

  /** `order` with slot `i` moved to the front. */
  ghost function MoveToFront(order: seq<nat>, i: nat): seq<nat>
    requires IndexOf(order, i) < |order|
  {
    var k := IndexOf(order, i);
    [i] + Removed(order, k)
  }

  ghost function Removed(order: seq<nat>, k: nat): seq<nat>
    requires k < |order|
  {
    order[..k] + order[k + 1..]
  }

  /** The pointer surgery that takes the k-th buffer off the ring. */
  lemma UnlinkKeepsLinked(next: seq<nat>, prev: seq<nat>, order: seq<nat>, k: nat)
    requires Linked(next, prev, order) && Distinct(order) && k < |order|
    ensures var r := order[k];
            && next[r] <= NBUF && prev[r] <= NBUF
            && Linked(next[prev[r] := next[r]], prev[next[r] := prev[r]], Removed(order, k))
  {
    var r, ord := order[k], Removed(order, k);
    var nx, pv := next[prev[r] := next[r]], prev[next[r] := prev[r]];
    assert next[r] == At(order, k + 1) && prev[r] == At(order, k - 1);
    forall j {:trigger nx[ord[j]]} | 0 <= j < |ord|
      ensures nx[ord[j]] == At(ord, j + 1)
    {
      UnlinkNext(next, prev, order, k, j);
    }
    forall j {:trigger pv[ord[j]]} | 0 <= j < |ord|
      ensures pv[ord[j]] == At(ord, j - 1)
    {
      UnlinkPrev(next, prev, order, k, j);
    }
  }

  lemma UnlinkNext(next: seq<nat>, prev: seq<nat>, order: seq<nat>, k: nat, j: nat)
    requires Linked(next, prev, order) && Distinct(order) && k < |order| && j < |order| - 1
    ensures var r, ord := order[k], Removed(order, k);
            ord[j] <= NBUF && prev[r] <= NBUF && next[prev[r] := next[r]][ord[j]] == At(ord, j + 1)
  {
    var i := if j < k then j else j + 1;
    assert Removed(order, k)[j] == order[i] && next[order[i]] == At(order, i + 1);
  }

  lemma UnlinkPrev(next: seq<nat>, prev: seq<nat>, order: seq<nat>, k: nat, j: nat)
    requires Linked(next, prev, order) && Distinct(order) && k < |order| && j < |order| - 1
    ensures var r, ord := order[k], Removed(order, k);
            ord[j] <= NBUF && next[r] <= NBUF && prev[next[r] := prev[r]][ord[j]] == At(ord, j - 1)
  {
    var i := if j < k then j else j + 1;
    assert Removed(order, k)[j] == order[i] && prev[order[i]] == At(order, i - 1);
  }

  /** The pointer surgery that puts a buffer behind the sentinel. */
  lemma LinkFirstKeepsLinked(next: seq<nat>, prev: seq<nat>, order: seq<nat>, r: nat)
    requires Linked(next, prev, order) && Distinct(order) && r < NBUF && r !in order
    ensures Linked(next[r := next[HEAD]][HEAD := r], prev[r := HEAD][next[HEAD] := r], [r] + order)
  {
    var ord := [r] + order;
    var nx, pv := next[r := next[HEAD]][HEAD := r], prev[r := HEAD][next[HEAD] := r];
    forall j {:trigger nx[ord[j]]} | 0 <= j < |ord|
      ensures nx[ord[j]] == At(ord, j + 1)
    {
      if j > 0 {
        assert ord[j] == order[j - 1] && next[order[j - 1]] == At(order, j);
      }
    }
    forall j {:trigger pv[ord[j]]} | 0 <= j < |ord|
      ensures pv[ord[j]] == At(ord, j - 1)
    {
      if j > 0 {
        assert ord[j] == order[j - 1] && prev[order[j - 1]] == At(order, j - 2);
      }
    }
  }

  lemma MoveToFrontPermutes(order: seq<nat>, i: nat)
    requires Permutation(order) && i < NBUF
    ensures Permutation(MoveToFront(order, i))
  {
    var k := IndexOf(order, i);
    var m := MoveToFront(order, i);
    forall s: nat | s < NBUF
      ensures IndexOf(m, s) < NBUF
    {
      var j := IndexOf(order, s);
      assert m[if j < k then j + 1 else if j == k then 0 else j] == s;
    }
  }

  lemma MoveToFrontKeepsRecency(order: seq<nat>, lastUse: seq<nat>, i: nat, now: nat)
    requires Permutation(order) && ByRecency(order, lastUse) && i < NBUF
    requires forall j :: 0 <= j < NBUF ==> lastUse[j] <= now
    ensures ByRecency(MoveToFront(order, i), lastUse[i := now])
  {
    var p := IndexOf(order, i);
    var m := MoveToFront(order, i);
    forall j, k | 0 <= j < k < |m|
      ensures lastUse[i := now][m[j]] >= lastUse[i := now][m[k]]
    {
      assert m[k] == order[if k <= p then k - 1 else k];
      if j > 0 {
        assert m[j] == order[if j <= p then j - 1 else j];
      }
    }
  }

  class Cache {
    var bufs: seq<Buf>
    var next: seq<nat>
    var prev: seq<nat>
    var disk: Disk
    ghost const disk0: Disk
    ghost var writes: seq<Write>
    ghost var order: seq<nat>
    ghost var lastUse: seq<nat>
    ghost var clock: nat

    ghost predicate Valid()
      reads this
    {
      Ring() && BufsOk(bufs)
    }

    /** The disk is what the ordered writes made of it. */
    ghost predicate Traced()
      reads this`disk, this`writes
    {
      Fits(writes, |disk0|) && disk == Apply(disk0, writes)
    }

    /** The links and the recency order agree. */
    ghost predicate Ring()
      reads this`next, this`prev, this`order, this`lastUse, this`clock
    {
      && Permutation(order)
      && Linked(next, prev, order)
      && ByRecency(order, lastUse)
      && (forall i :: 0 <= i < NBUF ==> lastUse[i] <= clock)
    }

    /** binit: all buffers empty, on the ring. */
    constructor (disk: Disk)
      ensures Valid()
      ensures this.disk == disk0 == disk && writes == [] && Traced()
      ensures forall i :: 0 <= i < NBUF ==> bufs[i] == Buf(false, 0, 0, 0, false, ZERO)
    {
      var nx: seq<nat>, pv: seq<nat> := seq(NBUF + 1, _ => HEAD), seq(NBUF + 1, _ => HEAD);
      ghost var ord: seq<nat> := [];
      var b := 0;
      while b < NBUF
        invariant 0 <= b <= NBUF && |ord| == b
        invariant forall k :: 0 <= k < b ==> ord[k] == b - 1 - k
        invariant Linked(nx, pv, ord)
      {
        var first := nx[HEAD];
        nx := nx[b := first];
        pv := pv[b := HEAD];
        pv := pv[first := b];
        nx := nx[HEAD := b];
        ord := [b] + ord;
        b := b + 1;
      }
      forall i: nat | i < NBUF
        ensures IndexOf(ord, i) < NBUF
      {
        assert ord[NBUF - 1 - i] == i;
      }
      this.disk, disk0 := disk, disk;
      bufs := seq(NBUF, _ => Buf(false, 0, 0, 0, false, ZERO));
      next, prev, order := nx, pv, ord;
      writes, lastUse, clock := [], seq(NBUF, _ => 0), 0;
    }

    /** The scan for a cached block, from the most recently used buffer. */
    method FindCached(dev: nat, blockno: nat) returns (b: nat)
      requires Valid()
      ensures b <= NBUF
      ensures b < NBUF ==> Holds(bufs[b], dev, blockno)
      ensures b == HEAD ==> !Cached(bufs, dev, blockno)
    {
      b := next[HEAD];
      ghost var k := 0;
      while b != HEAD && !Holds(bufs[b], dev, blockno)
        invariant 0 <= k <= NBUF
        invariant b == At(order, k)
        invariant forall j :: 0 <= j < k ==> !Holds(bufs[order[j]], dev, blockno)
        decreases NBUF - k
      {
        b := next[b];
        k := k + 1;
      }
      if b == HEAD {
        forall i: nat | i < NBUF
          ensures !Holds(bufs[i], dev, blockno)
        {
          assert order[IndexOf(order, i)] == i;
        }
      }
    }

    /** The scan for the least recently used unreferenced buffer, from the far end. */
    method FindVictim() returns (b: nat)
      requires Valid()
      ensures b <= NBUF
      ensures b < NBUF ==> bufs[b].refcnt == 0
      ensures b < NBUF ==> forall i :: 0 <= i < NBUF && bufs[i].refcnt == 0 ==> lastUse[b] <= lastUse[i]
      ensures b == HEAD ==> !SomeFree(bufs)
    {
      b := prev[HEAD];
      ghost var k := NBUF;
      while b != HEAD && bufs[b].refcnt != 0
        invariant 0 <= k <= NBUF
        invariant b == At(order, k - 1)
        invariant forall j :: k <= j < NBUF ==> bufs[order[j]].refcnt != 0
        decreases k
      {
        b := prev[b];
        k := k - 1;
      }
      forall i: nat | i < NBUF && bufs[i].refcnt == 0
        ensures b != HEAD && lastUse[b] <= lastUse[i]
      {
        assert IndexOf(order, i) < k;
      }
    }

    /** bget up to the sleep lock: a reference to the buffer of (dev, blockno), recycling the
        least recently used unreferenced buffer on a miss; not ok is "bget: no buffers". */
    method Bget(dev: nat, blockno: nat) returns (r: nat, ok: bool)
      requires Valid() && dev != 0
      modifies this`bufs
      ensures Valid()
      ensures ok <==> old(Cached(bufs, dev, blockno)) || old(SomeFree(bufs))
      ensures !ok ==> bufs == old(bufs)
      ensures ok ==> r < NBUF && Holds(bufs[r], dev, blockno)
      ensures old(Cached(bufs, dev, blockno)) ==>
                bufs == old(bufs)[r := old(bufs)[r].(refcnt := old(bufs)[r].refcnt + 1)]
      ensures ok && !old(Cached(bufs, dev, blockno)) ==>
                && old(bufs)[r].refcnt == 0
                && (forall i :: 0 <= i < NBUF && old(bufs)[i].refcnt == 0 ==> lastUse[r] <= lastUse[i])
                && bufs == old(bufs)[r := old(bufs)[r].(dev := dev, blockno := blockno, valid := false, refcnt := 1)]
    {
      r := FindCached(dev, blockno);
      ok := true;
      if r != HEAD {
        bufs := bufs[r := bufs[r].(refcnt := bufs[r].refcnt + 1)];
        return;
      }
      r := FindVictim();
      if r != HEAD {
        bufs := bufs[r := bufs[r].(dev := dev, blockno := blockno, valid := false, refcnt := 1)];
        return;
      }
      ok := false;
    }

    /** bread when no other process holds the block: the buffer comes back locked, holding the
        cached contents on a hit and the disk's on a miss. */
    method Bread(dev: nat, blockno: nat) returns (r: nat, ok: bool)
      requires Valid() && dev != 0 && blockno < |disk|
      requires forall i :: 0 <= i < NBUF && Holds(bufs[i], dev, blockno) ==> !bufs[i].locked
      modifies this`bufs
      ensures Valid()
      ensures ok <==> old(Cached(bufs, dev, blockno)) || old(SomeFree(bufs))
      ensures !ok ==> bufs == old(bufs)
      ensures ok ==> r < NBUF && bufs == old(bufs)[r := bufs[r]] && !old(bufs)[r].locked
      ensures ok && old(Cached(bufs, dev, blockno)) ==>
                Holds(old(bufs)[r], dev, blockno) &&
                bufs[r] == Buf(true, dev, blockno, old(bufs)[r].refcnt + 1, true,
                               if old(bufs)[r].valid then old(bufs)[r].data else disk[blockno])
      ensures ok && !old(Cached(bufs, dev, blockno)) ==>
                && old(bufs)[r].refcnt == 0
                && (forall i :: 0 <= i < NBUF && old(bufs)[i].refcnt == 0 ==> lastUse[r] <= lastUse[i])
                && bufs[r] == Buf(true, dev, blockno, 1, true, disk[blockno])
    {
      r, ok := Bget(dev, blockno);
      if ok {
        UpdateKeepsBufsOk(bufs, r, bufs[r].(locked := true));
        bufs := bufs[r := bufs[r].(locked := true)];
        if !bufs[r].valid {
          UpdateKeepsBufsOk(bufs, r, bufs[r].(data := disk[blockno], valid := true));
          bufs := bufs[r := bufs[r].(data := disk[blockno], valid := true)];
        }
      }
    }

    /** acquiresleep once the lock is free, by a process that already has a reference. */
    method Lock(r: nat)
      requires Valid() && r < NBUF && !bufs[r].locked && bufs[r].refcnt > 0
      modifies this`bufs
      ensures Valid() && bufs == old(bufs)[r := old(bufs)[r].(locked := true)]
    {
      bufs := bufs[r := bufs[r].(locked := true)];
    }

    /** The holder's change to the buffer's bytes. */
    method SetData(r: nat, data: Block)
      requires Valid() && r < NBUF && bufs[r].locked
      modifies this`bufs
      ensures Valid() && bufs == old(bufs)[r := old(bufs)[r].(data := data)]
    {
      bufs := bufs[r := bufs[r].(data := data)];
    }

    /** bwrite: one atomic disk write, ordered after all earlier ones. */
    method Bwrite(r: nat)
      requires Valid() && r < NBUF && bufs[r].locked && bufs[r].blockno < |disk|
      modifies this`disk, this`writes
      ensures Valid()
      ensures writes == old(writes) + [Write(bufs[r].blockno, bufs[r].data)]
      ensures disk == old(disk)[bufs[r].blockno := bufs[r].data]
      ensures old(Traced()) ==> Traced()
    {
      disk := disk[bufs[r].blockno := bufs[r].data];
      writes := writes + [Write(bufs[r].blockno, bufs[r].data)];
    }

    /** brelse: unlock, drop the reference, and on the last one move the buffer to the
        recently used end of the ring. */
    method Brelse(r: nat)
      requires Valid() && r < NBUF && bufs[r].locked
      modifies this`bufs, this`next, this`prev, this`order, this`lastUse, this`clock
      ensures Valid()
      ensures bufs == old(bufs)[r := old(bufs)[r].(locked := false, refcnt := old(bufs)[r].refcnt - 1)]
      ensures order == if bufs[r].refcnt == 0 then MoveToFront(old(order), r) else old(order)
      ensures lastUse == if bufs[r].refcnt == 0 then old(lastUse)[r := clock] else old(lastUse)
      ensures clock == if bufs[r].refcnt == 0 then old(clock) + 1 else old(clock)
    {
      assert |bufs| == NBUF && bufs[r].refcnt > 0;
      UpdateKeepsBufsOk(bufs, r, bufs[r].(locked := false, refcnt := bufs[r].refcnt - 1));
      hide BufsOk, Linked, Permutation, ByRecency, MoveToFront;
      bufs := bufs[r := bufs[r].(locked := false)];
      bufs := bufs[r := bufs[r].(refcnt := bufs[r].refcnt - 1)];
      if bufs[r].refcnt == 0 {
        Touch(r);
      }
    }

    /** The list and recency part of brelse. */
    method Touch(r: nat)
      requires Ring() && r < NBUF
      modifies this`next, this`prev, this`order, this`lastUse, this`clock
      ensures Ring()
      ensures order == MoveToFront(old(order), r)
      ensures clock == old(clock) + 1 && lastUse == old(lastUse)[r := clock]
    {
      MoveToFrontKeepsRecency(order, lastUse, r, clock + 1);
      Relink(r);
      clock := clock + 1;
      lastUse := lastUse[r := clock];
    }

    method Relink(r: nat)
      requires Permutation(order) && Linked(next, prev, order) && r < NBUF
      modifies this`next, this`prev, this`order
      ensures order == MoveToFront(old(order), r)
      ensures Permutation(order) && Linked(next, prev, order)
    {
      ghost var k := IndexOf(order, r);
      UnlinkKeepsLinked(next, prev, order, k);
      prev := prev[next[r] := prev[r]];
      next := next[prev[r] := next[r]];
      ghost var rest := Removed(order, k);
      LinkFirstKeepsLinked(next, prev, rest, r);
      next := next[r := next[HEAD]];
      prev := prev[r := HEAD];
      prev := prev[next[HEAD] := r];
      next := next[HEAD := r];
      MoveToFrontPermutes(order, r);
      order := [r] + rest;
      assert order == MoveToFront(old(order), r);
    }

    method Bpin(r: nat)
      requires Valid() && r < NBUF
      modifies this`bufs
      ensures Valid() && bufs == old(bufs)[r := old(bufs)[r].(refcnt := old(bufs)[r].refcnt + 1)]
    {
      bufs := bufs[r := bufs[r].(refcnt := bufs[r].refcnt + 1)];
    }

    method Bunpin(r: nat)
      requires Valid() && r < NBUF && bufs[r].refcnt > if bufs[r].locked then 1 else 0
      modifies this`bufs
      ensures Valid() && bufs == old(bufs)[r := old(bufs)[r].(refcnt := old(bufs)[r].refcnt - 1)]
    {
      bufs := bufs[r := bufs[r].(refcnt := bufs[r].refcnt - 1)];
    }
  }
}
