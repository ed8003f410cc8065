/** The driver code of kernel/virtio_disk.c over its queue memory, proved to take exactly the
    steps of VirtioQueue. Device steps may come between any two calls. */
module VirtioDisk {
  import opened Common
  import opened VirtioQueue

  class Disk {
    var free: seq<bool>
    var desc: seq<Desc>
    var ops: seq<Op>
    var info: seq<Info>
    var avail: seq<nat>
    var availIdx: nat
    var used: seq<nat>
    var usedIdx: nat
    var seen: nat
    var busy: set<nat>
    // Bookkeeping of the state machine.
    ghost var fetched: nat
    ghost var chains: map<nat, Chain>
    ghost var queued: seq<nat>
    ghost var working: set<nat>
    ghost var reported: seq<nat>
    ghost var done: set<nat>

    ghost function View(): Queue
      reads this
    {
      Queue(free, desc, ops, info, avail, availIdx, used, usedIdx, seen, busy,
            fetched, chains, queued, working, reported, done)
    }

    /** The lowest free descriptor, or -1. */
    method AllocDesc() returns (i: int)
      requires |free| == NUM
      modifies this`free
      ensures -1 <= i < NUM
      ensures forall k :: 0 <= k < (if i < 0 then NUM else i) ==> !old(free)[k]
      ensures i >= 0 ==> old(free)[i] && free == old(free)[i := false]
      ensures i < 0 ==> free == old(free)
    {
      i := 0;
      while i < NUM
        invariant 0 <= i <= NUM && free == old(free)
        invariant forall k :: 0 <= k < i ==> !free[k]
      {
        if free[i] {
          free := free[i := false];
          return;
        }
        i := i + 1;
      }
      i := -1;
    }

    /** Fails with the code's panic when the descriptor does not exist or is free already. */
    method FreeDesc(i: nat) returns (ok: bool)
      requires |free| == |desc| == NUM
      modifies this`free, this`desc
      ensures ok <==> i < NUM && !old(free)[i]
      ensures ok ==> free == old(free)[i := true] && desc == old(desc)[i := CLEAR]
      ensures !ok ==> free == old(free) && desc == old(desc)
    {
      if i >= NUM { return false; }
      if free[i] { return false; }
      desc := desc[i := CLEAR];
      free := free[i := true];
      ok := true;
    }

    /** Three free descriptors, the lowest ones; or, when there are fewer, nothing changes. */
    method Alloc3Desc() returns (ok: bool, idx: seq<nat>)
      requires Inv(View())
      modifies this`free, this`desc
      ensures ok <==> |FreeSet(old(free))| >= 3
      ensures !ok ==> View() == old(View())
      ensures ok ==> |idx| == 3 && idx[0] < idx[1] < idx[2] < NUM && desc == old(desc)
      ensures ok ==> old(free)[idx[0]] && old(free)[idx[1]] && old(free)[idx[2]]
      ensures ok ==> free == old(free)[idx[0] := false][idx[1] := false][idx[2] := false]
      ensures ok ==> forall k :: 0 <= k < idx[2] && old(free)[k] ==> k == idx[0] || k == idx[1]
    {
      hide Inv, FreeSet, Taken;
      ghost var was := free;
      InvFree(View());
      idx := [];
      NothingTaken(was);
      while |idx| < 3
        invariant |idx| <= 3 && |free| == NUM && Taken(was, free, idx) && desc == old(desc)
      {
        ghost var now := free;
        var i := AllocDesc();
        if i < 0 {
          NoneLeft(was, free, idx);
          GiveBack(was, idx);
          return false, idx;
        }
        OneMore(was, now, idx, i);
        idx := idx + [i];
      }
      ThreeTaken(was, free, idx);
      ok := true;
    }

    /** alloc3_desc's way back when it could not get three. */
    method GiveBack(ghost was: seq<bool>, idx: seq<nat>)
      requires |desc| == NUM && Taken(was, free, idx) && forall i :: 0 <= i < NUM && was[i] ==> desc[i] == CLEAR
      modifies this`free, this`desc
      ensures free == was && desc == old(desc)
    {
      for j := 0 to |idx|
        invariant Returned(was, free, idx, j) && desc == old(desc)
      {
        assert idx[j..][0] == idx[j] && idx[j..] == [idx[j]] + idx[j + 1..];
        var freed := FreeDesc(idx[j]);
      }
    }

    /** The command header and the three descriptors of a request, and who waits for it. */
    method Format(head: nat, mid: nat, last: nat, b: nat, blockno: nat, write: bool)
      requires |desc| == |ops| == |info| == NUM && head < NUM && mid < NUM && last < NUM
      modifies this`ops, this`desc, this`info, this`busy
      ensures ops == old(ops)[head := Op(write, Sector(blockno))] && busy == old(busy) + {b}
      ensures blockno < 0x8000_0000 ==> ops[head].sector * 512 == blockno * 1024
      ensures desc == old(desc)[head := Desc(Header(head), 16, true, false, mid)]
                               [mid := Desc(Data(b), 1024, true, !write, last)]
                               [last := Desc(Status(head), 1, false, true, 0)]
      ensures info == old(info)[head := Info(Some(b), 0xff)]
    {
      ops := ops[head := Op(write, Sector(blockno))];
      desc := desc[head := Desc(Header(head), 16, true, false, mid)];
      desc := desc[mid := Desc(Data(b), 1024, true, !write, last)];
      info := info[head := info[head].(status := 0xff)];
      desc := desc[last := Desc(Status(head), 1, false, true, 0)];
      busy := busy + {b};
      info := info[head := info[head].(owner := Some(b))];
    }

    /** The request is formatted, and its head put in the available ring. */
    method Publish(head: nat, mid: nat, last: nat, b: nat, blockno: nat, write: bool)
      requires Sized(View()) && head < NUM && mid < NUM && last < NUM
      modifies this
      ensures free == old(free)
      ensures var c := Chain(mid, last, b, blockno, write);
              View() == Submitted(old(View()), head, c).(free := old(free))
      ensures blockno < 0x8000_0000 ==> head < |ops| && ops[head].sector * 512 == blockno * 1024
    {
      hide Sector;
      Format(head, mid, last, b, blockno, write);
      avail := avail[availIdx % NUM := head];
      availIdx := (availIdx + 1) % WRAP;
      chains, queued := chains[head := Chain(mid, last, b, blockno, write)], queued + [head];
    }

    /** virtio_disk_rw up to its wait. It sleeps exactly when fewer than three descriptors are
        free; otherwise the request is published under the head it returns. */
    method Submit(b: nat, blockno: nat, write: bool) returns (ok: bool, h: nat, ghost c: Chain)
      requires Inv(View()) && forall g :: g in chains ==> chains[g].buf != b
      modifies this
      ensures ok <==> |FreeSet(old(free))| >= 3
      ensures !ok ==> View() == old(View())
      ensures ok ==> CanSubmit(old(View()), h, c) && Step(old(View()), VirtioQueue.Submit(h, c), View())
      ensures ok ==> c.buf == b && c.blockno == blockno && c.write == write
      ensures ok && blockno < 0x8000_0000 ==> h < |ops| && ops[h].sector * 512 == blockno * 1024
      ensures Inv(View())
    {
      hide Inv, FreeSet, Sector, Step;
      InvSized(View());
      ghost var q := View();
      var idx;
      ok, idx := Alloc3Desc();
      h, c := 0, Chain(0, 0, b, blockno, write);
      if !ok { return; }
      h, c := idx[0], Chain(idx[1], idx[2], b, blockno, write);
      Publish(h, idx[1], idx[2], b, blockno, write);
      assert View() == Submitted(q, h, c);
      SubmitKeepsInv(q, h, c);
      SubmitStep(q, h, c);
    }

    /** virtio_disk_intr: every reported request is seen, in order. The driver panics exactly
        when it meets a failure status. */
    method Interrupt() returns (ok: bool)
      requires Inv(View())
      modifies this`busy, this`seen, this`reported, this`done
      ensures Inv(View())
      ensures ok <==> NoneFailed(old(View()), |old(reported)|)
      ensures ok ==> reported == [] && seen == usedIdx
      ensures ok ==> forall h :: h in done <==> h in old(done) || h in old(reported)
      ensures forall h :: h in chains && h !in old(reported) ==> (chains[h].buf in busy <==> chains[h].buf in old(busy))
      ensures ok ==> forall h :: h in chains && h in old(reported) ==> chains[h].buf !in busy
    {
      hide Inv, SeenFirst, HeadAt, NoneFailed;
      ghost var q, k := View(), 0;
      InvSized(q);
      SeenNone(q);
      while seen != usedIdx
        invariant Inv(View()) && SeenFirst(q, View(), k)
        decreases |reported|
      {
        ghost var n := View();
        SeeOneMore(q, n, k);
        var id := used[seen % NUM];
        if info[id].status != 0 {
          return false;
        }
        busy := busy - {info[id].owner.value};
        seen := (seen + 1) % WRAP;
        reported, done := reported[1..], done + {id};
        assert View() == Seen(n);
        k := k + 1;
      }
      SeenAll(q, View(), k);
      ok := true;
    }

    /** Free the chain that starts at `h`, following the descriptors' own links. On a chain as
        submitted neither panic of free_desc happens, and exactly its descriptors are freed. */
    method FreeChain(h: nat, ghost c: Chain) returns (ok: bool)
      requires |free| == |desc| == NUM && InRange(h, c) && !free[h] && !free[c.mid] && !free[c.last]
      requires desc[h].more && desc[h].next == c.mid && desc[c.mid].more && desc[c.mid].next == c.last &&
               !desc[c.last].more
      modifies this`free, this`desc
      ensures ok
      ensures free == old(free)[h := true][c.mid := true][c.last := true]
      ensures desc == old(desc)[h := CLEAR][c.mid := CLEAR][c.last := CLEAR]
    {
      var i, go := h, true;
      ghost var n := 0;
      while go
        invariant |free| == |desc| == NUM && 0 <= n <= 3 && (go <==> n < 3)
        invariant n == 0 ==> i == h && free == old(free) && desc == old(desc)
        invariant n == 1 ==> i == c.mid && free == old(free)[h := true] && desc == old(desc)[h := CLEAR]
        invariant n == 2 ==> i == c.last && free == old(free)[h := true][c.mid := true]
                             && desc == old(desc)[h := CLEAR][c.mid := CLEAR]
        invariant n == 3 ==> free == old(free)[h := true][c.mid := true][c.last := true]
                             && desc == old(desc)[h := CLEAR][c.mid := CLEAR][c.last := CLEAR]
        decreases 3 - n
      {
        var more, next := desc[i].more, desc[i].next;
        var freed := FreeDesc(i);
        if !freed { return false; }
        if more { i := next; } else { go := false; }
        n := n + 1;
      }
      ok := true;
    }

    /** virtio_disk_rw after its wait: the submitter of `h` finds its buffer released. */
    method Finish(h: nat) returns (ok: bool)
      requires Inv(View()) && h in chains && chains[h].buf !in busy
      modifies this`free, this`desc, this`info, this`chains, this`done
      ensures ok && Step(old(View()), Free(h), View()) && Inv(View())
      ensures chains == old(chains) - {h} && |free| == |old(free)| == NUM
      ensures forall i :: 0 <= i < NUM ==>
                (free[i] <==> old(free)[i] || i == h || i == old(chains)[h].mid || i == old(chains)[h].last)
    {
      hide Inv;
      ghost var q, c := View(), chains[h];
      InvSized(q);
      ReadyToFree(q, h);
      FreeKeepsInv(q, h);
      info := info[h := info[h].(owner := None)];
      ok := FreeChain(h, c);
      chains, done := chains - {h}, done - {h};
      assert View() == Freed(q, h);
    }
  }

  lemma SubmitStep(q: Queue, h: nat, c: Chain)
    requires Inv(q) && CanSubmit(q, h, c)
    ensures Sized(q) && Step(q, VirtioQueue.Submit(h, c), Submitted(q, h, c))
  {
    InvSized(q);
    hide Inv, Submitted, CanSubmit;
  }

  lemma ReadyToFree(q: Queue, h: nat)
    requires Inv(q) && h in q.chains
    ensures Formatted(q.desc, q.ops, q.info, h, q.chains[h]) && InRange(h, q.chains[h]) && Sized(q)
    ensures !q.free[h] && !q.free[q.chains[h].mid] && !q.free[q.chains[h].last]
  {
    ChainBounds(q, h);
    var t := Triple(h, q.chains[h]);
    assert forall i :: i in t && i < NUM ==> InChain(q.chains, i);
  }

  /** The head of the k-th reported request. */
  ghost function HeadAt(q: Queue, k: nat): nat
    requires Inv(q) && k < |q.reported|
    ensures HeadAt(q, k) < NUM && HeadAt(q, k) == q.reported[k]
  {
    var h := q.reported[k];
    assert h in q.reported;
    ChainBounds(q, h);
    h
  }

  lemma InvSized(q: Queue)
    requires Inv(q)
    ensures Sized(q)
  {
  }

  lemma Drained(q: Queue)
    requires Inv(q) && q.seen == q.usedIdx
    ensures q.reported == []
  {
    PendingIffIndicesDiffer(q.used, q.seen, q.usedIdx, q.reported);
  }

  /** A buffer is busy exactly until its request is seen. */
  lemma BusyIffNotDone(q: Queue, h: nat)
    requires Inv(q) && h in q.chains
    ensures q.chains[h].buf in q.busy <==> h !in q.done
  {
    if h in q.done {
      DoneIsReleased(q, h);
    }
  }

  /** The device reported success for the first `k` completed requests. */
  ghost predicate NoneFailed(q: Queue, k: nat)
    requires Inv(q) && k <= |q.reported|
  {
    InvSized(q);
    forall j :: 0 <= j < k ==> q.info[HeadAt(q, j)].status == 0
  }

  /** `n` is `q` after the interrupt handler has seen the first `k` reported requests. */
  ghost predicate SeenFirst(q: Queue, n: Queue, k: nat) {
    && Inv(q) && k <= |q.reported| && n.reported == q.reported[k..] && n.chains == q.chains && n.info == q.info
    && NoneFailed(q, k)
    && (forall h :: h in n.done <==> h in q.done || h in q.reported[..k])
  }

  lemma SeenNone(q: Queue)
    requires Inv(q)
    ensures SeenFirst(q, q, 0)
  {
    InvSized(q);
    hide Inv;
    assert q.reported[0..] == q.reported;
  }

  /** One round: the next request is seen, unless it failed. */
  lemma SeeOneMore(q: Queue, n: Queue, k: nat)
    requires Inv(n) && SeenFirst(q, n, k) && n.seen != n.usedIdx
    ensures n.reported != [] && |n.used| == |n.info| == NUM && n.used[n.seen % NUM] < NUM
    ensures n.info[n.used[n.seen % NUM]].owner.Some? && Inv(Seen(n))
    ensures n.info[n.used[n.seen % NUM]].status == 0 ==> SeenFirst(q, Seen(n), k + 1)
    ensures n.info[n.used[n.seen % NUM]].status != 0 ==> !NoneFailed(q, |q.reported|)
    ensures forall h :: h in q.chains && h !in q.reported ==> (q.chains[h].buf in n.busy <==> q.chains[h].buf in q.busy)
  {
    hide Inv;
    InvSized(n);
    SeeKeepsInv(n);
    FirstReported(n);
    BusyFollowsDone(q, n);
    var id := n.used[n.seen % NUM];
    assert HeadAt(q, k) == id;
    assert q.reported[..k + 1] == q.reported[..k] + [id] && q.reported[k..][1..] == q.reported[k + 1..];
  }

  lemma SeenAll(q: Queue, n: Queue, k: nat)
    requires Inv(n) && SeenFirst(q, n, k) && n.seen == n.usedIdx
    ensures n.reported == []
    ensures NoneFailed(q, |q.reported|)
    ensures forall h :: h in n.done <==> h in q.done || h in q.reported
    ensures forall h :: h in q.chains && h !in q.reported ==> (q.chains[h].buf in n.busy <==> q.chains[h].buf in q.busy)
    ensures forall h :: h in q.chains && h in q.reported ==> q.chains[h].buf !in n.busy
  {
    hide Inv;
    Drained(n);
    assert q.reported[..k] == q.reported;
    BusyFollowsDone(q, n);
  }

  lemma BusyFollowsDone(q: Queue, n: Queue)
    requires Inv(q) && Inv(n) && n.chains == q.chains && q.done <= n.done
    requires forall h :: h in n.done ==> h in q.done || h in q.reported
    ensures forall h :: h in q.chains && h !in q.reported ==> (q.chains[h].buf in n.busy <==> q.chains[h].buf in q.busy)
    ensures forall h :: h in q.chains && h in n.done ==> q.chains[h].buf !in n.busy
  {
    hide Inv;
    forall h | h in q.chains
      ensures h !in q.reported ==> (q.chains[h].buf in n.busy <==> q.chains[h].buf in q.busy)
      ensures h in n.done ==> q.chains[h].buf !in n.busy
    {
      BusyIffNotDone(q, h);
      BusyIffNotDone(n, h);
    }
  }

  lemma InvFree(q: Queue)
    requires Inv(q)
    ensures |q.free| == |q.desc| == NUM && forall i :: 0 <= i < NUM && q.free[i] ==> q.desc[i] == CLEAR
  {
  }

  /** `idx` are the lowest free descriptors of `was`, and `now` is `was` without them. */
  ghost predicate Taken(was: seq<bool>, now: seq<bool>, idx: seq<nat>) {
    && |was| == |now| == NUM
    && (forall a, b :: 0 <= a < b < |idx| ==> idx[a] < idx[b])
    && (forall a :: 0 <= a < |idx| ==> idx[a] < NUM && was[idx[a]])
    && (forall k :: 0 <= k < NUM ==> now[k] == (was[k] && k !in idx))
    && (idx != [] ==> forall k :: 0 <= k < idx[|idx| - 1] ==> !now[k])
  }

  ghost predicate Returned(was: seq<bool>, now: seq<bool>, idx: seq<nat>, j: nat) {
    && |was| == |now| == NUM && j <= |idx|
    && forall k :: 0 <= k < NUM ==> now[k] == (was[k] && k !in idx[j..])
  }

  lemma {:induction false} SetOf(idx: seq<nat>, s: set<nat>)
    requires (forall a, b :: 0 <= a < b < |idx| ==> idx[a] < idx[b]) && forall x :: x in s <==> x in idx
    ensures |s| == |idx|
  {
    if idx == [] {
      assert s == {};
    } else {
      var n := |idx| - 1;
      var t := s - {idx[n]};
      assert forall x :: x in t <==> x in idx[..n] by {
        assert idx == idx[..n] + [idx[n]];
      }
      SetOf(idx[..n], t);
      assert s == t + {idx[n]};
    }
  }

  lemma NoneLeft(was: seq<bool>, now: seq<bool>, idx: seq<nat>)
    requires Taken(was, now, idx) && forall k :: 0 <= k < NUM ==> !now[k]
    ensures |FreeSet(was)| == |idx|
  {
    SetOf(idx, FreeSet(was));
  }

  lemma NothingTaken(was: seq<bool>)
    requires |was| == NUM
    ensures Taken(was, was, [])
  {
  }

  lemma OneMore(was: seq<bool>, now: seq<bool>, idx: seq<nat>, i: nat)
    requires Taken(was, now, idx) && i < NUM && now[i] && forall k :: 0 <= k < i ==> !now[k]
    ensures Taken(was, now[i := false], idx + [i])
  {
    if idx != [] {
      assert idx[|idx| - 1] <= i && was[idx[|idx| - 1]];
      assert idx[|idx| - 1] in idx;
    }
  }

  lemma ThreeTaken(was: seq<bool>, now: seq<bool>, idx: seq<nat>)
    requires Taken(was, now, idx) && |idx| == 3
    ensures |FreeSet(was)| >= 3 && idx[0] < idx[1] < idx[2] < NUM
    ensures was[idx[0]] && was[idx[1]] && was[idx[2]]
    ensures now == was[idx[0] := false][idx[1] := false][idx[2] := false]
    ensures forall k :: 0 <= k < idx[2] && was[k] ==> k == idx[0] || k == idx[1]
  {
    hide FreeSet;
    assert idx == [idx[0], idx[1], idx[2]];
    var t := was[idx[0] := false][idx[1] := false][idx[2] := false];
    forall k | 0 <= k < NUM ensures now[k] == t[k] {
      assert k in idx <==> k == idx[0] || k == idx[1] || k == idx[2];
    }
    assert now == t;
    ThreeFree(was, idx[0], idx[1], idx[2]);
  }

  lemma ThreeFree(was: seq<bool>, a: nat, b: nat, c: nat)
    requires a < b < c < |was| && was[a] && was[b] && was[c]
    ensures |FreeSet(was)| >= 3
  {
    var s := {a, b, c};
    assert s - {a} == {b, c} && {b, c} - {b} == {c};
    SubsetSize(s, FreeSet(was));
  }
}
