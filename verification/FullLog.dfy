/** The log may grow to as many blocks as the cache has buffers (kernel/param.h), and each of its
    blocks pins one. A log that is full can then never be committed. */
module FullLog {
  import opened Common
  import opened Blocks
  import opened CrashSafety
  import opened BufferCache
  import opened LogReservation
  import opened RedoLog

  lemma SlotsDiffer(bufs: seq<Buf>, disk: Disk, dev: nat, pins: seq<nat>, slots: seq<nat>, waiting: seq<nat>)
    requires Coherent(bufs, disk, dev, pins, slots, waiting)
    ensures Distinct(slots)
  {
    hide Pins;
    forall t, u | 0 <= t < u < |slots| ensures slots[t] != slots[u] {
      assert Holds(bufs[slots[t]], dev, pins[t]) && Holds(bufs[slots[u]], dev, pins[u]);
    }
  }

  lemma PinnedIsReferenced(bufs: seq<Buf>, disk: Disk, dev: nat, pins: seq<nat>, slots: seq<nat>, waiting: seq<nat>,
                           t: nat)
    requires Coherent(bufs, disk, dev, pins, slots, waiting) && t < |pins|
    ensures slots[t] < NBUF && bufs[slots[t]].refcnt > 0
  {
    assert FirstAt(pins, pins[t], IndexOf(pins, pins[t]));
  }

  /** Thirty pins take all thirty buffers. */
  lemma FullLogTakesEveryBuffer(bufs: seq<Buf>, disk: Disk, dev: nat, pins: seq<nat>, slots: seq<nat>,
                                waiting: seq<nat>)
    requires Coherent(bufs, disk, dev, pins, slots, waiting) && |pins| == LOGBLOCKS
    ensures !SomeFree(bufs)
  {
    SlotsDiffer(bufs, disk, dev, pins, slots, waiting);
    if i :| 0 <= i < |bufs| && bufs[i].refcnt == 0 {
      forall x | x in slots ensures x in Indices(NBUF) - {i} {
        var t :| 0 <= t < |slots| && slots[t] == x;
        PinnedIsReferenced(bufs, disk, dev, pins, slots, waiting, t);
      }
      hide Coherent;
      DistinctBound(slots, Indices(NBUF) - {i});
    }
  }

  // ---- The exact condition ----

  /** No process holds a buffer or waits for one. */
  ghost predicate Quiet(bufs: seq<Buf>, waiting: seq<nat>) {
    && (forall i :: 0 <= i < |bufs| ==> !bufs[i].locked)
    && (forall i :: 0 <= i < |waiting| ==> waiting[i] == 0)
  }

  ghost function Members(s: seq<nat>): (r: set<nat>)
    ensures |r| <= |s| && forall x :: x in r <==> x in s
  {
    if s == [] then {} else Members(s[..|s| - 1]) + {s[|s| - 1]}
  }

  lemma Missing(s: seq<nat>, n: nat) returns (i: nat)
    requires |s| < n
    ensures i < n && i !in s
  {
    if Indices(n) <= Members(s) {
      SubsetSize(Indices(n), Members(s));
    }
    i :| i in Indices(n) && i !in Members(s);
  }

  lemma QuietHasBuffer(bufs: seq<Buf>, disk: Disk, dev: nat, pins: seq<nat>, slots: seq<nat>, waiting: seq<nat>)
    requires Coherent(bufs, disk, dev, pins, slots, waiting) && Unique(bufs) && Quiet(bufs, waiting) && |pins| < NBUF
    ensures SomeFree(bufs)
  {
    var i := Missing(slots, NBUF);
    assert bufs[i].refcnt == 0 by {
      assert FirstAt(pins, bufs[i].blockno, IndexOf(pins, bufs[i].blockno));
    }
  }

  /** When no process holds a buffer, the last operation out can commit exactly when the log holds
      fewer blocks than the cache has buffers. */
  method EndLastOp(l: Log) returns (ok: bool)
    requires l.Valid() && l.cache.Traced() && l.outstanding == 1 && !l.committing
    requires Quiet(l.cache.bufs, l.waiting)
    modifies l.cache, l`lh, l`slots, l`outstanding, l`committing
    ensures ok <==> |old(l.lh)| < NBUF
    ensures l.outstanding == 0 && (!ok ==> unchanged(l.cache) && l.lh == old(l.lh))
    ensures ok ==> l.Valid() && l.lh == [] && SameHome(l.cache.disk, old(l.Contents()), l.start)
  {
    hide Permutation, Linked, ByRecency, Apply, Pending, ContentsOf, Pins;
    if |l.lh| < NBUF {
      QuietHasBuffer(l.cache.bufs, l.cache.disk, l.dev, l.lh, l.slots, l.waiting);
    } else {
      FullLogTakesEveryBuffer(l.cache.bufs, l.cache.disk, l.dev, l.lh, l.slots, l.waiting);
    }
    hide Coherent, BufsOk;
    ok := l.EndOp();
  }

  // ---- ... and an input that fails ----

  /** The first `n` blocks behind the log. */
  ghost function Behind(start: nat, n: nat): seq<nat> { seq(n, t => start + LOGBLOCKS + 1 + t) }

  lemma QuietLog(l: Log, b: nat)
    requires l.Valid() && Quiet(l.cache.bufs, l.waiting)
    ensures l.Unlocked(b) && |l.cache.bufs| == NBUF && (|l.lh| < LOGBLOCKS ==> SomeFree(l.cache.bufs))
  {
    hide Permutation, Linked, ByRecency, Clean, TargetsOk;
    if |l.lh| < LOGBLOCKS {
      QuietHasBuffer(l.cache.bufs, l.cache.disk, l.dev, l.lh, l.slots, l.waiting);
    }
  }

  /** bread, a change, log_write and brelse of one block. */
  method WriteBlock(l: Log, b: nat, data: Block) returns (ok: bool)
    requires l.Valid() && l.cache.Traced() && Quiet(l.cache.bufs, l.waiting) && l.outstanding > 0
    requires Home(b, l.start, |l.cache.disk|) && b !in l.lh
    modifies l.cache`bufs, l.cache`next, l.cache`prev, l.cache`order, l.cache`lastUse, l.cache`clock, l`lh, l`slots
    ensures ok <==> |old(l.lh)| < LOGBLOCKS
    ensures ok ==> l.Valid() && Quiet(l.cache.bufs, l.waiting) && l.lh == old(l.lh) + [b]
    ensures ok ==> l.Contents() == old(l.Contents())[b := data]
  {
    hide Permutation, Linked, ByRecency, Apply, Pending, ContentsOf, Pins, Clean, TargetsOk, Record;
    hide Coherent, BufsOk, Quiet, SomeFree, Unique;
    QuietLog(l, b);
    var r;
    r, ok := l.Bread(b);
    if ok {
      l.Modify(r, data);
      var o := l.LogWrite(r);
      ok := o.Recorded?;
      if ok {
        l.Brelse(r);
        QuietAfter(old(l.cache.bufs), l.cache.bufs, l.waiting, r);
      }
    }
  }

  lemma QuietAfter(was: seq<Buf>, now: seq<Buf>, waiting: seq<nat>, r: nat)
    requires Quiet(was, waiting) && r < |was| == |now| && now == was[r := now[r]] && !now[r].locked
    ensures Quiet(now, waiting)
  {
  }

  /** In three operations at once, with the first `n` blocks behind the log written. */
  ghost predicate Filling(l: Log, n: nat)
    reads l, l.cache
  {
    && l.Valid() && l.cache.Traced() && Quiet(l.cache.bufs, l.waiting)
    && l.outstanding == 3 && !l.committing && l.lh == Behind(l.start, n)
    && l.start + 2 * LOGBLOCKS + 1 <= |l.cache.disk|
  }

  /** Boot, and three operations that begin_op admits together. */
  method BeginThree(disk: Disk, dev: nat, start: nat) returns (l: Log)
    requires Recoverable(disk, start) && start + 2 * LOGBLOCKS + 1 <= |disk| <= U32 && dev != 0
    ensures fresh(l) && fresh(l.cache) && Filling(l, 0) && l.start == start
  {
    hide Recoverable, CutRecovery, SameHome, Permutation, Linked, ByRecency, Apply, Pending, ContentsOf;
    l := Boot(disk, dev, start);
    var slept := l.BeginOp();
    slept := l.BeginOp();
    slept := l.BeginOp();
  }

  method FillingStep(l: Log, n: nat, data: Block)
    requires Filling(l, n) && n < LOGBLOCKS
    modifies l.cache`bufs, l.cache`next, l.cache`prev, l.cache`order, l.cache`lastUse, l.cache`clock, l`lh, l`slots
    ensures Filling(l, n + 1)
  {
    hide Coherent, BufsOk, Permutation, Linked, ByRecency, Apply, Pending, ContentsOf, Quiet;
    var ok := WriteBlock(l, l.start + LOGBLOCKS + 1 + n, data);
    assert Behind(l.start, n + 1) == Behind(l.start, n) + [l.start + LOGBLOCKS + 1 + n];
  }

  /** From boot, three operations that write ten blocks each, all of which log_write accepts, end in
      the panic of bget inside commit. */
  method FillAndFail(disk: Disk, dev: nat, start: nat, data: Block) returns (l: Log, ok: bool)
    requires Recoverable(disk, start) && start + 2 * LOGBLOCKS + 1 <= |disk| <= U32 && dev != 0
    ensures !ok && l.lh == Behind(start, 3 * MAXOPBLOCKS) && l.outstanding == 0
  {
    hide Recoverable, Coherent, BufsOk, Permutation, Linked, ByRecency, Apply, Pending, ContentsOf, Quiet;
    l := BeginThree(disk, dev, start);
    var t := 0;
    while t < 3 * MAXOPBLOCKS
      invariant 0 <= t <= 3 * MAXOPBLOCKS && Filling(l, t) && l.start == start
    {
      FillingStep(l, t, data);
      t := t + 1;
    }
    ok := l.EndOp();
    ok := l.EndOp();
    ok := EndLastOp(l);
  }
}
