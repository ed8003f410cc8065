/** The redo log of kernel/log.c running over the buffer cache. Together they serve a plain
    block map: the latest logged contents of every block. */
module RedoLog {
  import opened Common
  import opened Blocks
  import opened CrashSafety
  import opened BufferCache
  import opened LogReservation

  ghost function Pins(pins: seq<nat>, dev: nat, b: Buf): nat {
    if b.dev == dev && IndexOf(pins, b.blockno) < |pins| then 1 else 0
  }

  /** The cache agrees with the disk except where a block is locked or waits in the log.
      `pins` are the logged, uninstalled blocks and `slots` the buffers that hold them;
      `waiting[i]` counts processes that hold a reference to buffer i but not its lock. */
  ghost predicate Coherent(bufs: seq<Buf>, disk: Disk, dev: nat, pins: seq<nat>, slots: seq<nat>, waiting: seq<nat>) {
    && |bufs| == |waiting| == NBUF
    && dev != 0
    && Distinct(pins)
    && (forall i :: 0 <= i < NBUF ==>
          bufs[i].dev == 0 || (bufs[i].dev == dev && bufs[i].valid && bufs[i].blockno < |disk|))
    && (forall i :: 0 <= i < NBUF && bufs[i].dev == 0 ==> !bufs[i].locked && waiting[i] == 0)
    && (forall i :: 0 <= i < NBUF ==>
          bufs[i].refcnt == (if bufs[i].locked then 1 else 0) + waiting[i] + Pins(pins, dev, bufs[i]))
    && |slots| == |pins|
    && (forall t :: 0 <= t < |pins| ==> slots[t] < NBUF && Holds(bufs[slots[t]], dev, pins[t]))
    && (forall i :: 0 <= i < NBUF && bufs[i].dev == dev && !bufs[i].locked && Pins(pins, dev, bufs[i]) == 0 ==>
          bufs[i].data == disk[bufs[i].blockno])
  }

  /** The abstract block map: the logged contents of a block, else the disk's. */
  ghost function Latest(bufs: seq<Buf>, disk: Disk, pins: seq<nat>, slots: seq<nat>, b: nat): Block
    requires |slots| == |pins| && b < |disk|
    requires forall t :: 0 <= t < |pins| ==> slots[t] < |bufs|
  {
    var t := IndexOf(pins, b);
    if t < |pins| then bufs[slots[t]].data else disk[b]
  }

  ghost function ContentsOf(bufs: seq<Buf>, disk: Disk, pins: seq<nat>, slots: seq<nat>): (m: Disk)
    requires |slots| == |pins|
    requires forall t :: 0 <= t < |pins| ==> slots[t] < |bufs|
    ensures |m| == |disk|
  {
    seq(|disk|, b requires 0 <= b < |disk| => Latest(bufs, disk, pins, slots, b))
  }

  lemma ReleaseKeepsCoherent(bufs: seq<Buf>, disk: Disk, dev: nat, pins: seq<nat>, slots: seq<nat>, waiting: seq<nat>,
                             r: nat)
    requires Coherent(bufs, disk, dev, pins, slots, waiting) && r < NBUF && bufs[r].locked
    requires Pins(pins, dev, bufs[r]) == 1 || bufs[r].data == disk[bufs[r].blockno]
    ensures Coherent(bufs[r := bufs[r].(locked := false, refcnt := bufs[r].refcnt - 1)],
                     disk, dev, pins, slots, waiting)
  {
  }

  lemma ResumeKeepsCoherent(bufs: seq<Buf>, disk: Disk, dev: nat, pins: seq<nat>, slots: seq<nat>, waiting: seq<nat>,
                            r: nat)
    requires Coherent(bufs, disk, dev, pins, slots, waiting) && r < NBUF && !bufs[r].locked && waiting[r] > 0
    ensures Coherent(bufs[r := bufs[r].(locked := true)], disk, dev, pins, slots, waiting[r := waiting[r] - 1])
  {
  }

  lemma IndexOfAppend(s: seq<nat>, b: nat, x: nat)
    requires IndexOf(s, b) == |s|
    ensures IndexOf(s + [b], x) == if x == b then |s| else if IndexOf(s, x) < |s| then IndexOf(s, x) else |s| + 1
  {
    var i := IndexOf(s + [b], x);
    if i < |s| + 1 {
      assert (s + [b])[i] == x;
    }
    assert (s + [b])[|s|] == b;
    if IndexOf(s, x) < |s| {
      assert (s + [b])[IndexOf(s, x)] == x;
    }
  }

  /** Recording a new block pins its buffer and changes the contents of that block only. */
  lemma AppendKeepsCoherent(bufs: seq<Buf>, disk: Disk, dev: nat, pins: seq<nat>, slots: seq<nat>, waiting: seq<nat>,
                            r: nat)
    requires Coherent(bufs, disk, dev, pins, slots, waiting) && Unique(bufs) && r < NBUF && bufs[r].locked
    requires IndexOf(pins, bufs[r].blockno) == |pins|
    ensures var b := bufs[r].blockno;
            var after := bufs[r := bufs[r].(refcnt := bufs[r].refcnt + 1)];
            && Coherent(after, disk, dev, pins + [b], slots + [r], waiting)
            && ContentsOf(after, disk, pins + [b], slots + [r]) ==
                 ContentsOf(bufs, disk, pins, slots)[b := bufs[r].data]
  {
    var b := bufs[r].blockno;
    var after := bufs[r := bufs[r].(refcnt := bufs[r].refcnt + 1)];
    forall x: nat
      ensures IndexOf(pins + [b], x) ==
              if x == b then |pins| else if IndexOf(pins, x) < |pins| then IndexOf(pins, x) else |pins| + 1
    {
      IndexOfAppend(pins, b, x);
    }
    assert forall i :: 0 <= i < NBUF && i != r ==> after[i] == bufs[i] && !(bufs[i].dev == dev && bufs[i].blockno == b);
  }

  /** The buffer of a logged block holds its contents. */
  lemma LoggedContents(bufs: seq<Buf>, disk: Disk, dev: nat, pins: seq<nat>, slots: seq<nat>, waiting: seq<nat>, r: nat)
    requires Coherent(bufs, disk, dev, pins, slots, waiting) && Unique(bufs) && r < NBUF && bufs[r].dev == dev
    requires IndexOf(pins, bufs[r].blockno) < |pins|
    ensures slots[IndexOf(pins, bufs[r].blockno)] == r
    ensures ContentsOf(bufs, disk, pins, slots)[bufs[r].blockno] == bufs[r].data
  {
    var t := IndexOf(pins, bufs[r].blockno);
    assert Holds(bufs[slots[t]], dev, pins[t]);
  }

  lemma ModifyKeepsCoherent(bufs: seq<Buf>, disk: Disk, dev: nat, pins: seq<nat>, slots: seq<nat>, waiting: seq<nat>,
                            r: nat, data: Block)
    requires Coherent(bufs, disk, dev, pins, slots, waiting) && Unique(bufs) && r < NBUF && bufs[r].locked
    ensures var after := bufs[r := bufs[r].(data := data)];
            && Coherent(after, disk, dev, pins, slots, waiting)
            && ContentsOf(after, disk, pins, slots) ==
               if IndexOf(pins, bufs[r].blockno) < |pins|
               then ContentsOf(bufs, disk, pins, slots)[bufs[r].blockno := data]
               else ContentsOf(bufs, disk, pins, slots)
  {
    var after := bufs[r := bufs[r].(data := data)];
    var t := IndexOf(pins, bufs[r].blockno);
    if t < |pins| {
      LoggedContents(bufs, disk, dev, pins, slots, waiting, r);
    }
    forall b: nat | b < |disk| && b != bufs[r].blockno
      ensures Latest(after, disk, pins, slots, b) == Latest(bufs, disk, pins, slots, b)
    {
    }
  }

  lemma WaitKeepsCoherent(bufs: seq<Buf>, disk: Disk, dev: nat, pins: seq<nat>, slots: seq<nat>, waiting: seq<nat>,
                          r: nat)
    requires Coherent(bufs, disk, dev, pins, slots, waiting) && r < NBUF && bufs[r].dev == dev
    ensures var after := bufs[r := bufs[r].(refcnt := bufs[r].refcnt + 1)];
            && Coherent(after, disk, dev, pins, slots, waiting[r := waiting[r] + 1])
            && ContentsOf(after, disk, pins, slots) == ContentsOf(bufs, disk, pins, slots)
  {
  }

  lemma HitKeepsCoherent(bufs: seq<Buf>, disk: Disk, dev: nat, pins: seq<nat>, slots: seq<nat>, waiting: seq<nat>,
                         r: nat)
    requires Coherent(bufs, disk, dev, pins, slots, waiting) && Unique(bufs) && r < NBUF && bufs[r].dev == dev &&
             !bufs[r].locked
    ensures Coherent(bufs[r := bufs[r].(refcnt := bufs[r].refcnt + 1, locked := true)], disk, dev, pins, slots, waiting)
    ensures bufs[r].data == Latest(bufs, disk, pins, slots, bufs[r].blockno)
    ensures bufs[r].valid && bufs[r].refcnt == waiting[r] + Pins(pins, dev, bufs[r])
    ensures forall t :: 0 <= t < |pins| && pins[t] != bufs[r].blockno ==> slots[t] != r
  {
    if IndexOf(pins, bufs[r].blockno) < |pins| {
      LoggedContents(bufs, disk, dev, pins, slots, waiting, r);
    }
  }

  lemma CoherentDev(bufs: seq<Buf>, disk: Disk, dev: nat, pins: seq<nat>, slots: seq<nat>, waiting: seq<nat>)
    requires Coherent(bufs, disk, dev, pins, slots, waiting)
    ensures dev != 0
  {
  }

  lemma CoherentAt(bufs: seq<Buf>, disk: Disk, dev: nat, pins: seq<nat>, slots: seq<nat>, waiting: seq<nat>, i: nat)
    requires Coherent(bufs, disk, dev, pins, slots, waiting) && i < NBUF
    ensures bufs[i].dev == dev ==> bufs[i].valid
    ensures bufs[i].refcnt == 0 ==> waiting[i] == 0 && !bufs[i].locked
    ensures forall t :: 0 <= t < |pins| ==> Holds(bufs[slots[t]], dev, pins[t])
  {
  }

  lemma PinsOfBlock(pins: seq<nat>, dev: nat, a: Buf, b: Buf)
    requires a.dev == b.dev && a.blockno == b.blockno
    ensures Pins(pins, dev, a) == Pins(pins, dev, b)
  {
  }

  /** Recycling takes an unreferenced buffer, so never a pinned one. */
  lemma MissKeepsCoherent(bufs: seq<Buf>, disk: Disk, dev: nat, pins: seq<nat>, slots: seq<nat>, waiting: seq<nat>,
                          r: nat, b: nat)
    requires Coherent(bufs, disk, dev, pins, slots, waiting) && r < NBUF && bufs[r].refcnt == 0
    requires b < |disk| && !Cached(bufs, dev, b)
    ensures Coherent(bufs[r := Buf(true, dev, b, 1, true, disk[b])], disk, dev, pins, slots, waiting)
    ensures disk[b] == Latest(bufs, disk, pins, slots, b)
    ensures waiting[r] == 0 && Pins(pins, dev, Buf(true, dev, b, 1, true, disk[b])) == 0 && !bufs[r].locked
    ensures forall t :: 0 <= t < |pins| ==> slots[t] != r
  {
    forall t | 0 <= t < |pins|
      ensures pins[t] != b && slots[t] != r
    {
      assert Holds(bufs[slots[t]], dev, pins[t]);
      assert Pins(pins, dev, bufs[slots[t]]) == 1;
    }
  }

  /** Locked buffers stay as they are, and the buffers `slots` keep their data. */
  ghost predicate Undisturbed(was: seq<Buf>, now: seq<Buf>, slots: seq<nat>) {
    && |was| == |now|
    && (forall i :: 0 <= i < |was| && (was[i].locked || now[i].locked) ==> now[i] == was[i])
    && forall t :: 0 <= t < |slots| && slots[t] < |was| ==> now[slots[t]].data == was[slots[t]].data
  }

  lemma IndexOfTail(s: seq<nat>, x: nat)
    requires s != [] && Distinct(s)
    ensures IndexOf(s[1..], x) < |s| - 1 <==> x != s[0] && IndexOf(s, x) < |s|
  {
    var i, j := IndexOf(s, x), IndexOf(s[1..], x);
    if i < |s| && x != s[0] {
      assert s[1..][i - 1] == x;
    }
    if j < |s| - 1 {
      assert s[j + 1] == x;
    }
  }

  /** Once its buffer has been written home, a block needs its pin no more. */
  lemma UnpinKeepsCoherent(bufs: seq<Buf>, disk: Disk, dev: nat, pins: seq<nat>, slots: seq<nat>, waiting: seq<nat>,
                           r: nat)
    requires Coherent(bufs, disk, dev, pins, slots, waiting) && BufsOk(bufs) && pins != []
    requires r < NBUF && bufs[r].locked && bufs[r].blockno == pins[0] && bufs[r].data == disk[pins[0]]
    ensures bufs[r].refcnt > 1
    ensures Coherent(bufs[r := bufs[r].(refcnt := bufs[r].refcnt - 1)], disk, dev, pins[1..], slots[1..], waiting)
  {
    forall x: nat
      ensures IndexOf(pins[1..], x) < |pins| - 1 <==> x != pins[0] && IndexOf(pins, x) < |pins|
    {
      IndexOfTail(pins, x);
    }
    forall i | 0 <= i < NBUF && i != r
      ensures bufs[i].dev == dev ==> bufs[i].blockno != pins[0]
    {
    }
  }

  /** The data of the pinned buffers: what a commit writes. */
  ghost function Data(bufs: seq<Buf>, slots: seq<nat>): (data: seq<Block>)
    requires forall t :: 0 <= t < |slots| ==> slots[t] < |bufs|
    ensures |data| == |slots|
  {
    seq(|slots|, t requires 0 <= t < |slots| => bufs[slots[t]].data)
  }

  ghost predicate AllFree(bufs: seq<Buf>) {
    forall i :: 0 <= i < |bufs| ==> bufs[i].refcnt == 0
  }

  lemma LoggedKept(d: Disk, start: nat, n: nat, b: nat, x: Block)
    requires n <= LOGBLOCKS && start + LOGBLOCKS < |d| && Home(b, start, |d|)
    ensures Logged(d[b := x], start, n) == Logged(d, start, n)
    ensures forall t :: 0 <= t < n ==> Logged(d, start, n)[t] == d[start + 1 + t]
  {
  }

  /** What a stretch of traced writes did to the disk. */
  lemma DiskAfter(d: Disk, e: Disk, d0: Disk, before: seq<Write>, ws: seq<Write>)
    requires Fits(before, |d0|) && d == Apply(d0, before)
    requires Fits(before + ws, |d0|) && e == Apply(d0, before + ws)
    ensures Fits(ws, |d|) && e == Apply(d, ws)
  {
    hide Apply;
    assert forall k :: 0 <= k < |ws| ==> ws[k] == (before + ws)[|before| + k];
    ApplyConcat(d0, before, ws);
  }

  lemma LogWritesKeepHeader(d: Disk, start: nat, x: Txn)
    requires TxnOk(x, start, |d|)
    ensures Fits(LogWrites(start, x.data), |d|)
    ensures Apply(d, LogWrites(start, x.data))[start] == d[start]
  {
    InstallsFit(x, start, |d|);
    ApplyUntouched(d, LogWrites(start, x.data), start);
  }

  lemma CommitPoint(d: Disk, e: Disk, start: nat, x: Txn)
    requires TxnOk(x, start, |d|) && x.lh != []
    requires Fits(LogWrites(start, x.data), |d|) && e == Apply(d, LogWrites(start, x.data))
    ensures CutCommit(d, start, x, |x.lh| + 1) == e[start := HeaderBlock(d[start], x.lh)]
  {
    hide Apply, HeaderBlock;
    var ws := CommitWrites(d[start], start, x);
    var lw, h := LogWrites(start, x.data), Write(start, HeaderBlock(d[start], x.lh));
    ApplySnoc(d, lw, h);
    assert ws[..|x.lh| + 1] == lw + [h];
  }

  lemma AtCommitPoint(d: Disk, start: nat, x: Txn)
    requires TxnOk(x, start, |d|) && x.lh != [] && Clean(d, d, start)
    ensures var e := CutCommit(d, start, x, |x.lh| + 1);
            && |e| == |d| && e[start] == HeaderBlock(d[start], x.lh)
            && Logged(e, start, |x.lh|) == x.data
  {
    HeaderWriteCommits(d, start, x);
  }

  lemma CommitWritesInOrder(before: seq<Write>, header: Block, start: nat, x: Txn)
    requires |x.lh| == |x.data| && 0 < |x.lh| <= LOGBLOCKS && WordsFit(x.lh)
    ensures before + CommitWrites(header, start, x)
         == before + LogWrites(start, x.data) + [Write(start, HeaderBlock(header, x.lh))]
            + InstallWrites(x.lh, x.data) + [Write(start, HeaderBlock(HeaderBlock(header, x.lh), []))]
  {
  }

  lemma WholeCommit(d: Disk, start: nat, x: Txn)
    requires TxnOk(x, start, |d|) && x.lh != [] && Clean(d, d, start)
    ensures Fits(CommitWrites(d[start], start, x), |d|)
    ensures Clean(Apply(d, CommitWrites(d[start], start, x)), After(d, x), start)
  {
    hide Pending, Apply;
    var ws := CommitWrites(d[start], start, x);
    InstallsFit(x, start, |d|);
    CutAfterHeader(d, start, x, |ws|);
    assert ws[..|ws|] == ws;
  }

  lemma CleanItself(d: Disk, m: Disk, start: nat)
    requires Clean(d, m, start)
    ensures Clean(d, d, start)
  {
  }

  lemma CutRecoveryWhole(d: Disk, start: nat)
    requires Recoverable(d, start)
    ensures Fits(RecoveryWrites(d, start), |d|)
    ensures Apply(d, RecoveryWrites(d, start)) == CutRecovery(d, start, |ReadHeader(d[start])| + 1)
  {
    hide Apply, HeaderBlock, ReadHeader;
    var ws := RecoveryWrites(d, start);
    assert ws[..|ws|] == ws;
  }

  lemma WholeRecovery(d: Disk, start: nat)
    requires Recoverable(d, start)
    ensures var e := CutRecovery(d, start, |ReadHeader(d[start])| + 1); Clean(e, e, start)
  {
    var lh := ReadHeader(d[start]);
    var x := Txn(lh, Logged(d, start, |lh|));
    assert Pending(d, d, start, x);
    hide Pending, CutRecovery;
    CutRecoveryOfPending(d, d, start, x, |lh| + 1);
    CleanItself(CutRecovery(d, start, |lh| + 1), After(d, x), start);
  }

  /** The contents that cache and log serve are those the logged transaction would leave. */
  lemma ContentsIsAfter(bufs: seq<Buf>, disk: Disk, pins: seq<nat>, slots: seq<nat>)
    requires |slots| == |pins| && forall t :: 0 <= t < |pins| ==> slots[t] < |bufs|
    ensures ContentsOf(bufs, disk, pins, slots) == After(disk, Txn(pins, Data(bufs, slots)))
  {
  }

  class Log {
    const cache: Cache
    const dev: nat
    const start: nat
    var lh: seq<nat>
    var outstanding: nat
    var committing: bool
    ghost var slots: seq<nat>
    ghost var waiting: seq<nat>

    ghost predicate Coh(pins: seq<nat>, slots: seq<nat>)
      reads this, cache
    {
      cache.Valid() && Coherent(cache.bufs, cache.disk, dev, pins, slots, waiting)
    }

    ghost function State(): LogState
      reads this
    {
      LogState(lh, outstanding, committing)
    }

    ghost predicate Unlocked(b: nat)
      reads this, cache
    {
      forall i :: 0 <= i < |cache.bufs| && Holds(cache.bufs[i], dev, b) ==> !cache.bufs[i].locked
    }

    /** initlog before recovery: nothing is logged or referenced yet. */
    constructor (cache: Cache, dev: nat, start: nat)
      requires cache.Valid()
      requires Coherent(cache.bufs, cache.disk, dev, [], [], seq(NBUF, _ => 0))
      ensures this.cache == cache && this.dev == dev && this.start == start
      ensures State() == LogState([], 0, false) && slots == [] && Coh([], [])
    {
      this.cache, this.dev, this.start := cache, dev, start;
      lh, outstanding, committing := [], 0, false;
      slots, waiting := [], seq(NBUF, _ => 0);
    }

    /** bread at the coherence level: the latest contents of any block, without disturbing a
        pinned buffer. */
    method Read(b: nat, ghost pins: seq<nat>, ghost slots: seq<nat>) returns (r: nat, ok: bool)
      requires Coh(pins, slots) && b < |cache.disk| && Unlocked(b)
      modifies cache`bufs
      ensures Coh(pins, slots)
      ensures ok <==> old(Cached(cache.bufs, dev, b)) || old(SomeFree(cache.bufs))
      ensures !ok ==> cache.bufs == old(cache.bufs)
      ensures ok ==>
                && r < NBUF
                && cache.bufs == old(cache.bufs)[r := cache.bufs[r]]
                && Holds(cache.bufs[r], dev, b) && cache.bufs[r].locked && !old(cache.bufs)[r].locked
                && cache.bufs[r].refcnt == 1 + waiting[r] + Pins(pins, dev, cache.bufs[r])
                && cache.bufs[r].data == old(Latest(cache.bufs, cache.disk, pins, slots, b))
                && (if old(Cached(cache.bufs, dev, b))
                    then Holds(old(cache.bufs)[r], dev, b) && cache.bufs[r].data == old(cache.bufs)[r].data
                    else old(cache.bufs)[r].refcnt == 0)
                && (forall t :: 0 <= t < |pins| && pins[t] != b ==> slots[t] != r)
    {
      hide Coherent, Permutation, Linked, ByRecency, Latest;
      CoherentDev(cache.bufs, cache.disk, dev, pins, slots, waiting);
      r, ok := cache.Bread(dev, b);
      if ok {
        ghost var was := old(cache.bufs)[r];
        if old(Cached(cache.bufs, dev, b)) {
          HitKeepsCoherent(old(cache.bufs), cache.disk, dev, pins, slots, waiting, r);
          assert cache.bufs[r] == was.(refcnt := was.refcnt + 1, locked := true);
        } else {
          MissKeepsCoherent(old(cache.bufs), cache.disk, dev, pins, slots, waiting, r, b);
        }
      }
    }

    /** brelse at the coherence level: every change has been logged or written through. */
    method Release(r: nat, ghost pins: seq<nat>, ghost slots: seq<nat>)
      requires Coh(pins, slots) && r < NBUF && cache.bufs[r].locked
      requires Pins(pins, dev, cache.bufs[r]) == 1 || cache.bufs[r].data == cache.disk[cache.bufs[r].blockno]
      modifies cache`bufs, cache`next, cache`prev, cache`order, cache`lastUse, cache`clock
      ensures Coh(pins, slots)
      ensures cache.bufs ==
              old(cache.bufs)[r := old(cache.bufs)[r].(locked := false, refcnt := old(cache.bufs)[r].refcnt - 1)]
    {
      hide Coherent, Pins, BufsOk, Permutation, Linked, ByRecency;
      ReleaseKeepsCoherent(cache.bufs, cache.disk, dev, pins, slots, waiting, r);
      cache.Brelse(r);
    }

    /** bwrite at the coherence level. */
    method WriteThrough(r: nat, ghost pins: seq<nat>, ghost slots: seq<nat>)
      requires Coh(pins, slots) && r < NBUF && cache.bufs[r].locked
      modifies cache`disk, cache`writes
      ensures Coh(pins, slots)
      ensures cache.writes == old(cache.writes) + [Write(cache.bufs[r].blockno, cache.bufs[r].data)]
      ensures cache.disk == old(cache.disk)[cache.bufs[r].blockno := cache.bufs[r].data]
      ensures old(cache.Traced()) ==> cache.Traced()
    {
      cache.Bwrite(r);
    }

    /** A change to a locked buffer at the coherence level. */
    method Assign(r: nat, data: Block, ghost pins: seq<nat>, ghost slots: seq<nat>)
      requires Coh(pins, slots) && r < NBUF && cache.bufs[r].locked
      modifies cache`bufs
      ensures Coh(pins, slots)
      ensures cache.bufs == old(cache.bufs)[r := old(cache.bufs)[r].(data := data)]
    {
      ModifyKeepsCoherent(cache.bufs, cache.disk, dev, pins, slots, waiting, r, data);
      cache.SetData(r, data);
    }

    // ---- The interface to the file system ----

    /** The on-disk log is clear, the transaction so far is in the cache, and only log code
        ever holds a log block. */
    ghost predicate Valid()
      reads this, cache
    {
      && Coh(lh, slots)
      && |cache.disk| <= U32
      && Clean(cache.disk, cache.disk, start)
      && TargetsOk(lh, start, |cache.disk|)
      && LogIdle()
    }

    ghost predicate LogIdle()
      reads this, cache
      requires |cache.bufs| == NBUF && |waiting| == NBUF
    {
      forall i :: 0 <= i < NBUF && cache.bufs[i].dev == dev && InLog(cache.bufs[i].blockno, start) ==>
        !cache.bufs[i].locked && waiting[i] == 0
    }

    /** The block map that cache and log implement. */
    ghost function Contents(): (m: Disk)
      reads this, cache
      requires Coh(lh, slots)
    {
      ContentsOf(cache.bufs, cache.disk, lh, slots)
    }

    /** bread: the caller sees the latest contents; no contents change. */
    method Bread(b: nat) returns (r: nat, ok: bool)
      requires Valid() && Home(b, start, |cache.disk|) && Unlocked(b)
      modifies cache`bufs
      ensures Valid() && Contents() == old(Contents())
      ensures ok <==> old(Cached(cache.bufs, dev, b)) || old(SomeFree(cache.bufs))
      ensures ok ==> r < NBUF && Holds(cache.bufs[r], dev, b) && cache.bufs[r].locked
      ensures ok ==> cache.bufs[r].data == Contents()[b]
      ensures ok ==> cache.bufs == old(cache.bufs)[r := cache.bufs[r]]
    {
      hide Pins, Permutation, Linked, ByRecency, BufsOk, Clean, TargetsOk, Distinct, Unique;
      r, ok := Read(b, lh, slots);
    }

    /** Another process asks for a locked block: it takes a reference and sleeps. */
    method Wait(r: nat)
      requires Valid() && r < NBUF && cache.bufs[r].locked
      modifies cache`bufs, this`waiting
      ensures Valid() && Contents() == old(Contents())
      ensures waiting == old(waiting)[r := old(waiting)[r] + 1]
    {
      hide Permutation, Linked, ByRecency, Pending, ContentsOf;
      WaitKeepsCoherent(cache.bufs, cache.disk, dev, lh, slots, waiting, r);
      assert Cached(cache.bufs, dev, cache.bufs[r].blockno);
      waiting := waiting[r := waiting[r] + 1];
      var q, ok := cache.Bget(dev, cache.bufs[r].blockno);
      assert q == r;
    }

    /** It gets the lock once the holder has released it. */
    method Resume(r: nat)
      requires Valid() && r < NBUF && !cache.bufs[r].locked && waiting[r] > 0
      modifies cache`bufs, this`waiting
      ensures Valid() && Contents() == old(Contents())
      ensures cache.bufs[r].locked && cache.bufs[r].data == Contents()[cache.bufs[r].blockno]
    {
      hide Permutation, Linked, ByRecency, Clean, TargetsOk;
      ResumeKeepsCoherent(cache.bufs, cache.disk, dev, lh, slots, waiting, r);
      cache.Lock(r);
      waiting := waiting[r := waiting[r] - 1];
    }

    /** The holder changes its buffer: no disk block changes, and no other block's contents. */
    method Modify(r: nat, data: Block)
      requires Valid() && r < NBUF && cache.bufs[r].locked
      modifies cache`bufs
      ensures Valid()
      ensures cache.bufs == old(cache.bufs)[r := old(cache.bufs)[r].(data := data)]
      ensures var b := cache.bufs[r].blockno;
              Contents() == if IndexOf(lh, b) < |lh| then old(Contents())[b := data] else old(Contents())
    {
      hide Coherent, Pins, ContentsOf, Clean, Permutation, Linked, ByRecency, TargetsOk;
      ModifyKeepsCoherent(cache.bufs, cache.disk, dev, lh, slots, waiting, r, data);
      cache.SetData(r, data);
    }

    /** log_write: the buffer's bytes become the block's contents, pinned once in the cache;
        nothing reaches the disk. */
    method LogWrite(r: nat) returns (o: LogWriteOutcome)
      requires Valid() && r < NBUF && cache.bufs[r].locked
      requires Home(cache.bufs[r].blockno, start, |cache.disk|)
      modifies cache`bufs, this`lh, this`slots
      ensures Valid()
      ensures o == Record(old(State()), old(cache.bufs)[r].blockno)
      ensures o.TooBig? <==> |old(lh)| >= LOGBLOCKS
      ensures o.OutsideTransaction? <==> |old(lh)| < LOGBLOCKS && old(outstanding) < 1
      ensures lh == old(lh) + if o.Recorded? && old(cache.bufs)[r].blockno !in old(lh)
                              then [old(cache.bufs)[r].blockno] else []
      ensures !o.Recorded? ==> cache.bufs == old(cache.bufs) && lh == old(lh) && Contents() == old(Contents())
      ensures o.Recorded? ==> lh == o.lh && cache.bufs[r].(refcnt := 0) == old(cache.bufs)[r].(refcnt := 0)
      ensures o.Recorded? ==> cache.bufs == old(cache.bufs)[r := cache.bufs[r]]
      ensures o.Recorded? ==> Contents() == old(Contents())[old(cache.bufs)[r].blockno := old(cache.bufs)[r].data]
    {
      if |lh| >= LOGBLOCKS {
        return TooBig;
      }
      if outstanding < 1 {
        return OutsideTransaction;
      }
      var i := Find(cache.bufs[r].blockno);
      if i == |lh| {
        Append(r);
      } else {
        LoggedContents(cache.bufs, cache.disk, dev, lh, slots, waiting, r);
        assert lh[i := lh[i]] == lh;
        lh := lh[i := cache.bufs[r].blockno];
      }
      o := Recorded(lh);
    }

    /** log_write's absorption scan. */
    method Find(b: nat) returns (i: nat)
      ensures i == IndexOf(lh, b)
    {
      i := 0;
      while i < |lh| && lh[i] != b
        invariant 0 <= i <= |lh|
        invariant forall j :: 0 <= j < i ==> lh[j] != b
      {
        i := i + 1;
      }
    }

    method Append(r: nat)
      requires Valid() && r < NBUF && cache.bufs[r].locked && |lh| < LOGBLOCKS
      requires Home(cache.bufs[r].blockno, start, |cache.disk|) && IndexOf(lh, cache.bufs[r].blockno) == |lh|
      modifies cache`bufs, this`lh, this`slots
      ensures Valid() && lh == old(lh) + [old(cache.bufs)[r].blockno]
      ensures cache.bufs == old(cache.bufs)[r := old(cache.bufs)[r].(refcnt := old(cache.bufs)[r].refcnt + 1)]
      ensures Contents() == old(Contents())[old(cache.bufs)[r].blockno := old(cache.bufs)[r].data]
    {
      hide Coherent, Pins, ContentsOf, Clean, Permutation, Linked, ByRecency;
      AppendKeepsCoherent(cache.bufs, cache.disk, dev, lh, slots, waiting, r);
      cache.Bpin(r);
      lh := lh + [cache.bufs[r].blockno];
      slots := slots + [r];
    }

    /** brelse of a buffer whose changes, if any, were logged. */
    method Brelse(r: nat)
      requires Valid() && r < NBUF && cache.bufs[r].locked
      requires cache.bufs[r].data == Contents()[cache.bufs[r].blockno]
      modifies cache`bufs, cache`next, cache`prev, cache`order, cache`lastUse, cache`clock
      ensures Valid() && Contents() == old(Contents())
      ensures cache.bufs ==
              old(cache.bufs)[r := old(cache.bufs)[r].(locked := false, refcnt := old(cache.bufs)[r].refcnt - 1)]
    {
      Release(r, lh, slots);
    }

    // ---- Operations ----

    /** begin_op's check under the lock: sleep, or join the transaction. */
    method BeginOp() returns (slept: bool)
      modifies this`outstanding
      ensures slept == MustWait(old(State()))
      ensures slept <==> old(committing) || |old(lh)| + (old(outstanding) + 1) * MAXOPBLOCKS > LOGBLOCKS
      ensures State() == if slept then old(State()) else old(State()).(outstanding := old(outstanding) + 1)
    {
      if committing {
        slept := true;
      } else if |lh| + (outstanding + 1) * MAXOPBLOCKS > LOGBLOCKS {
        slept := true;
      } else {
        outstanding := outstanding + 1;
        slept := false;
      }
    }

    // ---- Commit ----

    /** What holds between the steps of a commit; `pins` shrinks as blocks are installed. */
    ghost predicate Core(pins: seq<nat>, slots: seq<nat>)
      reads this, cache
    {
      && Coh(pins, slots)
      && |cache.bufs| == |waiting| == NBUF && |slots| == |pins|
      && (forall t :: 0 <= t < |slots| ==> slots[t] < NBUF)
      && Distinct(pins)
      && cache.Traced()
      && LogIdle()
      && start + LOGBLOCKS < |cache.disk| <= U32
      && forall t :: 0 <= t < |pins| ==> Home(pins[t], start, |cache.disk|)
    }

    /** bread of a block of the log area: it is nobody else's, so any unreferenced buffer does. */
    method ReadLogBlock(t: nat, ghost pins: seq<nat>, ghost slots: seq<nat>) returns (r: nat, ok: bool)
      requires Core(pins, slots) && t <= LOGBLOCKS
      modifies cache`bufs
      ensures Coh(pins, slots)
      ensures ok <==> old(SomeFree(cache.bufs))
      ensures !ok ==> cache.bufs == old(cache.bufs)
      ensures ok ==>
                && r < NBUF && old(cache.bufs)[r].refcnt == 0 && !old(cache.bufs)[r].locked && waiting[r] == 0
                && cache.bufs == old(cache.bufs)[r := Buf(true, dev, start + t, 1, true, cache.disk[start + t])]
                && forall t :: 0 <= t < |pins| ==> slots[t] != r
    {
      r, ok := Read(start + t, pins, slots);
    }

    /** bread of a pinned block always finds its buffer. */
    method ReadPinned(b: nat, ghost t: nat, ghost pins: seq<nat>, ghost slots: seq<nat>) returns (r: nat)
      requires Coh(pins, slots) && t < |pins| && pins[t] == b < |cache.disk| && Unlocked(b)
      modifies cache`bufs
      ensures Coh(pins, slots) && r == slots[t] && !old(cache.bufs)[r].locked
      ensures Pins(pins, dev, cache.bufs[r]) == 1
      ensures cache.bufs ==
              old(cache.bufs)[r := old(cache.bufs)[r].(refcnt := old(cache.bufs)[r].refcnt + 1, locked := true)]
    {
      var ok;
      assert Holds(cache.bufs[slots[t]], dev, pins[t]);
      r, ok := Read(b, pins, slots);
    }

    /** One round of write_log: a cached block goes to its place in the log. */
    method CopyToLog(tail: nat) returns (to: nat, ok: bool)
      requires Core(lh, slots) && tail < |lh| <= LOGBLOCKS && Unlocked(lh[tail])
      modifies cache
      ensures Core(lh, slots)
      ensures ok <==> old(SomeFree(cache.bufs))
      ensures !ok ==> unchanged(cache)
      ensures ok ==>
                var data := old(cache.bufs)[slots[tail]].data;
                && to < NBUF && old(cache.bufs)[to].refcnt == 0 && !old(cache.bufs)[to].locked
                && (forall t :: 0 <= t < |slots| ==> slots[t] != to)
                && cache.bufs == old(cache.bufs)[to := Buf(true, dev, start + 1 + tail, 0, false, data)]
                && cache.writes == old(cache.writes) + [Write(start + 1 + tail, data)]
                && cache.disk == old(cache.disk)[start + 1 + tail := data]
    {
      hide BufsOk, Permutation, Linked, ByRecency, Apply, Pins, Coherent, Distinct;
      var from;
      to, from, ok := WriteLogBlock(tail);
      if ok {
        CoherentAt(old(cache.bufs), old(cache.disk), dev, lh, slots, waiting, to);
        ghost var was := old(cache.bufs)[from];
        Release(from, lh, slots);
        assert cache.bufs[from] == was;
        Release(to, lh, slots);
      }
    }

    /** The reads, the copy and the disk write of that round. */
    method WriteLogBlock(tail: nat) returns (to: nat, from: nat, ok: bool)
      requires Core(lh, slots) && tail < |lh| <= LOGBLOCKS && Unlocked(lh[tail])
      modifies cache`bufs, cache`disk, cache`writes
      ensures Coh(lh, slots) && cache.Traced()
      ensures ok <==> old(SomeFree(cache.bufs))
      ensures !ok ==> unchanged(cache)
      ensures ok ==>
                var was := old(cache.bufs)[slots[tail]];
                && to < NBUF && old(cache.bufs)[to].refcnt == 0 && !old(cache.bufs)[to].locked
                && (forall t :: 0 <= t < |slots| ==> slots[t] != to)
                && from == slots[tail] && !was.locked && Pins(lh, dev, cache.bufs[from]) == 1
                && cache.bufs == old(cache.bufs)[to := Buf(true, dev, start + 1 + tail, 1, true, was.data)]
                                                [from := was.(refcnt := was.refcnt + 1, locked := true)]
                && cache.writes == old(cache.writes) + [Write(start + 1 + tail, was.data)]
                && cache.disk == old(cache.disk)[start + 1 + tail := was.data]
    {
      hide BufsOk, Permutation, Linked, ByRecency, Apply, Pins, Distinct;
      from := 0;
      to, ok := ReadLogBlock(tail + 1, lh, slots);
      if ok {
        from := ReadPinned(lh[tail], tail, lh, slots);
        ghost var was := old(cache.bufs)[from];
        assert cache.bufs[from].data == was.data;
        Assign(to, cache.bufs[from].data, lh, slots);
        assert cache.bufs[to] == Buf(true, dev, start + 1 + tail, 1, true, was.data);
        WriteThrough(to, lh, slots);
      }
    }

    /** write_log: every logged block goes to the log, in order. */
    method WriteLog() returns (ok: bool)
      requires Core(lh, slots) && 0 < |lh| <= LOGBLOCKS
      requires forall t :: 0 <= t < |lh| ==> Unlocked(lh[t])
      modifies cache
      ensures Core(lh, slots)
      ensures ok <==> old(SomeFree(cache.bufs))
      ensures !ok ==> unchanged(cache)
      ensures ok ==> SomeFree(cache.bufs) && Undisturbed(old(cache.bufs), cache.bufs, slots)
      ensures ok ==> cache.writes == old(cache.writes) + LogWrites(start, Data(old(cache.bufs), slots))
    {
      hide BufsOk, Permutation, Linked, ByRecency, Apply, Pins, Coherent, Distinct;
      ghost var data := Data(cache.bufs, slots);
      ghost var ws := LogWrites(start, data);
      var tail := 0;
      ok := true;
      while tail < |lh|
        invariant 0 <= tail <= |lh|
        invariant Core(lh, slots)
        invariant ok && (tail > 0 ==> old(SomeFree(cache.bufs)) && SomeFree(cache.bufs))
        invariant tail == 0 ==> unchanged(cache)
        invariant Undisturbed(old(cache.bufs), cache.bufs, slots)
        invariant cache.writes == old(cache.writes) + ws[..tail]
      {
        UndisturbedUnlocked(old(cache.bufs), cache.bufs, slots, lh[tail]);
        var to;
        to, ok := CopyToLog(tail);
        if !ok {
          return;
        }
        assert cache.bufs[to].refcnt == 0;
        assert ws[..tail + 1] == ws[..tail] + [ws[tail]];
        tail := tail + 1;
      }
      assert ws[..tail] == ws;
    }

    /** Blocks that were unlocked stay so. */
    lemma UndisturbedUnlocked(was: seq<Buf>, now: seq<Buf>, slots: seq<nat>, b: nat)
      requires Undisturbed(was, now, slots)
      requires forall i :: 0 <= i < |was| && Holds(was[i], dev, b) ==> !was[i].locked
      ensures forall i :: 0 <= i < |now| && Holds(now[i], dev, b) ==> !now[i].locked
    {
    }

    /** write_head: the in-memory header goes to disk. */
    method WriteHead(ghost pins: seq<nat>, ghost slots: seq<nat>)
      requires Core(pins, slots) && |lh| <= LOGBLOCKS && WordsFit(lh) && SomeFree(cache.bufs)
      modifies cache
      ensures Core(pins, slots) && SomeFree(cache.bufs)
      ensures Undisturbed(old(cache.bufs), cache.bufs, slots)
      ensures old(AllFree(cache.bufs)) ==> AllFree(cache.bufs)
      ensures cache.writes == old(cache.writes) + [Write(start, HeaderBlock(old(cache.disk)[start], lh))]
      ensures cache.disk == old(cache.disk)[start := HeaderBlock(old(cache.disk)[start], lh)]
    {
      hide BufsOk, Permutation, Linked, ByRecency, Apply, Pins, Coherent, Distinct;
      var r, ok := ReadLogBlock(0, pins, slots);
      var hb := PutWord(cache.bufs[r].data, 0, |lh|);
      var i := 0;
      while i < |lh|
        invariant 0 <= i <= |lh|
        invariant hb == HeaderEntries(PutWord(cache.bufs[r].data, 0, |lh|), lh, i)
      {
        hb := PutWord(hb, 1 + i, lh[i]);
        i := i + 1;
      }
      Assign(r, hb, pins, slots);
      WriteThrough(r, pins, slots);
      Release(r, pins, slots);
      assert cache.bufs[r].refcnt == 0;
    }

    /** The reads, the copy and the disk write of one round of install_trans. */
    method InstallBlock(tail: nat, ghost pins: seq<nat>, ghost slots: seq<nat>) returns (lbuf: nat, dbuf: nat)
      requires Core(pins, slots) && tail < |lh| <= LOGBLOCKS
      requires Home(lh[tail], start, |cache.disk|) && Unlocked(lh[tail])
      requires AllFree(cache.bufs) || (SomeFree(cache.bufs) && pins != [] && pins[0] == lh[tail])
      modifies cache`bufs, cache`disk, cache`writes
      ensures Coh(pins, slots) && cache.Traced()
      ensures lbuf < NBUF && dbuf < NBUF && lbuf != dbuf && waiting[lbuf] == 0
      ensures !old(cache.bufs)[lbuf].locked && !old(cache.bufs)[dbuf].locked
      ensures old(cache.bufs)[dbuf].refcnt == 0 ==> waiting[dbuf] == 0
      ensures forall t :: 0 <= t < |pins| ==> slots[t] != lbuf
      ensures forall t :: 0 <= t < |pins| && pins[t] != lh[tail] ==> slots[t] != dbuf
      ensures var data := old(cache.disk)[start + 1 + tail];
              && cache.bufs[lbuf] == Buf(true, dev, start + 1 + tail, 1, true, data)
              && cache.bufs[dbuf] == Buf(true, dev, lh[tail], cache.bufs[dbuf].refcnt, true, data)
              && cache.bufs[dbuf].refcnt == 1 + waiting[dbuf] + Pins(pins, dev, cache.bufs[dbuf])
              && cache.bufs == old(cache.bufs)[lbuf := cache.bufs[lbuf]][dbuf := cache.bufs[dbuf]]
              && cache.writes == old(cache.writes) + [Write(lh[tail], data)]
              && cache.disk == old(cache.disk)[lh[tail] := data]
    {
      hide BufsOk, Permutation, Linked, ByRecency, Apply, Pins, Distinct, Coherent, Latest, SameHome, Clean;
      var ok;
      assert AllFree(cache.bufs) ==> cache.bufs[0].refcnt == 0;
      lbuf, ok := ReadLogBlock(tail + 1, pins, slots);
      CoherentAt(cache.bufs, cache.disk, dev, pins, slots, waiting, lbuf);
      if AllFree(old(cache.bufs)) {
        assert cache.bufs[if lbuf == 0 then 1 else 0].refcnt == 0;
      } else {
        assert Holds(cache.bufs[slots[0]], dev, lh[tail]);
      }
      dbuf, ok := Read(lh[tail], pins, slots);
      CoherentAt(old(cache.bufs), old(cache.disk), dev, pins, slots, waiting, dbuf);
      CoherentAt(cache.bufs, cache.disk, dev, pins, slots, waiting, dbuf);
      PinsOfBlock(pins, dev, cache.bufs[dbuf], cache.bufs[dbuf].(data := cache.bufs[lbuf].data));
      Assign(dbuf, cache.bufs[lbuf].data, pins, slots);
      WriteThrough(dbuf, pins, slots);
    }

    /** One round of install_trans. In a commit the block is unpinned; in recovery nothing is. */
    method InstallRound(tail: nat, recovering: bool, ghost pins: seq<nat>, ghost slots: seq<nat>)
      requires Core(pins, slots) && tail < |lh| <= LOGBLOCKS
      requires Home(lh[tail], start, |cache.disk|) && Unlocked(lh[tail])
      requires recovering ==> pins == [] && AllFree(cache.bufs)
      requires !recovering ==> pins != [] && pins[0] == lh[tail] && SomeFree(cache.bufs)
      modifies cache
      ensures recovering ==> Core([], []) && AllFree(cache.bufs)
      ensures !recovering ==> Core(pins[1..], slots[1..]) && SomeFree(cache.bufs)
      ensures Undisturbed(old(cache.bufs), cache.bufs, if recovering then [] else slots[1..])
      ensures var data := old(cache.disk)[start + 1 + tail];
              && cache.writes == old(cache.writes) + [Write(lh[tail], data)]
              && cache.disk == old(cache.disk)[lh[tail] := data]
    {
      hide BufsOk, Permutation, Linked, ByRecency, Apply, Pins, Coherent;
      var lbuf, dbuf := InstallBlock(tail, pins, slots);
      if recovering {
        EmptyPins(dev, cache.bufs[dbuf]);
        ReleasePair(lbuf, dbuf, [], []);
        UndisturbedPair(old(cache.bufs), cache.bufs, lbuf, dbuf, []);
      } else {
        UnpinAndRelease(lbuf, dbuf, pins, slots);
        UndisturbedPair(old(cache.bufs), cache.bufs, lbuf, dbuf, slots[1..]);
        assert cache.bufs[lbuf].refcnt == 0;
      }
    }

    /** The end of a commit's round: the destination is unpinned. */
    method UnpinAndRelease(lbuf: nat, dbuf: nat, ghost pins: seq<nat>, ghost slots: seq<nat>)
      requires Coh(pins, slots) && cache.Traced() && lbuf < NBUF && dbuf < NBUF && lbuf != dbuf
      requires pins != [] && |cache.bufs| == NBUF && |slots| == |pins| && cache.bufs[dbuf].blockno == pins[0]
      requires forall r | r in {lbuf, dbuf} ::
                 cache.bufs[r].locked && cache.bufs[r].refcnt > 0 && cache.bufs[r].blockno < |cache.disk|
      requires forall r | r in {lbuf, dbuf} :: cache.bufs[r].data == cache.disk[cache.bufs[r].blockno]
      modifies cache`bufs, cache`next, cache`prev, cache`order, cache`lastUse, cache`clock
      ensures Coh(pins[1..], slots[1..]) && cache.Traced()
      ensures old(cache.bufs)[dbuf].refcnt >= 2
      ensures cache.bufs ==
              old(cache.bufs)
                [lbuf := old(cache.bufs)[lbuf].(locked := false, refcnt := old(cache.bufs)[lbuf].refcnt - 1)]
                [dbuf := old(cache.bufs)[dbuf].(locked := false, refcnt := old(cache.bufs)[dbuf].refcnt - 2)]
    {
      hide BufsOk, Permutation, Linked, ByRecency, Apply, Pins, Coherent;
      UnpinKeepsCoherent(cache.bufs, cache.disk, dev, pins, slots, waiting, dbuf);
      cache.Bunpin(dbuf);
      ReleasePair(lbuf, dbuf, pins[1..], slots[1..]);
    }

    lemma UndisturbedPair(was: seq<Buf>, now: seq<Buf>, l: nat, d: nat, slots: seq<nat>)
      requires |was| == |now| == NBUF && l < NBUF && d < NBUF && now == was[l := now[l]][d := now[d]]
      requires !was[l].locked && !was[d].locked && !now[l].locked && !now[d].locked
      requires forall t :: 0 <= t < |slots| ==> slots[t] != l && slots[t] != d
      ensures Undisturbed(was, now, slots)
    {
    }

    lemma EmptyPins(dev: nat, b: Buf)
      ensures Pins([], dev, b) == 0
    {
    }

    /** The two brelse calls that end a round. */
    method ReleasePair(lbuf: nat, dbuf: nat, ghost pins: seq<nat>, ghost slots: seq<nat>)
      requires Coh(pins, slots) && cache.Traced() && lbuf < NBUF && dbuf < NBUF && lbuf != dbuf
      requires |cache.bufs| == NBUF
      requires forall r | r in {lbuf, dbuf} ::
                 cache.bufs[r].locked && cache.bufs[r].refcnt > 0 && cache.bufs[r].blockno < |cache.disk|
      requires forall r | r in {lbuf, dbuf} :: cache.bufs[r].data == cache.disk[cache.bufs[r].blockno]
      modifies cache`bufs, cache`next, cache`prev, cache`order, cache`lastUse, cache`clock
      ensures Coh(pins, slots) && cache.Traced()
      ensures cache.bufs ==
              old(cache.bufs)
                [lbuf := old(cache.bufs)[lbuf].(locked := false, refcnt := old(cache.bufs)[lbuf].refcnt - 1)]
                [dbuf := old(cache.bufs)[dbuf].(locked := false, refcnt := old(cache.bufs)[dbuf].refcnt - 1)]
    {
      hide BufsOk, Permutation, Linked, ByRecency, Apply, Pins, Coherent;
      Release(lbuf, pins, slots);
      Release(dbuf, pins, slots);
    }

    /** Where install_trans stands before round `tail`. */
    ghost predicate Installing(tail: nat, recovering: bool)
      reads this, cache
      requires tail <= |lh|
    {
      && (recovering ==> Core([], []) && AllFree(cache.bufs))
      && (!recovering ==> |slots| == |lh| && Core(lh[tail..], slots[tail..]) && SomeFree(cache.bufs))
      && forall t :: tail <= t < |lh| ==> Unlocked(lh[t])
    }

    method InstallStep(tail: nat, recovering: bool)
      requires tail < |lh| <= LOGBLOCKS && Installing(tail, recovering)
      requires Home(lh[tail], start, |cache.disk|)
      modifies cache
      ensures Installing(tail + 1, recovering)
      ensures var data := old(cache.disk)[start + 1 + tail];
              && cache.writes == old(cache.writes) + [Write(lh[tail], data)]
              && cache.disk == old(cache.disk)[lh[tail] := data]
    {
      hide BufsOk, Permutation, Linked, ByRecency, Apply, Pins, Coherent;
      ghost var rest := if recovering then [] else slots[tail + 1..];
      if recovering {
        InstallRound(tail, true, [], []);
      } else {
        assert lh[tail..][1..] == lh[tail + 1..] && slots[tail..][1..] == slots[tail + 1..];
        InstallRound(tail, false, lh[tail..], slots[tail..]);
      }
      forall t | tail <= t < |lh|
        ensures Unlocked(lh[t])
      {
        UndisturbedUnlocked(old(cache.bufs), cache.bufs, rest, lh[t]);
      }
    }

    /** install_trans: every log block goes to its home location, in order. */
    method InstallTrans(recovering: bool)
      requires TargetsOk(lh, start, |cache.disk|) && Installing(0, recovering)
      modifies cache
      ensures Installing(|lh|, recovering)
      ensures cache.writes == old(cache.writes) + InstallWrites(lh, Logged(old(cache.disk), start, |lh|))
      ensures |cache.disk| == |old(cache.disk)| && cache.disk[start] == old(cache.disk)[start]
    {
      hide BufsOk, Permutation, Linked, ByRecency, Apply, Pins, Coherent, Distinct, AllFree, SomeFree, Unlocked;
      assert Core([], []) || Core(lh, slots) by { assert lh[0..] == lh && (!recovering ==> slots[0..] == slots); }
      ghost var data := Logged(cache.disk, start, |lh|);
      ghost var ws := InstallWrites(lh, data);
      hide Installing, Core;
      var tail := 0;
      while tail < |lh|
        invariant 0 <= tail <= |lh|
        invariant Installing(tail, recovering)
        invariant |cache.disk| == |old(cache.disk)| && cache.disk[start] == old(cache.disk)[start]
        invariant Logged(cache.disk, start, |lh|) == data
        invariant cache.writes == old(cache.writes) + ws[..tail]
      {
        LoggedKept(cache.disk, start, |lh|, lh[tail], data[tail]);
        InstallStep(tail, recovering);
        assert ws[..tail + 1] == ws[..tail] + [ws[tail]];
        tail := tail + 1;
      }
      assert ws[..tail] == ws;
    }

    /** commit up to its commit point: the log blocks and then the header. */
    method WriteTransaction() returns (ok: bool)
      requires Core(lh, slots) && Clean(cache.disk, cache.disk, start) && lh != []
      requires TargetsOk(lh, start, |cache.disk|) && forall t :: 0 <= t < |lh| ==> Unlocked(lh[t])
      modifies cache
      ensures ok <==> old(SomeFree(cache.bufs))
      ensures !ok ==> unchanged(cache)
      ensures ok ==> Installing(0, false)
      ensures ok ==> var x := Txn(lh, Data(old(cache.bufs), slots));
                     && TxnOk(x, start, |old(cache.disk)|)
                     && cache.writes == old(cache.writes) + LogWrites(start, x.data) +
                          [Write(start, HeaderBlock(old(cache.disk)[start], lh))]
                     && cache.disk == CutCommit(old(cache.disk), start, x, |lh| + 1)
    {
      hide BufsOk, Permutation, Linked, ByRecency, Apply, Pins, Coherent;
      ghost var x := Txn(lh, Data(cache.bufs, slots));
      ok := WriteLog();
      if ok {
        label logged:
        DiskAfter(old(cache.disk), cache.disk, cache.disk0, old(cache.writes), LogWrites(start, x.data));
        LogWritesKeepHeader(old(cache.disk), start, x);
        WriteHead(lh, slots);
        CommitPoint(old(cache.disk), old@logged(cache.disk), start, x);
        forall t | 0 <= t < |lh|
          ensures Unlocked(lh[t])
        {
          UndisturbedUnlocked(old(cache.bufs), old@logged(cache.bufs), slots, lh[t]);
          UndisturbedUnlocked(old@logged(cache.bufs), cache.bufs, slots, lh[t]);
        }
        assert lh[0..] == lh && slots[0..] == slots;
      }
    }

    /** commit after its commit point: install, then clear the header. */
    method FinishTransaction(ghost d0: Disk, ghost x: Txn, ghost before: seq<Write>)
      requires Installing(0, false) && TxnOk(x, start, |d0|) && x.lh == lh != []
      requires Clean(d0, d0, start) && cache.disk == CutCommit(d0, start, x, |lh| + 1)
      requires cache.writes == before + LogWrites(start, x.data) + [Write(start, HeaderBlock(d0[start], lh))]
      requires Fits(before, |cache.disk0|) && d0 == Apply(cache.disk0, before)
      modifies cache, this`lh, this`slots
      ensures lh == [] && slots == [] && Core([], []) && SomeFree(cache.bufs)
      ensures cache.writes == before + CommitWrites(d0[start], start, x)
      ensures Clean(cache.disk, After(d0, x), start)
    {
      hide BufsOk, Permutation, Linked, ByRecency, Apply, Pins, Coherent, Pending, CutCommit, CommitWrites, Distinct;
      AtCommitPoint(d0, start, x);
      InstallTrans(false);
      lh, slots := lh[|lh|..], slots[|lh|..];
      WriteHead([], []);
      var ws := CommitWrites(d0[start], start, x);
      CommitWritesInOrder(before, d0[start], start, x);
      DiskAfter(d0, cache.disk, cache.disk0, before, ws);
      WholeCommit(d0, start, x);
    }

    /** commit: with one unreferenced buffer to work with, every logged block reaches its home
        location and the log ends up clear; without one, bread panics before any disk write. */
    method Commit() returns (ok: bool)
      requires Valid() && cache.Traced() && forall t :: 0 <= t < |lh| ==> Unlocked(lh[t])
      modifies cache, this`lh, this`slots
      ensures ok <==> old(lh) == [] || old(SomeFree(cache.bufs))
      ensures !ok ==> unchanged(cache) && lh == old(lh)
      ensures ok ==> Valid() && cache.Traced() && lh == []
      ensures ok ==> cache.writes == old(cache.writes)
                       + CommitWrites(old(cache.disk)[start], start, Txn(old(lh), Data(old(cache.bufs), old(slots))))
      ensures ok ==> SameHome(Contents(), old(Contents()), start) && SameHome(cache.disk, old(Contents()), start)
    {
      ok := true;
      if |lh| > 0 {
        assert Core(lh, slots);
        ContentsIsAfter(cache.bufs, cache.disk, lh, slots);
        hide BufsOk, Permutation, Linked, ByRecency, Apply, Pins, Coherent, CutCommit, Distinct, After, Pending,
             ContentsOf;
        ghost var x := Txn(lh, Data(cache.bufs, slots));
        ok := WriteTransaction();
        if ok {
          FinishTransaction(old(cache.disk), x, old(cache.writes));
          Committed(old(Contents()));
        }
      } else {
        Committed(cache.disk);
      }
    }

    /** end_op: the last operation out commits everything, the others only leave. */
    method EndOp() returns (ok: bool)
      requires Valid() && cache.Traced() && outstanding > 0
      requires outstanding == 1 ==> forall t :: 0 <= t < |lh| ==> Unlocked(lh[t])
      modifies cache, this`lh, this`slots, this`outstanding, this`committing
      ensures ok <==> !old(committing) && (old(outstanding) > 1 || old(lh) == [] || old(SomeFree(cache.bufs)))
      ensures outstanding == old(outstanding) - 1
      ensures !ok ==> unchanged(cache) && lh == old(lh)
      ensures old(outstanding) > 1 ==> unchanged(cache) && State() == old(State()).(outstanding := old(outstanding) - 1)
      ensures ok ==> Valid() && !committing && SameHome(Contents(), old(Contents()), start)
      ensures ok && old(outstanding) == 1 ==> lh == [] && SameHome(cache.disk, old(Contents()), start)
    {
      hide BufsOk, Permutation, Linked, ByRecency, Apply, Pins, Coherent, Distinct, ContentsOf, Pending;
      outstanding := outstanding - 1;
      if committing {
        return false;
      }
      ok := true;
      if outstanding == 0 {
        committing := true;
        ok := Commit();
        if ok {
          committing := false;
        }
      }
    }

    /** With the log clear, cache and disk serve the same contents. */
    lemma Committed(m: Disk)
      requires Coh([], []) && LogIdle() && |cache.disk| <= U32 && Clean(cache.disk, m, start)
      requires lh == [] && slots == []
      ensures Valid() && Contents() == cache.disk && SameHome(cache.disk, m, start)
    {
    }

    /** read_head: the in-memory header is the on-disk one. */
    method ReadHead()
      requires Core([], []) && AllFree(cache.bufs) && HeaderOk(cache.disk[start])
      modifies cache`bufs, cache`next, cache`prev, cache`order, cache`lastUse, cache`clock, this`lh
      ensures Core([], []) && AllFree(cache.bufs)
      ensures lh == ReadHeader(cache.disk[start])
    {
      hide BufsOk, Permutation, Linked, ByRecency, Apply, Pins, Coherent;
      assert cache.bufs[0].refcnt == 0;
      var r, ok := ReadLogBlock(0, [], []);
      var head := cache.bufs[r].data;
      var n := Word(head, 0);
      var i := 0;
      lh := [];
      while i < n
        modifies this`lh
        invariant 0 <= i <= n && |lh| == i
        invariant forall t :: 0 <= t < i ==> lh[t] == Word(head, 1 + t)
      {
        lh := lh + [Word(head, 1 + i)];
        i := i + 1;
      }
      Release(r, [], []);
    }

    /** recover_from_log at boot, before anything else uses the cache. */
    method RecoverFromLog()
      requires Core([], []) && AllFree(cache.bufs) && Recoverable(cache.disk, start)
      requires slots == []
      modifies cache, this`lh
      ensures Valid() && cache.Traced() && lh == [] && AllFree(cache.bufs)
      ensures cache.writes == old(cache.writes) + RecoveryWrites(old(cache.disk), start)
      ensures cache.disk == CutRecovery(old(cache.disk), start, |ReadHeader(old(cache.disk)[start])| + 1)
      ensures SameHome(Contents(), cache.disk, start)
    {
      hide Permutation, Linked, ByRecency, Apply, Pins;
      ReadHead();
      InstallTrans(true);
      lh := [];
      assert cache.bufs[0].refcnt == 0;
      WriteHead([], []);
      var ws := RecoveryWrites(old(cache.disk), start);
      assert cache.writes == old(cache.writes) + ws;
      CutRecoveryWhole(old(cache.disk), start);
      DiskAfter(old(cache.disk), cache.disk, cache.disk0, old(cache.writes), ws);
      WholeRecovery(old(cache.disk), start);
      Committed(cache.disk);
    }
  }

  /** binit and initlog on any disk whose log header is legal: recovery runs first, and leaves the
      cache and the log ready, serving exactly what a completed recovery leaves on the disk. */
  method Boot(disk: Disk, dev: nat, start: nat) returns (l: Log)
    requires Recoverable(disk, start) && |disk| <= U32 && dev != 0
    ensures fresh(l) && fresh(l.cache) && l.Valid() && l.cache.Traced() && l.State() == LogState([], 0, false)
    ensures l.dev == dev && l.start == start && AllFree(l.cache.bufs)
    ensures l.cache.disk == CutRecovery(disk, start, |ReadHeader(disk[start])| + 1)
    ensures SameHome(l.Contents(), l.cache.disk, start)
  {
    hide Permutation, Linked, ByRecency, Apply, Recoverable, CutRecovery, SameHome;
    var cache := new Cache(disk);
    RoomForLog(disk, start);
    l := new Log(cache, dev, start);
    l.RecoverFromLog();
  }

  lemma RoomForLog(d: Disk, start: nat)
    requires Recoverable(d, start)
    ensures start + LOGBLOCKS < |d|
  {
  }
}
