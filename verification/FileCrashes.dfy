/** Files across crashes: filewrite's transactions, committed through the redo log, leave a file
    after any crash and recovery with exactly a prefix of the write made of whole transactions. */
module FileCrashes {
  import opened Common
  import opened Blocks
  import opened Bitmap
  import opened Inodes
  import opened Dinodes
  import opened CrashSafety
  import opened FileSystem
  import opened BufferCache
  import opened RedoLog

  /** The log lies before the inode blocks. */
  ghost predicate LogBefore(sb: Super, start: nat) {
    SuperOk(sb) && start + LOGBLOCKS < sb.inodestart
  }

  lemma FileBlocksAreHome(sb: Super, start: nat, b: nat)
    requires LogBefore(sb, start) && sb.inodestart <= b < sb.size
    ensures Home(b, start, sb.size)
  {
  }

  /** The files are what the home blocks say they are. */
  lemma FilesAreHome(sb: Super, start: nat, e: Disk, r: Disk, d: Disk, i: nat, c: seq<byte>)
    requires LogBefore(sb, start) && SameHome(e, r, start) && FilesAre(sb, e, d, i, c)
    ensures FilesAre(sb, r, d, i, c)
  {
    hide Sound, SuperOk;
    SoundSize(sb, e);
    forall b | sb.inodestart <= b < |e| ensures r[b] == e[b] {
      FileBlocksAreHome(sb, start, b);
    }
    SoundBehindTheLog(sb, e, r);
  }

  lemma SoundSize(sb: Super, d: Disk)
    requires Sound(sb, d)
    ensures |d| == sb.size
  {
  }

  /** A log transaction that records exactly what this transaction logged, in any order. */
  ghost predicate Records(x: Txn, t: Txlog) {
    && |x.data| == |x.lh| && Distinct(x.lh) && (forall b :: b in x.lh <==> b in t.logged)
    && forall k :: 0 <= k < |x.lh| ==> x.lh[k] < |t.after| && x.data[k] == t.after[x.lh[k]]
  }

  ghost predicate OnDisk(t: Txlog) { forall b :: b in t.logged ==> b < |t.after| }

  /** There is such a transaction: any listing of the blocks will do. */
  lemma RecordsExist(t: Txlog) returns (x: Txn)
    requires OnDisk(t)
    ensures Records(x, t)
  {
    var lh := Listing(t.logged);
    forall k | 0 <= k < |lh| ensures lh[k] < |t.after| {
      assert lh[k] in lh;
    }
    x := Txn(lh, seq(|lh|, k requires 0 <= k < |lh| => t.after[lh[k]]));
  }

  lemma {:induction false} Listing(s: set<nat>) returns (r: seq<nat>)
    ensures Distinct(r) && forall b :: b in r <==> b in s
    decreases |s|
  {
    if s == {} {
      r := [];
    } else {
      var b :| b in s;
      var rest := Listing(s - {b});
      r := rest + [b];
    }
  }

  /** What the redo log commits, when its contents are the disk after the transaction and its blocks
      those that were logged, is such a transaction. */
  lemma LogRecords(l: Log, t: Txlog)
    requires l.Valid() && SameHome(l.Contents(), t.after, l.start) && forall b :: b in l.lh <==> b in t.logged
    ensures Records(Txn(l.lh, Data(l.cache.bufs, l.slots)), t)
  {
  }

  lemma TransactionOk(sb: Super, start: nat, i: nat, x: Txn, t: Txlog)
    requires LogBefore(sb, start) && |t.before| == sb.size && Records(x, t)
    requires FitsTheLog(sb, i, t.early, t.logged) && OnlyLogged(sb, t.before, t.after, t.logged)
    ensures TxnOk(x, start, sb.size)
  {
    DistinctBound(x.lh, t.logged);
    forall k | 0 <= k < |x.lh| ensures x.lh[k] < U32 && Home(x.lh[k], start, sb.size) {
      assert x.lh[k] in x.lh;
      FileBlocksAreHome(sb, start, x.lh[k]);
    }
  }

  lemma AfterBlock(x: Txn, t: Txlog, b: nat)
    requires Records(x, t) && |t.before| == |t.after| && b < |t.before|
    requires b !in t.logged ==> t.after[b] == t.before[b]
    ensures After(t.before, x)[b] == t.after[b]
  {
    var k := IndexOf(x.lh, b);
    if k == |x.lh| {
      assert b !in x.lh;
    }
  }

  /** Such a transaction is legal, and what it leaves is the disk that filewrite meant. */
  lemma TransactionIsAfter(sb: Super, start: nat, i: nat, x: Txn, t: Txlog)
    requires LogBefore(sb, start) && |t.before| == sb.size && Records(x, t)
    requires FitsTheLog(sb, i, t.early, t.logged) && OnlyLogged(sb, t.before, t.after, t.logged)
    ensures TxnOk(x, start, sb.size) && |x.data| == |x.lh| && After(t.before, x) == t.after
  {
    hide Records, After, TxnOk, FitsTheLog;
    TransactionOk(sb, start, i, x, t);
    RecordedLength(x, t);
    forall b | 0 <= b < |t.before| ensures After(t.before, x)[b] == t.after[b] {
      AfterBlock(x, t, b);
    }
  }

  lemma RecordedLength(x: Txn, t: Txlog)
    requires Records(x, t)
    ensures |x.data| == |x.lh|
  {
  }

  lemma AfterKeepsHome(d: Disk, e: Disk, start: nat, x: Txn)
    requires SameHome(d, e, start) && |x.data| == |x.lh|
    ensures SameHome(After(d, x), After(e, x), start)
  {
  }

  /** The write up to and including transaction `n - 1` committed, each as recorded. */
  ghost function Commits(xs: seq<Txn>): (es: seq<Event>)
    ensures |es| == |xs| && forall k :: 0 <= k < |xs| ==> es[k] == Commit(xs[k])
  {
    seq(|xs|, k requires 0 <= k < |xs| => Commit(xs[k]))
  }

  /** A write of `src` at offset `off` to file `i`, which holds `c`, on disk `d`. */
  datatype FileWrite = FileWrite(sb: Super, start: nat, i: nat, d: Disk, c: seq<byte>, off: nat, src: seq<byte>)

  ghost predicate Recording(xs: seq<Txn>, ts: seq<Txlog>) {
    |xs| == |ts| && forall k :: 0 <= k < |ts| ==> Records(xs[k], ts[k])
  }

  /** The transactions of a write, one after the other, each as filewrite promises. */
  ghost predicate WriteChain(w: FileWrite, ts: seq<Txlog>) {
    && LogBefore(w.sb, w.start) && |w.d| == w.sb.size && w.i < w.sb.ninodes
    && (exists e :: Chained(w.d, e, ts))
    && forall k :: 0 <= k < |ts| ==> TxlogOk(w.sb, w.i, w.d, w.c, w.off, w.src, ts[k])
  }

  /** ... and the log transactions that record them. */
  ghost predicate WriteRun(w: FileWrite, ts: seq<Txlog>, xs: seq<Txn>) {
    WriteChain(w, ts) && Recording(xs, ts)
  }

  lemma {:induction false} RecordingExists(ts: seq<Txlog>, n: nat) returns (xs: seq<Txn>)
    requires n <= |ts| && forall k :: 0 <= k < |ts| ==> OnDisk(ts[k])
    ensures |xs| == n && forall k :: 0 <= k < n ==> Records(xs[k], ts[k])
  {
    hide Records, OnDisk;
    if n == 0 {
      xs := [];
    } else {
      var init := RecordingExists(ts, n - 1);
      var x := RecordsExist(ts[n - 1]);
      xs := init + [x];
    }
  }

  lemma ChainOnDisk(w: FileWrite, ts: seq<Txlog>)
    requires WriteChain(w, ts)
    ensures forall k :: 0 <= k < |ts| ==> OnDisk(ts[k])
  {
    hide FilesAre, Chained;
    forall k | 0 <= k < |ts| ensures OnDisk(ts[k]) {
      assert TxlogOk(w.sb, w.i, w.d, w.c, w.off, w.src, ts[k]);
    }
  }

  /** The disks of a chain fit together. */
  lemma {:induction false} ChainLinks(d: Disk, e: Disk, ts: seq<Txlog>, k: nat)
    requires Chained(d, e, ts) && k < |ts|
    requires forall j :: 0 <= j < |ts| ==> |ts[j].before| == |ts[j].after|
    ensures ts[k].before == (if k == 0 then d else ts[k - 1].after) && |ts[k].before| == |d|
    decreases |ts|
  {
    var n := |ts| - 1;
    if n == 0 {
    } else if k < n {
      ChainLinks(d, ts[n].before, ts[..n], k);
    } else {
      ChainLinks(d, ts[n].before, ts[..n], n - 1);
      assert ts[..n][n - 1] == ts[n - 1];
    }
  }

  lemma StepFacts(w: FileWrite, ts: seq<Txlog>, xs: seq<Txn>, k: nat)
    requires WriteRun(w, ts, xs) && k < |ts|
    ensures ts[k].before == if k == 0 then w.d else ts[k - 1].after
    ensures |ts[k].before| == |ts[k].after| == w.sb.size
    ensures TxnOk(xs[k], w.start, w.sb.size) && |xs[k].data| == |xs[k].lh| && After(ts[k].before, xs[k]) == ts[k].after
    ensures TxlogOk(w.sb, w.i, w.d, w.c, w.off, w.src, ts[k])
  {
    hide FilesAre, After, Chained, TxnOk, Records;
    var e :| Chained(w.d, e, ts);
    ChainLinks(w.d, e, ts, k);
    TransactionIsAfter(w.sb, w.start, w.i, xs[k], ts[k]);
  }

  /** After the first `n` commits the meaning of the history is the disk before transaction `n`. */
  lemma {:induction false} CommitsMean(w: FileWrite, ts: seq<Txlog>, xs: seq<Txn>, n: nat, p: Disk)
    requires WriteRun(w, ts, xs) && n <= |ts| && SameHome(p, w.d, w.start)
    ensures EventsOk(Commits(xs[..n]), w.start, |p|)
    ensures SameHome(Meaning(p, Commits(xs[..n])), if n == 0 then w.d else ts[n - 1].after, w.start)
  {
    hide TxlogOk, Recording, Chained, After, TxnOk, SameHome, Meaning;
    if n == 0 {
      NothingMeans(p);
      assert Commits(xs[..0]) == [];
    } else {
      RecordingSize(xs, ts);
      var es, e := Commits(xs[..n - 1]), Commit(xs[n - 1]);
      CommitsMean(w, ts, xs, n - 1, p);
      StepFacts(w, ts, xs, n - 1);
      assert xs[..n][..n - 1] == xs[..n - 1];
      assert Commits(xs[..n]) == es + [e];
      SameSize(p, w.d, w.start);
      EventsSnoc(es, e, w.start, |p|);
      MeaningSnoc(p, es, e);
      AfterKeepsHome(Meaning(p, es), ts[n - 1].before, w.start, xs[n - 1]);
    }
  }

  lemma RecordingSize(xs: seq<Txn>, ts: seq<Txlog>)
    requires Recording(xs, ts)
    ensures |xs| == |ts|
  {
  }

  lemma SameSize(d: Disk, e: Disk, start: nat)
    requires SameHome(d, e, start)
    ensures |d| == |e|
  {
  }

  lemma NothingMeans(p: Disk)
    ensures Meaning(p, []) == p
  {
  }

  lemma EventsSnoc(es: seq<Event>, e: Event, start: nat, size: nat)
    requires EventsOk(es, start, size) && EventOk(e, start, size)
    ensures EventsOk(es + [e], start, size) && forall k :: 0 <= k < |es| ==> |es[k].x.data| == |es[k].x.lh|
    ensures forall k :: 0 <= k < |es + [e]| ==> |(es + [e])[k].x.data| == |(es + [e])[k].x.lh|
  {
    forall k | 0 <= k < |es| ensures EventOk(es[k], start, size) {}
  }

  lemma EventsData(es: seq<Event>, start: nat, size: nat)
    requires EventsOk(es, start, size)
    ensures forall k :: 0 <= k < |es| ==> |es[k].x.data| == |es[k].x.lh|
  {
    forall k | 0 <= k < |es| ensures |es[k].x.data| == |es[k].x.lh| {
      assert EventOk(es[k], start, size);
    }
  }

  lemma MeaningSnoc(p: Disk, es: seq<Event>, e: Event)
    requires forall k :: 0 <= k < |es + [e]| ==> |(es + [e])[k].x.data| == |(es + [e])[k].x.lh|
    ensures forall k :: 0 <= k < |es| ==> |es[k].x.data| == |es[k].x.lh|
    ensures |e.x.data| == |e.x.lh| && Meaning(p, es + [e]) == StepMeaning(Meaning(p, es), e)
  {
    var all := es + [e];
    assert all[..|es|] == es && all[|es|] == e;
    forall k | 0 <= k < |es| ensures |es[k].x.data| == |es[k].x.lh| {
      assert all[k] == es[k];
    }
  }

  lemma HomeTrans(a: Disk, b: Disk, c: Disk, start: nat)
    requires SameHome(a, b, start) && SameHome(b, c, start)
    ensures SameHome(c, a, start)
  {
  }

  /** The commits before transaction `n`, then a crash in its commit after `k` disk writes, and
      recoveries cut short as `js` says. */
  ghost function CrashIn(xs: seq<Txn>, n: nat, k: nat, js: seq<nat>): seq<Event>
    requires n < |xs|
  {
    Commits(xs[..n]) + [Crash(xs[n], k, js)]
  }

  /** Crash anywhere in the commit of transaction `n` of a write and recover, with any crashes in
      between. The disk is in order again: no block has two owners, and what is marked is owned. The
      file holds the write up to a transaction boundary, after the n-th one exactly when its header
      write reached the disk, and every other file is as before the write. `p` is the real disk,
      whose log area is anything. */
  lemma FileSurvivesCrash(w: FileWrite, ts: seq<Txlog>, xs: seq<Txn>, p: Disk, n: nat, k: nat, js: seq<nat>)
    requires WriteRun(w, ts, xs) && n < |ts|
    requires SameHome(p, w.d, w.start) && Clean(p, p, w.start) && SomeCompleted(js, |xs[n].lh|)
    ensures var es := CrashIn(xs, n, k, js);
            && EventsOk(es, w.start, |p|)
            && FilesAre(w.sb, Run(p, w.start, es), w.d, w.i,
                        Written(w.c, w.off, w.src[..if HeaderReached(xs[n], k) then ts[n].to else ts[n].from]))
  {
    hide Clean, Recording, Chained, After, TxnOk, FilesAre, Written, SomeCompleted, SameHome, Meaning, Run, EventsOk;
    RecordingSize(xs, ts);
    var es, e := Commits(xs[..n]), Crash(xs[n], k, js);
    SameSize(p, w.d, w.start);
    CommitsMean(w, ts, xs, n, p);
    StepFacts(w, ts, xs, n);
    EventsSnoc(es, e, w.start, |p|);
    HistoryIsSerial(p, w.start, es + [e]);
    MeaningSnoc(p, es, e);
    AfterKeepsHome(Meaning(p, es), ts[n].before, w.start, xs[n]);
    var r, t := Run(p, w.start, es + [e]), if HeaderReached(xs[n], k) then ts[n].after else ts[n].before;
    HomeTrans(r, Meaning(p, es + [e]), t, w.start);
    var m := if HeaderReached(xs[n], k) then ts[n].to else ts[n].from;
    FilesAreHome(w.sb, w.start, t, r, w.d, w.i, Written(w.c, w.off, w.src[..m]));
  }

  /** Without a crash, the whole of what filewrite did is there. */
  lemma FileAfterWrite(w: FileWrite, ts: seq<Txlog>, xs: seq<Txn>, p: Disk)
    requires WriteRun(w, ts, xs) && ts != []
    requires SameHome(p, w.d, w.start) && Clean(p, p, w.start)
    ensures EventsOk(Commits(xs), w.start, |p|)
    ensures FilesAre(w.sb, Run(p, w.start, Commits(xs)), w.d, w.i, Written(w.c, w.off, w.src[..ts[|ts| - 1].to]))
  {
    hide Clean, Recording, Chained, After, TxnOk, FilesAre, Written, SameHome, Meaning, Run, EventsOk;
    RecordingSize(xs, ts);
    var n := |ts|;
    assert xs[..n] == xs;
    SameSize(p, w.d, w.start);
    CommitsMean(w, ts, xs, n, p);
    StepFacts(w, ts, xs, n - 1);
    EventsData(Commits(xs), w.start, |p|);
    HistoryIsSerial(p, w.start, Commits(xs));
    var r := Run(p, w.start, Commits(xs));
    HomeTrans(r, Meaning(p, Commits(xs)), ts[n - 1].after, w.start);
    FilesAreHome(w.sb, w.start, ts[n - 1].after, r, w.d, w.i, Written(w.c, w.off, w.src[..ts[n - 1].to]));
  }

  // ---- A call of filewrite ----

  /** However the transactions of the write are recorded, and wherever the machine crashes in
      committing them to a disk with the same home blocks, the recovered disk has the write up to a
      transaction boundary and every other file as it was. */
  ghost predicate CrashSafe(w: FileWrite, ts: seq<Txlog>) {
    forall xs: seq<Txn>, p: Disk, n: nat, k: nat, js: seq<nat> ::
      Recording(xs, ts) && n < |xs| && SameHome(p, w.d, w.start) && Clean(p, p, w.start) &&
      SomeCompleted(js, |xs[n].lh|) ==>
        SurvivesCrash(w, ts, xs, p, n, k, js)
  }

  ghost predicate SurvivesCrash(w: FileWrite, ts: seq<Txlog>, xs: seq<Txn>, p: Disk, n: nat, k: nat, js: seq<nat>)
    requires n < |xs|
  {
    var es := CrashIn(xs, n, k, js);
    && n < |ts| && ts[n].to <= |w.src| && ts[n].from <= |w.src|
    && Clean(p, p, w.start) && EventsOk(es, w.start, |p|)
    && FilesAre(w.sb, Run(p, w.start, es), w.d, w.i,
                Written(w.c, w.off, w.src[..if HeaderReached(xs[n], k) then ts[n].to else ts[n].from]))
  }

  lemma ChainIsCrashSafe(w: FileWrite, ts: seq<Txlog>)
    requires WriteChain(w, ts)
    ensures CrashSafe(w, ts)
  {
    hide Chained, FilesAre, SameHome, Clean, SomeCompleted, Run, EventsOk, Written, Records;
    forall xs: seq<Txn>, p: Disk, n: nat, k: nat, js: seq<nat> |
      Recording(xs, ts) && n < |xs| && SameHome(p, w.d, w.start) && Clean(p, p, w.start) &&
      SomeCompleted(js, |xs[n].lh|)
      ensures SurvivesCrash(w, ts, xs, p, n, k, js)
    {
      FileSurvivesCrash(w, ts, xs, p, n, k, js);
    }
  }

  /** filewrite, with what a crash during it leaves. The recovered disk is one that can be mounted. */
  method CrashSafeWrite(fs: Fs, start: nat, i: nat, src: seq<byte>, off0: nat, copies: nat -> nat)
    returns (ret: int, off: nat, ghost txns: seq<Txlog>, ghost xs: seq<Txn>)
    requires fs.Valid() && i < |fs.inodes| && off0 < U32 && |src| < U32 && LogBefore(fs.sb, start)
    modifies fs`disk, fs`inodes, fs`owner, fs`logged
    ensures fs.Valid() && i < |fs.inodes| && off0 <= off <= off0 + |src|
    ensures ret == if off == off0 + |src| then |src| else -1
    ensures fs.Content(i) == Written(old(fs.Content(i)), off0, src[..off - off0])
    ensures var w := FileWrite(fs.sb, start, i, old(fs.disk), old(fs.Content(i)), off0, src);
            WriteRun(w, txns, xs) && CrashSafe(w, txns) && Chained(w.d, fs.disk, txns)
  {
    hide OwnershipUpTo, FilledTo, Bytes, TxlogOk, Chained, Written, StoredBut, OthersSame, Records, Splice;
    ghost var w := FileWrite(fs.sb, start, i, fs.disk, fs.Content(i), off0, src);
    ret, off, txns := fs.Filewrite(i, src, off0, copies);
    ChainIsCrashSafe(w, txns);
    ChainOnDisk(w, txns);
    xs := RecordingExists(txns, |txns|);
  }

  /** commit of a log that holds one of these transactions: its disk writes are those that the crash
      theorem cuts short, and afterwards the home blocks are those the transaction meant. */
  method CommitRecorded(l: Log, ghost t: Txlog) returns (ok: bool, ghost x: Txn)
    requires l.Valid() && l.cache.Traced() && forall k :: 0 <= k < |l.lh| ==> l.Unlocked(l.lh[k])
    requires SameHome(l.Contents(), t.after, l.start) && forall b :: b in l.lh <==> b in t.logged
    modifies l.cache, l`lh, l`slots
    ensures ok <==> old(l.lh) == [] || old(SomeFree(l.cache.bufs))
    ensures !ok ==> unchanged(l.cache)
    ensures Records(x, t) && TxnOk(x, l.start, |old(l.cache.disk)|)
    ensures ok ==> l.Valid() && l.lh == []
    ensures ok ==> l.cache.writes == old(l.cache.writes) + CommitWrites(old(l.cache.disk)[l.start], l.start, x)
    ensures ok ==> SameHome(l.cache.disk, t.after, l.start)
  {
    LogRecords(l, t);
    x := Txn(l.lh, Data(l.cache.bufs, l.slots));
    hide Coherent, BufsOk, Permutation, Linked, ByRecency, Records, CommitWrites, Apply;
    ghost var m := l.Contents();
    ok := l.Commit();
    if ok {
      HomeTrans(t.after, m, l.cache.disk, l.start);
    }
  }
}
