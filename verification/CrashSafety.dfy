/** Crash atomicity of the redo log, over the ordered disk writes that a commit
    and a recovery perform. RedoLog shows that the code performs exactly these. */
module CrashSafety {
  import opened Common
  import opened Blocks

  const MAXOPBLOCKS := 10
  const LOGBLOCKS := 3 * MAXOPBLOCKS

  type Disk = seq<Block>

  datatype Write = Write(bno: nat, data: Block)

  ghost predicate Fits(ws: seq<Write>, size: nat) {
    forall k :: 0 <= k < |ws| ==> ws[k].bno < size
  }

  /** The disk after the writes `ws`, each of them atomic, in order. */
  ghost function Apply(d: Disk, ws: seq<Write>): (r: Disk)
    requires Fits(ws, |d|)
    ensures |r| == |d|
  {
    if ws == [] then d
    else
      var last := ws[|ws| - 1];
      Apply(d, ws[..|ws| - 1])[last.bno := last.data]
  }

  lemma ApplySnoc(d: Disk, ws: seq<Write>, w: Write)
    requires Fits(ws, |d|) && w.bno < |d|
    ensures Fits(ws + [w], |d|)
    ensures Apply(d, ws + [w]) == Apply(d, ws)[w.bno := w.data]
  {
    assert (ws + [w])[..|ws|] == ws;
  }

  lemma {:induction false} ApplyConcat(d: Disk, a: seq<Write>, b: seq<Write>)
    requires Fits(a, |d|) && Fits(b, |d|)
    ensures Fits(a + b, |d|)
    ensures Apply(d, a + b) == Apply(Apply(d, a), b)
  {
    if b == [] {
      assert a + b == a;
    } else {
      var c := b[..|b| - 1];
      ApplyConcat(d, a, c);
      assert (a + b)[..|a + b| - 1] == a + c;
    }
  }

  /** What `Apply` leaves in block `b`: the last write to it, or what was there. */
  lemma {:induction false} ApplyUntouched(d: Disk, ws: seq<Write>, b: nat)
    requires Fits(ws, |d|) && b < |d|
    requires forall k :: 0 <= k < |ws| ==> ws[k].bno != b
    ensures Apply(d, ws)[b] == d[b]
  {
    if ws == [] {
    } else {
      ApplyUntouched(d, ws[..|ws| - 1], b);
    }
  }

  lemma {:induction false} ApplyTouched(d: Disk, ws: seq<Write>, b: nat, k: nat)
    requires Fits(ws, |d|) && k < |ws| && ws[k].bno == b
    requires forall j :: k < j < |ws| ==> ws[j].bno != b
    ensures Apply(d, ws)[b] == ws[k].data
  {
    if k == |ws| - 1 {
    } else {
      ApplyTouched(d, ws[..|ws| - 1], b, k);
    }
  }

  // ---- The log header block ----

  predicate WordsFit(ns: seq<nat>) {
    forall t :: 0 <= t < |ns| ==> ns[t] < U32
  }

  /** write_head's copy of the in-memory header over the cached header block;
      entries past the count keep their stale contents. */
  function HeaderBlock(was: Block, lh: seq<nat>): Block
    requires |lh| <= LOGBLOCKS && WordsFit(lh)
  {
    HeaderEntries(PutWord(was, 0, |lh|), lh, |lh|)
  }

  function HeaderEntries(b: Block, lh: seq<nat>, k: nat): Block
    requires k <= |lh| <= LOGBLOCKS && WordsFit(lh)
  {
    if k == 0 then b else PutWord(HeaderEntries(b, lh, k - 1), k, lh[k - 1])
  }

  ghost predicate HeaderOk(b: Block) {
    Word(b, 0) <= LOGBLOCKS
  }

  /** read_head's view of a header block. */
  function ReadHeader(b: Block): (lh: seq<nat>)
    requires Word(b, 0) <= LOGBLOCKS
    ensures |lh| == Word(b, 0) && WordsFit(lh)
  {
    seq(Word(b, 0), t requires 0 <= t < Word(b, 0) => Word(b, 1 + t))
  }

  lemma {:induction false} HeaderEntriesWords(b: Block, lh: seq<nat>, k: nat, j: nat)
    requires k <= |lh| <= LOGBLOCKS && WordsFit(lh) && j < WORDS
    ensures Word(HeaderEntries(b, lh, k), j) == if 1 <= j <= k then lh[j - 1] else Word(b, j)
  {
    if k == 0 {
    } else {
      HeaderEntriesWords(b, lh, k - 1, j);
      WordOfPutWord(HeaderEntries(b, lh, k - 1), k, lh[k - 1], j);
    }
  }

  /** read_head undoes write_head. */
  lemma HeaderRoundTrip(was: Block, lh: seq<nat>)
    requires |lh| <= LOGBLOCKS && WordsFit(lh)
    ensures HeaderOk(HeaderBlock(was, lh))
    ensures ReadHeader(HeaderBlock(was, lh)) == lh
  {
    var b := PutWord(was, 0, |lh|);
    HeaderEntriesWords(b, lh, |lh|, 0);
    WordOfPutWord(was, 0, |lh|, 0);
    forall t | 0 <= t < |lh|
      ensures Word(HeaderBlock(was, lh), 1 + t) == lh[t]
    {
      HeaderEntriesWords(b, lh, |lh|, 1 + t);
    }
  }

  // ---- The write sequences of commit and recovery ----

  /** A transaction: the home blocks named by the in-memory header, and the cached
      contents that write_log copies to the log. */
  datatype Txn = Txn(lh: seq<nat>, data: seq<Block>)

  predicate InLog(b: nat, start: nat) {
    start <= b <= start + LOGBLOCKS
  }

  predicate Home(b: nat, start: nat, size: nat) {
    b < size && !InLog(b, start)
  }

  ghost predicate TargetsOk(lh: seq<nat>, start: nat, size: nat) {
    && |lh| <= LOGBLOCKS
    && WordsFit(lh)
    && Distinct(lh)
    && forall t :: 0 <= t < |lh| ==> Home(lh[t], start, size)
  }

  ghost predicate TxnOk(x: Txn, start: nat, size: nat) {
    && start + LOGBLOCKS < size
    && |x.data| == |x.lh|
    && TargetsOk(x.lh, start, size)
  }

  function LogWrites(start: nat, data: seq<Block>): seq<Write> {
    seq(|data|, t requires 0 <= t < |data| => Write(start + 1 + t, data[t]))
  }

  function InstallWrites(lh: seq<nat>, data: seq<Block>): seq<Write>
    requires |lh| == |data|
  {
    seq(|lh|, t requires 0 <= t < |lh| => Write(lh[t], data[t]))
  }

  /** Every disk write of one commit(), in order. */
  function CommitWrites(header: Block, start: nat, x: Txn): seq<Write>
    requires |x.lh| == |x.data| && |x.lh| <= LOGBLOCKS && WordsFit(x.lh)
  {
    if x.lh == [] then []
    else
      var marked := HeaderBlock(header, x.lh);
      LogWrites(start, x.data) + [Write(start, marked)]
      + InstallWrites(x.lh, x.data) + [Write(start, HeaderBlock(marked, []))]
  }

  /** The log blocks that recovery reads back. */
  ghost function Logged(d: Disk, start: nat, n: nat): seq<Block>
    requires start + n < |d|
  {
    d[start + 1..start + 1 + n]
  }

  ghost predicate Recoverable(d: Disk, start: nat) {
    && start + LOGBLOCKS < |d|
    && HeaderOk(d[start])
    && TargetsOk(ReadHeader(d[start]), start, |d|)
  }

  /** Every disk write of one recover_from_log(), in order. */
  ghost function RecoveryWrites(d: Disk, start: nat): seq<Write>
    requires Recoverable(d, start)
  {
    var lh := ReadHeader(d[start]);
    InstallWrites(lh, Logged(d, start, |lh|)) + [Write(start, HeaderBlock(d[start], []))]
  }

  // ---- Atomicity ----

  ghost predicate FirstAt(s: seq<nat>, b: nat, i: nat) {
    i <= |s| && (i < |s| ==> s[i] == b) && forall j :: 0 <= j < i ==> s[j] != b
  }

  lemma {:induction false} FirstExists(s: seq<nat>, b: nat)
    ensures exists i: nat :: FirstAt(s, b, i)
  {
    if s == [] || s[0] == b {
      assert FirstAt(s, b, 0);
    } else {
      FirstExists(s[1..], b);
      var i: nat :| FirstAt(s[1..], b, i);
      assert FirstAt(s, b, i + 1);
    }
  }

  /** The first position of `b` in `s`, or |s|. */
  ghost function IndexOf(s: seq<nat>, b: nat): (i: nat)
    ensures FirstAt(s, b, i)
  {
    FirstExists(s, b);
    var i: nat :| FirstAt(s, b, i);
    i
  }

  /** The disk as the transaction means to leave it. */
  ghost function After(d: Disk, x: Txn): (r: Disk)
    requires |x.data| == |x.lh|
    ensures |r| == |d|
  {
    seq(|d|, b requires 0 <= b < |d| =>
      var i := IndexOf(x.lh, b);
      if i < |x.lh| then x.data[i] else d[b])
  }

  ghost predicate SameHome(d: Disk, e: Disk, start: nat) {
    |d| == |e| && forall b: nat :: Home(b, start, |d|) ==> d[b] == e[b]
  }

  /** The log on `d` holds transaction `x` over the old contents `d0`, installed to
      an arbitrary extent. With an empty `x` the log is clear. */
  ghost predicate Pending(d: Disk, d0: Disk, start: nat, x: Txn) {
    && |d| == |d0|
    && TxnOk(x, start, |d|)
    && HeaderOk(d[start])
    && ReadHeader(d[start]) == x.lh
    && Logged(d, start, |x.lh|) == x.data
    && forall b: nat :: Home(b, start, |d|) && b !in x.lh ==> d[b] == d0[b]
  }

  const NOTHING := Txn([], [])

  /** The log is clear and the home blocks are those of `d0`. */
  ghost predicate Clean(d: Disk, d0: Disk, start: nat) {
    Pending(d, d0, start, NOTHING)
  }

  lemma InstallsFit(x: Txn, start: nat, size: nat)
    requires TxnOk(x, start, size)
    ensures Fits(InstallWrites(x.lh, x.data), size)
    ensures Fits(LogWrites(start, x.data), size)
  {
  }

  /** Any prefix of the installs keeps a pending transaction pending. */
  lemma InstallPrefixKeepsPending(d: Disk, d0: Disk, start: nat, x: Txn, j: nat)
    requires Pending(d, d0, start, x) && j <= |x.lh|
    ensures Fits(InstallWrites(x.lh, x.data)[..j], |d|)
    ensures Pending(Apply(d, InstallWrites(x.lh, x.data)[..j]), d0, start, x)
    ensures Apply(d, InstallWrites(x.lh, x.data)[..j])[start] == d[start]
  {
    hide Apply, ReadHeader, HeaderOk;
    InstallsFit(x, start, |d|);
    var ws := InstallWrites(x.lh, x.data)[..j];
    var e := Apply(d, ws);
    forall b: nat | b < |d| && (InLog(b, start) || b !in x.lh)
      ensures e[b] == d[b]
    {
      ApplyUntouched(d, ws, b);
    }
    assert Logged(e, start, |x.lh|) == Logged(d, start, |x.lh|);
  }

  /** All the installs bring every home block to its new contents. */
  lemma InstallAll(d: Disk, d0: Disk, start: nat, x: Txn)
    requires Pending(d, d0, start, x)
    ensures Fits(InstallWrites(x.lh, x.data), |d|)
    ensures SameHome(Apply(d, InstallWrites(x.lh, x.data)), After(d0, x), start)
  {
    var ws := InstallWrites(x.lh, x.data);
    forall b: nat | Home(b, start, |d|)
      ensures Apply(d, ws)[b] == After(d0, x)[b]
    {
      InstallAt(d, x.lh, x.data, b);
    }
  }

  lemma InstallAt(d: Disk, lh: seq<nat>, data: seq<Block>, b: nat)
    requires |lh| == |data| && Distinct(lh) && b < |d|
    requires forall t :: 0 <= t < |lh| ==> lh[t] < |d|
    ensures Fits(InstallWrites(lh, data), |d|)
    ensures Apply(d, InstallWrites(lh, data))[b] == After(d, Txn(lh, data))[b]
  {
    var ws := InstallWrites(lh, data);
    var i := IndexOf(lh, b);
    if i < |lh| {
      assert ws[i] == Write(b, data[i]);
      assert forall j :: i < j < |ws| ==> ws[j].bno == lh[j] != b;
      ApplyTouched(d, ws, b, i);
    } else {
      ApplyUntouched(d, ws, b);
    }
  }

  /** Clearing the header of a fully installed transaction finishes it. */
  lemma ClearFinishes(d: Disk, d1: Disk, start: nat, x: Txn)
    requires Pending(d, d, start, x) && SameHome(d, d1, start)
    ensures Clean(d[start := HeaderBlock(d[start], [])], d1, start)
  {
    HeaderRoundTrip(d[start], []);
  }

  /** One recovery, cut short after `j` of its writes (all of them if `j` is large). */
  ghost function CutRecovery(d: Disk, start: nat, j: nat): (r: Disk)
    requires Recoverable(d, start)
    ensures |r| == |d|
  {
    var ws := RecoveryWrites(d, start);
    Apply(d, ws[..if j < |ws| then j else |ws|])
  }

  lemma PendingIsRecoverable(d: Disk, d0: Disk, start: nat, x: Txn)
    requires Pending(d, d0, start, x)
    ensures Recoverable(d, start)
    ensures RecoveryWrites(d, start) == InstallWrites(x.lh, x.data) + [Write(start, HeaderBlock(d[start], []))]
  {
  }

  /** A cut-short recovery leaves the transaction pending; a completed one leaves the
      log clear and every home block new. */
  lemma CutRecoveryOfPending(d: Disk, d0: Disk, start: nat, x: Txn, j: nat)
    requires Pending(d, d0, start, x)
    ensures Recoverable(d, start)
    ensures j <= |x.lh| ==> Pending(CutRecovery(d, start, j), d0, start, x)
    ensures j > |x.lh| ==> Clean(CutRecovery(d, start, j), After(d0, x), start)
  {
    PendingIsRecoverable(d, d0, start, x);
    var installs := InstallWrites(x.lh, x.data);
    var clear := [Write(start, HeaderBlock(d[start], []))];
    var ws := RecoveryWrites(d, start);
    if j <= |x.lh| {
      assert ws[..j] == installs[..j];
      InstallPrefixKeepsPending(d, d0, start, x, j);
    } else {
      assert ws[..|ws|] == installs + clear && installs[..|x.lh|] == installs;
      InstallPrefixKeepsPending(d, d0, start, x, |x.lh|);
      InstallAll(d, d0, start, x);
      var e := Apply(d, installs);
      assert ws[..|ws| - 1] == installs;
      ClearFinishes(e, After(d0, x), start, x);
      assert CutRecovery(d, start, j) == e[start := HeaderBlock(e[start], [])];
    }
  }

  /** Reboot again and again: recovery i is cut short after js[i] of its writes. */
  ghost predicate RebootsOk(d: Disk, start: nat, js: seq<nat>)
    decreases |js|
  {
    Recoverable(d, start) && (js != [] ==> RebootsOk(CutRecovery(d, start, js[0]), start, js[1..]))
  }

  ghost function Reboots(d: Disk, start: nat, js: seq<nat>): (r: Disk)
    requires RebootsOk(d, start, js)
    ensures |r| == |d|
    decreases |js|
  {
    if js == [] then d else Reboots(CutRecovery(d, start, js[0]), start, js[1..])
  }

  /** Some recovery among the reboots ran to its last write. */
  ghost predicate SomeCompleted(js: seq<nat>, n: nat) {
    exists i :: 0 <= i < |js| && js[i] > n
  }

  lemma {:induction false} RebootsOfClean(d: Disk, d0: Disk, start: nat, js: seq<nat>)
    requires Clean(d, d0, start)
    ensures RebootsOk(d, start, js)
    ensures Clean(Reboots(d, start, js), d0, start)
    decreases |js|
  {
    CutRecoveryOfPending(d, d0, start, NOTHING, 0);
    if js == [] {
    } else {
      CutRecoveryOfPending(d, d0, start, NOTHING, js[0]);
      assert After(d0, NOTHING) == d0;
      RebootsOfClean(CutRecovery(d, start, js[0]), d0, start, js[1..]);
    }
  }

  /** Any number of crashes inside recovery: until one completes the transaction stays
      pending, and from the first completed one on the new contents are in place. */
  lemma {:induction false} RebootsOfPending(d: Disk, d0: Disk, start: nat, x: Txn, js: seq<nat>)
    requires Pending(d, d0, start, x)
    ensures RebootsOk(d, start, js)
    ensures SomeCompleted(js, |x.lh|) ==> Clean(Reboots(d, start, js), After(d0, x), start)
    ensures !SomeCompleted(js, |x.lh|) ==> Pending(Reboots(d, start, js), d0, start, x)
    decreases |js|
  {
    CutRecoveryOfPending(d, d0, start, x, 0);
    if js == [] {
    } else {
      var e := CutRecovery(d, start, js[0]);
      CutRecoveryOfPending(d, d0, start, x, js[0]);
      if js[0] > |x.lh| {
        RebootsOfClean(e, After(d0, x), start, js[1..]);
      } else {
        RebootsOfPending(e, d0, start, x, js[1..]);
        assert SomeCompleted(js, |x.lh|) ==> SomeCompleted(js[1..], |x.lh|) by {
          if SomeCompleted(js, |x.lh|) {
            var i :| 0 <= i < |js| && js[i] > |x.lh|;
            assert js[1..][i - 1] == js[i];
          }
        }
      }
    }
  }

  /** The disk when commit() is cut short after `k` of its writes. */
  ghost function CutCommit(d: Disk, start: nat, x: Txn, k: nat): (r: Disk)
    requires TxnOk(x, start, |d|)
    ensures |r| == |d|
  {
    var ws := CommitWrites(d[start], start, x);
    assert Fits(ws, |d|) by { InstallsFit(x, start, |d|); }
    Apply(d, ws[..if k < |ws| then k else |ws|])
  }

  /** The commit point: the header write is write number |lh| of commit(). */
  predicate HeaderReached(x: Txn, k: nat) {
    x.lh != [] && k > |x.lh|
  }

  predicate CommitFinished(x: Txn, k: nat) {
    k >= 2 * |x.lh| + 2
  }

  /** Before the header write the log is still clear and the home blocks old. */
  lemma CutBeforeHeader(d0: Disk, start: nat, x: Txn, k: nat)
    requires TxnOk(x, start, |d0|) && Clean(d0, d0, start) && !HeaderReached(x, k)
    ensures Clean(CutCommit(d0, start, x, k), d0, start)
  {
    if x.lh == [] {
      assert CommitWrites(d0[start], start, x) == [];
    } else {
      var ws := CommitWrites(d0[start], start, x);
      var e := CutCommit(d0, start, x, k);
      assert ws[..k] == LogWrites(start, x.data)[..k];
      InstallsFit(x, start, |d0|);
      forall b: nat | b < |d0| && (Home(b, start, |d0|) || b == start)
        ensures e[b] == d0[b]
      {
        ApplyUntouched(d0, ws[..k], b);
      }
    }
  }

  /** The header write turns a fully copied log into a pending transaction. */
  lemma HeaderWriteCommits(d0: Disk, start: nat, x: Txn)
    requires TxnOk(x, start, |d0|) && Clean(d0, d0, start) && x.lh != []
    ensures Pending(CutCommit(d0, start, x, |x.lh| + 1), d0, start, x)
    ensures CutCommit(d0, start, x, |x.lh| + 1)[start] == HeaderBlock(d0[start], x.lh)
  {
    hide Apply, HeaderBlock, ReadHeader, HeaderOk;
    var n := |x.lh|;
    var ws := CommitWrites(d0[start], start, x);
    var lw := LogWrites(start, x.data);
    var e := CutCommit(d0, start, x, n + 1);
    assert ws[..n + 1] == lw + [Write(start, HeaderBlock(d0[start], x.lh))];
    assert ws[..n + 1][..n] == lw;
    InstallsFit(x, start, |d0|);
    HeaderRoundTrip(d0[start], x.lh);
    forall b: nat | Home(b, start, |d0|)
      ensures e[b] == d0[b]
    {
      ApplyUntouched(d0, ws[..n + 1], b);
    }
    forall t | 0 <= t < n
      ensures e[start + 1 + t] == x.data[t]
    {
      ApplyTouched(d0, ws[..n + 1], start + 1 + t, t);
    }
    ApplyTouched(d0, ws[..n + 1], start, n);
    assert Logged(e, start, n) == x.data;
  }

  lemma CutInInstalls(d0: Disk, start: nat, x: Txn, j: nat)
    requires TxnOk(x, start, |d0|) && x.lh != [] && j <= |x.lh|
    ensures Fits(InstallWrites(x.lh, x.data)[..j], |d0|)
    ensures CutCommit(d0, start, x, |x.lh| + 1 + j)
         == Apply(CutCommit(d0, start, x, |x.lh| + 1), InstallWrites(x.lh, x.data)[..j])
  {
    var n := |x.lh|;
    var ws := CommitWrites(d0[start], start, x);
    var iw := InstallWrites(x.lh, x.data);
    InstallsFit(x, start, |d0|);
    assert ws[..n + 1 + j] == ws[..n + 1] + iw[..j];
    ApplyConcat(d0, ws[..n + 1], iw[..j]);
  }

  /** From the header write to the clearing one the transaction is pending. */
  lemma CutWhileInstalling(d0: Disk, start: nat, x: Txn, j: nat)
    requires TxnOk(x, start, |d0|) && Clean(d0, d0, start) && x.lh != [] && j <= |x.lh|
    ensures var e := CutCommit(d0, start, x, |x.lh| + 1 + j);
            && Pending(e, d0, start, x)
            && e[start] == HeaderBlock(d0[start], x.lh)
            && (j == |x.lh| ==> SameHome(e, After(d0, x), start))
  {
    hide Pending, CutCommit, Apply, HeaderBlock, SameHome;
    var e := CutCommit(d0, start, x, |x.lh| + 1);
    HeaderWriteCommits(d0, start, x);
    CutInInstalls(d0, start, x, j);
    InstallPrefixKeepsPending(e, d0, start, x, j);
    if j == |x.lh| {
      assert InstallWrites(x.lh, x.data)[..j] == InstallWrites(x.lh, x.data);
      InstallAll(e, d0, start, x);
    }
  }

  lemma CutAtEnd(d0: Disk, start: nat, x: Txn, k: nat)
    requires TxnOk(x, start, |d0|) && x.lh != [] && CommitFinished(x, k)
    ensures CutCommit(d0, start, x, k)
         == CutCommit(d0, start, x, 2 * |x.lh| + 1)[start := HeaderBlock(HeaderBlock(d0[start], x.lh), [])]
  {
    hide Apply, HeaderBlock;
    var ws := CommitWrites(d0[start], start, x);
    InstallsFit(x, start, |d0|);
    assert ws[..|ws|] == ws && ws[..|ws| - 1] == ws[..2 * |x.lh| + 1];
    ApplySnoc(d0, ws[..|ws| - 1], ws[|ws| - 1]);
    assert ws[..|ws| - 1] + [ws[|ws| - 1]] == ws;
  }

  lemma PendingItself(d: Disk, d0: Disk, start: nat, x: Txn)
    requires Pending(d, d0, start, x)
    ensures Pending(d, d, start, x)
  {
  }

  lemma CutAfterHeader(d0: Disk, start: nat, x: Txn, k: nat)
    requires TxnOk(x, start, |d0|) && Clean(d0, d0, start) && HeaderReached(x, k)
    ensures !CommitFinished(x, k) ==> Pending(CutCommit(d0, start, x, k), d0, start, x)
    ensures CommitFinished(x, k) ==> Clean(CutCommit(d0, start, x, k), After(d0, x), start)
  {
    hide Pending, CutCommit, Apply, HeaderBlock, SameHome, After;
    var n := |x.lh|;
    if !CommitFinished(x, k) {
      CutWhileInstalling(d0, start, x, k - n - 1);
    } else {
      CutWhileInstalling(d0, start, x, n);
      CutAtEnd(d0, start, x, k);
      PendingItself(CutCommit(d0, start, x, 2 * n + 1), d0, start, x);
      ClearFinishes(CutCommit(d0, start, x, 2 * n + 1), After(d0, x), start, x);
    }
  }

  /** Crash atomicity. commit() is cut short after any number `k` of its disk writes,
      then come any number of recoveries, each cut short anywhere. Once one recovery has
      completed, the log is clear and the home blocks are all new exactly when the header
      write had reached the disk, and all old otherwise. */
  lemma CrashAtomicity(d0: Disk, start: nat, x: Txn, k: nat, js: seq<nat>)
    requires TxnOk(x, start, |d0|) && Clean(d0, d0, start)
    ensures RebootsOk(CutCommit(d0, start, x, k), start, js)
    ensures SomeCompleted(js, |x.lh|) ==>
              Clean(Reboots(CutCommit(d0, start, x, k), start, js),
                    if HeaderReached(x, k) then After(d0, x) else d0, start)
  {
    hide Pending, CutCommit, Reboots, RebootsOk, After;
    var e := CutCommit(d0, start, x, k);
    if !HeaderReached(x, k) {
      CutBeforeHeader(d0, start, x, k);
      RebootsOfClean(e, d0, start, js);
    } else {
      CutAfterHeader(d0, start, x, k);
      if CommitFinished(x, k) {
        RebootsOfClean(e, After(d0, x), start, js);
      } else {
        RebootsOfPending(e, d0, start, x, js);
      }
    }
  }

  /** Recovery is idempotent: recovering a recovered disk changes no home block. */
  lemma RecoveryIdempotent(d: Disk, d0: Disk, start: nat, x: Txn)
    requires Pending(d, d0, start, x)
    ensures Recoverable(d, start)
    ensures var once := CutRecovery(d, start, |x.lh| + 1);
            Recoverable(once, start) && SameHome(CutRecovery(once, start, 1), once, start)
  {
    CutRecoveryOfPending(d, d0, start, x, |x.lh| + 1);
    var once := CutRecovery(d, start, |x.lh| + 1);
    CutRecoveryOfPending(once, After(d0, x), start, NOTHING, 1);
    assert After(After(d0, x), NOTHING) == After(d0, x);
  }

  // ---- Whole histories ----

  /** A transaction commits, or the machine crashes inside it and comes back after the
      reboots `js`, the last of which completes its recovery. */
  datatype Event =
    | Commit(x: Txn)
    | Crash(x: Txn, k: nat, js: seq<nat>)

  ghost predicate EventOk(e: Event, start: nat, size: nat) {
    TxnOk(e.x, start, size) && (e.Crash? ==> SomeCompleted(e.js, |e.x.lh|))
  }

  /** What the event does to the disk. */
  ghost function StepDisk(d: Disk, start: nat, e: Event): (r: Disk)
    requires EventOk(e, start, |d|) && Clean(d, d, start)
    ensures |r| == |d|
  {
    match e
    case Commit(x) => CutCommit(d, start, x, 2 * |x.lh| + 2)
    case Crash(x, k, js) =>
      assert RebootsOk(CutCommit(d, start, x, k), start, js) by { CrashAtomicity(d, start, x, k, js); }
      Reboots(CutCommit(d, start, x, k), start, js)
  }

  /** What the event means: all of the transaction or none of it. */
  ghost function StepMeaning(m: Disk, e: Event): (r: Disk)
    requires |e.x.data| == |e.x.lh|
    ensures |r| == |m|
  {
    if e.Commit? || HeaderReached(e.x, e.k) then After(m, e.x) else m
  }

  lemma StepRefines(d: Disk, m: Disk, start: nat, e: Event)
    requires EventOk(e, start, |d|) && Clean(d, m, start) && Clean(d, d, start)
    ensures Clean(StepDisk(d, start, e), StepMeaning(m, e), start)
    ensures var r := StepDisk(d, start, e); Clean(r, r, start)
  {
    hide CutCommit, Reboots, ReadHeader, HeaderOk, HeaderBlock;
    var k := if e.Commit? then 2 * |e.x.lh| + 2 else e.k;
    if HeaderReached(e.x, k) {
      CutAfterHeader(d, start, e.x, k);
    } else {
      CutBeforeHeader(d, start, e.x, k);
    }
    if e.Crash? {
      CrashAtomicity(d, start, e.x, e.k, e.js);
    }
    assert SameHome(After(d, e.x), After(m, e.x), start);
  }

  /** The meaning of a history: fold of whole transactions. */
  ghost function Meaning(m: Disk, es: seq<Event>): (r: Disk)
    requires forall i :: 0 <= i < |es| ==> |es[i].x.data| == |es[i].x.lh|
    ensures |r| == |m|
  {
    if es == [] then m else StepMeaning(Meaning(m, es[..|es| - 1]), es[|es| - 1])
  }

  ghost predicate EventsOk(es: seq<Event>, start: nat, size: nat) {
    forall i :: 0 <= i < |es| ==> EventOk(es[i], start, size)
  }

  /** The disk after a history. */
  ghost function Run(d: Disk, start: nat, es: seq<Event>): (r: Disk)
    requires Clean(d, d, start) && EventsOk(es, start, |d|)
    ensures |r| == |d| && Clean(r, r, start)
  {
    if es == [] then d
    else
      var p := Run(d, start, es[..|es| - 1]);
      StepRefines(p, p, start, es[|es| - 1]);
      StepDisk(p, start, es[|es| - 1])
  }

  /** Over every history of commits and crashes, the home blocks are at every quiet point
      exactly the transactions that reached their commit point, applied whole and in order. */
  lemma {:induction false} HistoryIsSerial(d: Disk, start: nat, es: seq<Event>)
    requires Clean(d, d, start) && EventsOk(es, start, |d|)
    ensures SameHome(Run(d, start, es), Meaning(d, es), start)
  {
    if es == [] {
    } else {
      var n := |es| - 1;
      HistoryIsSerial(d, start, es[..n]);
      StepRefines(Run(d, start, es[..n]), Meaning(d, es[..n]), start, es[n]);
    }
  }
}
