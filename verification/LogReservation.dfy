/** Space reservation in the log over all interleavings of begin_op, log_write and end_op.
    Each critical section under log.lock is one step. */
module LogReservation {
  import opened Common
  import opened CrashSafety

  /** The fields of struct log that the reservation uses. */
  datatype LogState = LogState(lh: seq<nat>, outstanding: nat, committing: bool)

  /** begin_op's two reasons to sleep. */
  predicate MustWait(s: LogState) {
    s.committing || |s.lh| + (s.outstanding + 1) * MAXOPBLOCKS > LOGBLOCKS
  }

  datatype LogWriteOutcome = Recorded(lh: seq<nat>) | TooBig | OutsideTransaction

  /** log_write's guards, absorption and append. */
  function Record(s: LogState, b: nat): LogWriteOutcome {
    if |s.lh| >= LOGBLOCKS then TooBig
    else if s.outstanding < 1 then OutsideTransaction
    else if b in s.lh then Recorded(s.lh)
    else Recorded(s.lh + [b])
  }

  /** What each process is doing: nothing, asleep in begin_op or woken and about to check
      again, inside an operation that has written the blocks `written`, or committing. */
  datatype Process =
    | Idle
    | Asleep
    | Retrying
    | InOp(written: set<nat>)
    | Committing

  datatype System = System(log: LogState, procs: seq<Process>)

  function Wakeup(ps: seq<Process>): (r: seq<Process>)
    ensures |r| == |ps|
    ensures forall i :: 0 <= i < |ps| ==> r[i] == if ps[i].Asleep? then Retrying else ps[i]
  {
    seq(|ps|, i requires 0 <= i < |ps| => if ps[i].Asleep? then Retrying else ps[i])
  }

  datatype Action = BeginOp | LogWrite(b: nat) | EndOp | ClearLog | FinishCommit

  /** One critical section of process `p`. */
  ghost predicate Step(s: System, p: nat, a: Action, t: System) {
    && p < |s.procs|
    && match a
       case BeginOp =>
         && (s.procs[p].Idle? || s.procs[p].Retrying?)
         && t == if MustWait(s.log) then s.(procs := s.procs[p := Asleep])
                 else System(s.log.(outstanding := s.log.outstanding + 1), s.procs[p := InOp({})])
       case LogWrite(b) =>
         && s.procs[p].InOp?
         && |s.procs[p].written + {b}| <= MAXOPBLOCKS
         && Record(s.log, b).Recorded?
         && t == System(s.log.(lh := Record(s.log, b).lh), s.procs[p := InOp(s.procs[p].written + {b})])
       case EndOp =>
         && s.procs[p].InOp?
         && !s.log.committing && s.log.outstanding > 0
         && t == if s.log.outstanding == 1
                 then System(s.log.(outstanding := 0, committing := true), s.procs[p := Committing])
                 else System(s.log.(outstanding := s.log.outstanding - 1), Wakeup(s.procs[p := Idle]))
       case ClearLog =>
         && s.procs[p].Committing?
         && t == s.(log := s.log.(lh := []))
       case FinishCommit =>
         && s.procs[p].Committing? && s.log.lh == []
         && t == System(s.log.(committing := false), Wakeup(s.procs[p := Idle]))
  }

  ghost predicate Init(s: System) {
    s.log == LogState([], 0, false) && forall i :: 0 <= i < |s.procs| ==> s.procs[i].Idle?
  }

  /** A run: any interleaving of the processes' steps from an idle system. */
  ghost predicate Run(ss: seq<System>) {
    && |ss| > 0
    && Init(ss[0])
    && forall k :: 0 <= k < |ss| - 1 ==> Next(ss[k], ss[k + 1])
  }

  ghost predicate Next(s: System, t: System) {
    exists p: nat, a :: Step(s, p, a, t)
  }

  // ---- Counting over the processes ----

  function Ops(ps: seq<Process>): nat {
    if ps == [] then 0 else Ops(ps[..|ps| - 1]) + if ps[|ps| - 1].InOp? then 1 else 0
  }

  function Budget(p: Process): int {
    if p.InOp? then MAXOPBLOCKS - |p.written| else 0
  }

  /** The log blocks that the operations in progress may still record. */
  function Unused(ps: seq<Process>): int {
    if ps == [] then 0 else Unused(ps[..|ps| - 1]) + Budget(ps[|ps| - 1])
  }

  lemma {:induction false} CountsAfterUpdate(ps: seq<Process>, p: nat, x: Process)
    requires p < |ps|
    ensures Ops(ps[p := x]) == Ops(ps) - (if ps[p].InOp? then 1 else 0) + if x.InOp? then 1 else 0
    ensures Unused(ps[p := x]) == Unused(ps) - Budget(ps[p]) + Budget(x)
  {
    var n := |ps| - 1;
    if p < n {
      CountsAfterUpdate(ps[..n], p, x);
      assert ps[p := x][..n] == ps[..n][p := x];
    } else {
      assert ps[p := x][..n] == ps[..n];
    }
  }

  lemma {:induction false} CountsAfterWakeup(ps: seq<Process>)
    ensures Ops(Wakeup(ps)) == Ops(ps) && Unused(Wakeup(ps)) == Unused(ps)
  {
    if ps == [] {
    } else {
      var n := |ps| - 1;
      CountsAfterWakeup(ps[..n]);
      assert Wakeup(ps)[..n] == Wakeup(ps[..n]);
    }
  }

  lemma {:induction false} CountsBound(ps: seq<Process>)
    requires forall i :: 0 <= i < |ps| ==> Budget(ps[i]) >= 0
    ensures 0 <= Unused(ps) <= Ops(ps) * MAXOPBLOCKS
    ensures forall i :: 0 <= i < |ps| ==> Budget(ps[i]) <= Unused(ps)
    ensures Ops(ps) == 0 <==> forall i :: 0 <= i < |ps| ==> !ps[i].InOp?
  {
    if ps == [] {
    } else {
      CountsBound(ps[..|ps| - 1]);
    }
  }

  // ---- The invariant ----

  ghost predicate SomeCommitting(ps: seq<Process>) {
    exists i :: 0 <= i < |ps| && ps[i].Committing?
  }

  ghost predicate Inv(s: System) {
    && s.log.outstanding == Ops(s.procs)
    && Distinct(s.log.lh)
    && (forall i :: 0 <= i < |s.procs| ==> Budget(s.procs[i]) >= 0)
    && (forall i, b :: 0 <= i < |s.procs| && s.procs[i].InOp? && b in s.procs[i].written ==> b in s.log.lh)
    // Reserved space is never oversubscribed.
    && |s.log.lh| + Unused(s.procs) <= LOGBLOCKS
    // A commit runs alone.
    && (s.log.committing ==> s.log.outstanding == 0)
    && (s.log.committing <==> SomeCommitting(s.procs))
    && (forall i, j :: 0 <= i < j < |s.procs| ==> !(s.procs[i].Committing? && s.procs[j].Committing?))
    // Whoever sleeps in begin_op has somebody to wake it.
    && (forall i :: 0 <= i < |s.procs| && s.procs[i].Asleep? ==> s.log.committing || s.log.outstanding > 0)
    // A commit clears the log before it ends.
    && (!s.log.committing && s.log.outstanding == 0 ==> s.log.lh == [])
  }

  lemma {:induction false} InitCounts(ps: seq<Process>)
    requires forall i :: 0 <= i < |ps| ==> ps[i].Idle?
    ensures Ops(ps) == 0 && Unused(ps) == 0
  {
    if ps == [] {
    } else {
      InitCounts(ps[..|ps| - 1]);
    }
  }

  lemma InitInv(s: System)
    requires Init(s)
    ensures Inv(s)
  {
    InitCounts(s.procs);
  }

  lemma BeginKeepsInv(s: System, p: nat, t: System)
    requires Inv(s) && Step(s, p, BeginOp, t)
    ensures Inv(t)
  {
    CountsBound(s.procs);
    CountsAfterUpdate(s.procs, p, t.procs[p]);
    assert SomeCommitting(s.procs) ==> SomeCommitting(t.procs) by {
      if i :| 0 <= i < |s.procs| && s.procs[i].Committing? {
        assert t.procs[i].Committing?;
      }
    }
  }

  lemma LogWriteKeepsInv(s: System, p: nat, b: nat, t: System)
    requires Inv(s) && Step(s, p, LogWrite(b), t)
    ensures Inv(t)
  {
    CountsAfterUpdate(s.procs, p, t.procs[p]);
    CountsBound(s.procs);
    assert !SomeCommitting(s.procs);
    var w := s.procs[p].written;
    assert b in w ==> w + {b} == w;
    assert b !in w ==> |w + {b}| == |w| + 1;
  }

  lemma EndKeepsInv(s: System, p: nat, t: System)
    requires Inv(s) && Step(s, p, EndOp, t)
    ensures Inv(t)
  {
    assert !SomeCommitting(s.procs);
    CountsBound(s.procs);
    if s.log.outstanding == 1 {
      CountsAfterUpdate(s.procs, p, Committing);
      CountsBound(t.procs);
      assert t.procs[p].Committing?;
    } else {
      CountsAfterUpdate(s.procs, p, Idle);
      CountsAfterWakeup(s.procs[p := Idle]);
      assert !SomeCommitting(t.procs);
    }
  }

  lemma CommitStepsKeepInv(s: System, p: nat, a: Action, t: System)
    requires Inv(s) && Step(s, p, a, t) && (a.ClearLog? || a.FinishCommit?)
    ensures Inv(t)
  {
    CountsBound(s.procs);
    CountsAfterUpdate(s.procs, p, Idle);
    CountsAfterWakeup(s.procs[p := Idle]);
    assert SomeCommitting(s.procs);
  }

  lemma StepKeepsInv(s: System, p: nat, a: Action, t: System)
    requires Inv(s) && Step(s, p, a, t)
    ensures Inv(t)
  {
    match a
    case BeginOp => BeginKeepsInv(s, p, t);
    case LogWrite(b) => LogWriteKeepsInv(s, p, b, t);
    case EndOp => EndKeepsInv(s, p, t);
    case ClearLog => CommitStepsKeepInv(s, p, a, t);
    case FinishCommit => CommitStepsKeepInv(s, p, a, t);
  }

  /** The invariant holds throughout every run. */
  lemma {:induction false} RunKeepsInv(ss: seq<System>)
    requires Run(ss)
    ensures Inv(ss[|ss| - 1])
  {
    if |ss| == 1 {
      InitInv(ss[0]);
    } else {
      var n := |ss| - 1;
      RunKeepsInv(ss[..n]);
      assert Next(ss[n - 1], ss[n]);
      var p: nat, a :| Step(ss[n - 1], p, a, ss[n]);
      StepKeepsInv(ss[n - 1], p, a, ss[n]);
    }
  }

  ghost predicate Reachable(s: System) {
    exists ss :: Run(ss) && ss[|ss| - 1] == s
  }

  lemma ReachableInv(s: System)
    requires Reachable(s)
    ensures Inv(s)
  {
    var ss :| Run(ss) && ss[|ss| - 1] == s;
    RunKeepsInv(ss);
  }

  lemma ReachableStep(s: System, p: nat, a: Action, t: System)
    requires Reachable(s) && Step(s, p, a, t)
    ensures Reachable(t)
  {
    var ss :| Run(ss) && ss[|ss| - 1] == s;
    assert Next(s, t);
    assert Run(ss + [t]);
  }

  // ---- What the invariant gives ----

  /** An operation that has written fewer than MAXOPBLOCKS distinct blocks meets neither of
      log_write's panics, whatever block it writes next; nor does end_op find a commit going on. */
  lemma NoPanicWithinBudget(s: System, p: nat, b: nat)
    requires Reachable(s) && p < |s.procs| && s.procs[p].InOp?
    ensures !s.log.committing && s.log.outstanding >= 1
    ensures |s.procs[p].written| < MAXOPBLOCKS ==> Record(s.log, b).Recorded?
  {
    ReachableInv(s);
    CountsBound(s.procs);
  }

  /** Inside an operation log_write panics exactly when the log is full, and then every
      operation in progress has spent its whole budget. */
  lemma PanicExactlyWhenFull(s: System, p: nat, b: nat)
    requires Reachable(s) && p < |s.procs| && s.procs[p].InOp?
    ensures Record(s.log, b) == TooBig <==> |s.log.lh| == LOGBLOCKS
    ensures Record(s.log, b) == TooBig ==>
              forall i :: 0 <= i < |s.procs| && s.procs[i].InOp? ==> |s.procs[i].written| == MAXOPBLOCKS
  {
    ReachableInv(s);
    CountsBound(s.procs);
  }

  /** Nobody sleeps in begin_op without a commit or an operation in progress to wake it, and
      the end of a commit lets the next one in. */
  lemma SleepersAreWoken(s: System, p: nat)
    requires Reachable(s) && p < |s.procs| && s.procs[p].Asleep?
    ensures exists q :: 0 <= q < |s.procs| && (s.procs[q].Committing? || s.procs[q].InOp?)
    ensures forall q: nat, t :: Step(s, q, FinishCommit, t) ==> t.procs[p].Retrying? && !MustWait(t.log)
  {
    ReachableInv(s);
    CountsBound(s.procs);
    if s.log.committing {
      assert SomeCommitting(s.procs);
    }
  }

  // ---- Who is let in, and who commits ----

  /** The processes inside an operation. */
  ghost function InOps(ps: seq<Process>): set<nat> {
    set i: nat | i < |ps| && ps[i].InOp?
  }

  lemma {:induction false} OpsAreCounted(ps: seq<Process>)
    ensures Ops(ps) == |InOps(ps)|
  {
    if ps == [] {
    } else {
      var n := |ps| - 1;
      OpsAreCounted(ps[..n]);
      assert InOps(ps) == InOps(ps[..n]) + if ps[n].InOp? then {n} else {};
    }
  }

  /** begin_op lets an operation in exactly when nobody is committing and the log has room for a full
      budget of every operation in progress and of this one; otherwise the process sleeps. Nobody else
      is affected. */
  lemma AdmittedIffFits(s: System, p: nat, t: System)
    requires Reachable(s) && Step(s, p, BeginOp, t)
    ensures |t.procs| == |s.procs| && t.procs == s.procs[p := t.procs[p]] && t.log.lh == s.log.lh
    ensures t.procs[p] == InOp({}) || t.procs[p] == Asleep
    ensures t.procs[p].InOp? <==>
              && (forall q :: 0 <= q < |s.procs| ==> !s.procs[q].Committing?)
              && |s.log.lh| + MAXOPBLOCKS * (|InOps(s.procs)| + 1) <= LOGBLOCKS
    ensures t.log.outstanding == |InOps(t.procs)| && t.log.committing == s.log.committing
  {
    ReachableInv(s);
    OpsAreCounted(s.procs);
    OpsAreCounted(t.procs);
    CountsAfterUpdate(s.procs, p, t.procs[p]);
  }

  /** end_op commits exactly when no other operation is in progress; otherwise it only leaves, and
      everybody who sleeps in begin_op gets to check again. */
  lemma EndOpCommitsIffLast(s: System, p: nat, t: System)
    requires Reachable(s) && Step(s, p, EndOp, t)
    ensures |t.procs| == |s.procs| && t.log.lh == s.log.lh
    ensures t.procs[p].Committing? <==> InOps(s.procs) == {p}
    ensures !t.procs[p].Committing? ==> t.procs[p].Idle? && !t.log.committing
    ensures !t.procs[p].Committing? ==>
              forall q :: 0 <= q < |s.procs| && q != p ==>
                t.procs[q] == if s.procs[q].Asleep? then Retrying else s.procs[q]
  {
    OpsAreCounted(s.procs);
    ReachableInv(s);
    assert p in InOps(s.procs);
    if |InOps(s.procs)| == 1 {
      OneOp(s.procs, p);
    }
  }

  lemma OneOp(ps: seq<Process>, p: nat)
    requires p in InOps(ps) && |InOps(ps)| == 1
    ensures InOps(ps) == {p}
  {
    assert |InOps(ps) - {p}| == 0;
  }

  /** The end of a commit wakes every sleeper, and the first of them to check is let in. */
  lemma CommitLetsIn(s: System, q: nat, t: System, p: nat, u: System)
    requires Reachable(s) && Step(s, q, FinishCommit, t) && p < |s.procs| && s.procs[p].Asleep?
    requires Step(t, p, BeginOp, u)
    ensures t.procs[p].Retrying? && u.procs[p].InOp?
  {
    ReachableInv(s);
    ReachableStep(s, q, FinishCommit, t);
    AdmittedIffFits(t, p, u);
    OpsAreCounted(t.procs);
    ReachableInv(t);
  }

  // ---- A full log is reachable, and then even an absorbed write panics ----

  lemma OutstandingOp(s: System, p: nat)
    requires Reachable(s) && p < |s.procs| && s.procs[p].InOp?
    ensures s.log.outstanding >= 1
  {
    ReachableInv(s);
    CountsBound(s.procs);
  }

  lemma {:induction false} FillBudget(s: System, p: nat, base: nat, k: nat) returns (t: System)
    requires Reachable(s) && p < |s.procs| && s.procs[p] == InOp({}) && k <= MAXOPBLOCKS
    requires |s.log.lh| + k <= LOGBLOCKS
    requires forall b :: b in s.log.lh ==> b < base
    ensures Reachable(t) && |t.procs| == |s.procs|
    ensures t.procs == s.procs[p := t.procs[p]] && t.procs[p].InOp?
    ensures forall b :: b in t.procs[p].written <==> base <= b < base + k
    ensures |t.procs[p].written| == k
    ensures t.log == s.log.(lh := t.log.lh) && |t.log.lh| == |s.log.lh| + k
    ensures forall b :: b in t.log.lh ==> b < base + k
  {
    if k == 0 {
      t := s;
    } else {
      var u := FillBudget(s, p, base, k - 1);
      var b := base + k - 1;
      hide Reachable, Inv;
      OutstandingOp(s, p);
      var w := u.procs[p].written;
      assert b !in w && |w + {b}| == k;
      t := System(u.log.(lh := u.log.lh + [b]), u.procs[p := InOp(w + {b})]);
      assert Step(u, p, LogWrite(b), t);
      hide Step;
      ReachableStep(u, p, LogWrite(b), t);
    }
  }

  /** Three operations that each write MAXOPBLOCKS distinct blocks fill the log within the
      rules; rewriting a block already in the log, which would need no space, then panics. */
  lemma FullLogRefusesAbsorption() returns (s: System, p: nat, b: nat)
    ensures Reachable(s) && p < |s.procs| && s.procs[p].InOp?
    ensures b in s.procs[p].written && b in s.log.lh
    ensures Record(s.log, b) == TooBig
  {
    var empty := LogState([], 0, false);
    s := System(empty, [Idle, Idle, Idle]);
    assert Run([s]);
    p := 0;
    while p < 3
      invariant 0 <= p <= 3 && |s.procs| == 3 && Reachable(s)
      invariant s.log == empty.(outstanding := p)
      invariant forall i :: 0 <= i < 3 ==> s.procs[i] == if i < p then InOp({}) else Idle
    {
      var t := System(s.log.(outstanding := p + 1), s.procs[p := InOp({})]);
      assert Step(s, p, BeginOp, t);
      ReachableStep(s, p, BeginOp, t);
      s, p := t, p + 1;
    }
    p := 0;
    while p < 3
      invariant 0 <= p <= 3 && |s.procs| == 3 && Reachable(s)
      invariant |s.log.lh| == p * MAXOPBLOCKS && forall c :: c in s.log.lh ==> c < p * MAXOPBLOCKS
      invariant forall i :: p <= i < 3 ==> s.procs[i] == InOp({})
      invariant p > 0 ==> s.procs[p - 1].InOp? && (p - 1) * MAXOPBLOCKS in s.procs[p - 1].written
    {
      s := FillBudget(s, p, p * MAXOPBLOCKS, MAXOPBLOCKS);
      p := p + 1;
    }
    p, b := 2, 2 * MAXOPBLOCKS;
    ReachableInv(s);
  }
}
