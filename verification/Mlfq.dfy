/** The multi-level feedback queue of kernel/proc.c on one hart, as a step machine. The history
    variable `charged` counts, for each slot, the ticks charged since the slot's last reset. */
module Mlfq {
  import opened Common

  const NPROC := 64
  const HIGH := 0
  const LOW := 2
  const STARVATION_THRESHOLD := 200
  const NONE := NPROC

  datatype State = Unused | Used | Sleeping | Runnable | Running | Zombie

  datatype Proc = Proc(state: State, chan: nat, priority: nat, timeslice: nat, used: nat)

  /** get_timeslice */
  function Timeslice(priority: nat): (t: nat)
    ensures t > 0
  {
    match priority
    case 0 => 4
    case 1 => 8
    case 2 => 16
    case _ => 16
  }

  /** The hart's view: the table, the starvation counter, and the slot it runs. */
  datatype Machine = Machine(procs: seq<Proc>, counter: nat, current: nat, charged: seq<nat>)

  predicate Ready(p: Proc) { p.state == Runnable || p.state == Running }

  function Boost(p: Proc): Proc {
    if Ready(p) then p.(priority := HIGH, timeslice := Timeslice(HIGH), used := 0) else p
  }

  /** boost_all_priorities */
  function BoostAll(ps: seq<Proc>): (r: seq<Proc>)
    ensures |r| == |ps|
    ensures forall i :: 0 <= i < |ps| ==> r[i] == Boost(ps[i])
  {
    seq(|ps|, i requires 0 <= i < |ps| => Boost(ps[i]))
  }

  function ResetReady(ps: seq<Proc>, ks: seq<nat>): (r: seq<nat>)
    requires |ps| == |ks|
    ensures |r| == |ks|
    ensures forall i :: 0 <= i < |ks| ==> r[i] == if Ready(ps[i]) then 0 else ks[i]
  {
    seq(|ks|, i requires 0 <= i < |ks| => if Ready(ps[i]) then 0 else ks[i])
  }

  /** mlfq_tick's charge to the running process: at the end of a slice it drops a level. */
  function Charge(p: Proc): Proc {
    if p.used + 1 < p.timeslice then p.(used := p.used + 1)
    else if p.priority < LOW then
      p.(priority := p.priority + 1, timeslice := Timeslice(p.priority + 1), used := 0, state := Runnable)
    else p.(used := 0, state := Runnable)
  }

  /** init_mlfq_proc on a slot that allocproc takes. */
  function Fresh(): Proc {
    Proc(Used, 0, HIGH, Timeslice(HIGH), 0)
  }

  // ---- Steps ----

  datatype Event =
    | Allocate(i: nat)
    | Start(i: nat)
    | Dispatch(i: nat)
    | Timer
    | Yield
    | Sleep(chan: nat)
    | Wakeup(chan: nat)
    | Kill(i: nat)
    | Exit
    | TimerExit
    | Reap(i: nat)

  /** scheduler's choice: the lowest level, and in it the lowest slot. */
  predicate Chosen(ps: seq<Proc>, i: nat) {
    && i < |ps| && ps[i].state == Runnable
    && forall j :: 0 <= j < |ps| && ps[j].state == Runnable ==>
         ps[i].priority < ps[j].priority || (ps[i].priority == ps[j].priority && i <= j)
  }

  function Wake(p: Proc, chan: nat): Proc {
    if p.state == Sleeping && p.chan == chan then p.(state := Runnable) else p
  }

  function WakeAll(ps: seq<Proc>, chan: nat, except: nat): (r: seq<Proc>)
    ensures |r| == |ps|
    ensures forall i :: 0 <= i < |ps| ==> r[i] == if i == except then ps[i] else Wake(ps[i], chan)
  {
    seq(|ps|, i requires 0 <= i < |ps| => if i == except then ps[i] else Wake(ps[i], chan))
  }

  /** clockintr's mlfq_tick. */
  function Ticked(m: Machine): Machine
    requires |m.procs| == |m.charged|
  {
    var boost := m.counter + 1 >= STARVATION_THRESHOLD;
    var ps := if boost then BoostAll(m.procs) else m.procs;
    var ks := if boost then ResetReady(m.procs, m.charged) else m.charged;
    var counter := if boost then 0 else m.counter + 1;
    if m.current < |ps| && ps[m.current].state == Running then
      Machine(ps[m.current := Charge(ps[m.current])], counter, m.current, ks[m.current := ks[m.current] + 1])
    else Machine(ps, counter, m.current, ks)
  }

  /** yield, back to the scheduler. */
  function Yielded(m: Machine): Machine {
    if m.current < |m.procs| then
      m.(procs := m.procs[m.current := m.procs[m.current].(state := Runnable)], current := NONE)
    else m
  }

  /** kexit, back to the scheduler. */
  function Exited(m: Machine): Machine
    requires m.current < |m.procs|
  {
    m.(procs := m.procs[m.current := m.procs[m.current].(state := Zombie)], current := NONE)
  }

  /** allocproc takes slot `i`. */
  function Taken(m: Machine, i: nat): Machine
    requires i < |m.procs| == |m.charged|
  {
    m.(procs := m.procs[i := Fresh()], charged := m.charged[i := 0])
  }

  /** TimerExit is a timer interrupt from user space that finds the process killed. Reap is freeproc,
      of a zombie or of a process that could not be completed. */
  ghost predicate Step(m: Machine, e: Event, t: Machine) {
    && |m.procs| == |m.charged| == NPROC
    && match e
       case Allocate(i) =>
         && i < NPROC && m.procs[i].state == Unused
         && t == Taken(m, i)
       case Start(i) =>
         && i < NPROC && m.procs[i].state == Used
         && t == m.(procs := m.procs[i := m.procs[i].(state := Runnable)])
       case Dispatch(i) =>
         && m.current == NONE && Chosen(m.procs, i)
         && t == m.(procs := m.procs[i := m.procs[i].(state := Running)], current := i)
       case Timer => t == Yielded(Ticked(m))
       case Yield => m.current < NPROC && t == Yielded(m)
       case Sleep(chan) =>
         && m.current < NPROC
         && t == m.(procs := m.procs[m.current := m.procs[m.current].(state := Sleeping, chan := chan)],
                    current := NONE)
       case Wakeup(chan) => t == m.(procs := WakeAll(m.procs, chan, m.current))
       case Kill(i) =>
         && i < NPROC
         && t == if m.procs[i].state == Sleeping then m.(procs := m.procs[i := m.procs[i].(state := Runnable)]) else m
       case Exit => m.current < NPROC && t == Exited(m)
       case TimerExit => m.current < NPROC && t == Exited(Ticked(m))
       case Reap(i) =>
         && i < NPROC && m.procs[i].state in {Zombie, Used}
         && t == m.(procs := m.procs[i := m.procs[i].(state := Unused, chan := 0)])
  }

  ghost predicate Init(m: Machine) {
    && |m.procs| == |m.charged| == NPROC && m.counter == 0 && m.current == NONE
    && forall i :: 0 <= i < NPROC ==> m.procs[i].state == Unused
  }

  ghost predicate Next(m: Machine, t: Machine) {
    exists e :: Step(m, e, t)
  }

  ghost predicate Run(ms: seq<Machine>) {
    && |ms| > 0 && Init(ms[0])
    && forall k :: 0 <= k < |ms| - 1 ==> Next(ms[k], ms[k + 1])
  }

  // ---- Closed form ----

  /** The level after `k` charged ticks: 4 at the top, 8 in the middle, then the bottom. */
  function Level(k: nat): nat {
    if k < 4 then 0 else if k < 12 then 1 else 2
  }

  /** The part of the current slice used after `k` charged ticks. */
  function UsedOf(k: nat): nat {
    if k < 4 then k else if k < 12 then k - 4 else (k - 12) % 16
  }

  ghost predicate InForm(p: Proc, k: nat) {
    p.priority == Level(k) && p.used == UsedOf(k) && p.timeslice == Timeslice(Level(k))
  }

  ghost predicate ClosedForm(m: Machine) {
    && |m.procs| == |m.charged| == NPROC
    && m.current <= NPROC
    && m.counter < STARVATION_THRESHOLD
    && (forall i :: 0 <= i < NPROC && m.procs[i].state != Unused ==> InForm(m.procs[i], m.charged[i]))
    && (forall i :: 0 <= i < NPROC ==> (m.procs[i].state == Running <==> i == m.current))
  }

  lemma ChargeAdvances(p: Proc, k: nat)
    requires InForm(p, k)
    ensures InForm(Charge(p), k + 1)
    ensures Charge(p).state == if UsedOf(k + 1) == 0 then Runnable else p.state
  {
  }

  lemma StepKeepsForm(m: Machine, e: Event, t: Machine)
    requires ClosedForm(m) && Step(m, e, t)
    ensures ClosedForm(t)
  {
    if (e.Timer? || e.TimerExit?) && m.current < NPROC {
      var p := if m.counter + 1 >= STARVATION_THRESHOLD then Boost(m.procs[m.current]) else m.procs[m.current];
      ChargeAdvances(p, if m.counter + 1 >= STARVATION_THRESHOLD then 0 else m.charged[m.current]);
    }
  }

  /** In every run, however processes sleep, yield, wake or die, level, slice and used part are
      functions of the ticks charged since the last reset alone. */
  lemma {:induction false} RunKeepsForm(ms: seq<Machine>)
    requires Run(ms)
    ensures ClosedForm(ms[|ms| - 1])
  {
    if |ms| == 1 {
    } else {
      var n := |ms| - 1;
      RunKeepsForm(ms[..n]);
      assert Next(ms[n - 1], ms[n]);
      var e :| Step(ms[n - 1], e, ms[n]);
      StepKeepsForm(ms[n - 1], e, ms[n]);
    }
  }

  // ---- Bounded starvation ----

  /** Ticks charged to the slots of `r` below `n`. */
  function Total(ks: seq<nat>, r: set<nat>, n: nat): nat
    requires n <= |ks|
  {
    if n == 0 then 0 else Total(ks, r, n - 1) + if n - 1 in r then ks[n - 1] else 0
  }

  ghost function Size(r: set<nat>, n: nat): nat {
    if n == 0 then 0 else Size(r, n - 1) + if n - 1 in r then 1 else 0
  }

  lemma {:induction false} SizeIsCardinality(r: set<nat>, n: nat)
    requires forall i :: i in r ==> i < n
    ensures Size(r, n) == |r|
  {
    if n == 0 {
      assert r == {};
    } else if n - 1 in r {
      var s := r - {n - 1};
      SizeIsCardinality(s, n - 1);
      SameBelow(r, s, n - 1);
    } else {
      SizeIsCardinality(r, n - 1);
    }
  }

  lemma {:induction false} SameBelow(r: set<nat>, s: set<nat>, n: nat)
    requires forall i :: 0 <= i < n ==> (i in r <==> i in s)
    ensures Size(r, n) == Size(s, n)
  {
    if n == 0 {
    } else {
      SameBelow(r, s, n - 1);
    }
  }

  lemma {:induction false} TotalAfterCharge(ks: seq<nat>, r: set<nat>, n: nat, i: nat)
    requires n <= |ks| && i < |ks|
    ensures Total(ks[i := ks[i] + 1], r, n) == Total(ks, r, n) + if i < n && i in r then 1 else 0
  {
    if n == 0 {
    } else {
      TotalAfterCharge(ks, r, n - 1, i);
    }
  }

  lemma {:induction false} TotalOfZeros(ks: seq<nat>, r: set<nat>, n: nat)
    requires n <= |ks| && forall i :: 0 <= i < n && i in r ==> ks[i] == 0
    ensures Total(ks, r, n) == 0
  {
    if n == 0 {
    } else {
      TotalOfZeros(ks, r, n - 1);
    }
  }

  lemma {:induction false} TotalBounds(ks: seq<nat>, r: set<nat>, n: nat)
    requires n <= |ks|
    ensures (forall i :: 0 <= i < n && i in r ==> ks[i] >= 4) ==> Total(ks, r, n) >= 4 * Size(r, n)
    ensures (forall i :: 0 <= i < n && i in r ==> ks[i] <= 4) ==> Total(ks, r, n) <= 4 * Size(r, n)
    ensures (forall i :: 0 <= i < n && i in r ==> ks[i] <= 4) && (exists i :: 0 <= i < n && i in r && ks[i] < 4) ==>
              Total(ks, r, n) < 4 * Size(r, n)
  {
    if n == 0 {
    } else {
      TotalBounds(ks, r, n - 1);
    }
  }

  /** Exactly the slots of `r` compete. */
  ghost predicate Competing(m: Machine, r: set<nat>) {
    && ClosedForm(m)
    && (forall i :: i in r ==> i < NPROC)
    && forall i: nat :: i < NPROC ==> (i in r <==> Ready(m.procs[i]))
  }

  /** `total` ticks have been charged since the boost, and nobody has had a fifth while somebody
      still lacks its fourth. */
  ghost predicate FourthsFirst(m: Machine, r: set<nat>, total: nat) {
    && Competing(m, r) && m.current == NONE
    && m.counter + 1 == total
    && Total(m.charged, r, NPROC) == total
    && ((exists i :: i in r && m.charged[i] < 4) ==> forall i :: i in r ==> m.charged[i] <= 4)
  }

  /** A round: the scheduler's choice runs until the next timer interrupt. */
  ghost predicate Round(m: Machine, t: Machine) {
    exists i: nat, mid :: Step(m, Dispatch(i), mid) && Step(mid, Timer, t)
  }

  lemma BoostStarts(m: Machine, r: set<nat>, t: Machine)
    requires Competing(m, r) && m.current in r && m.counter + 1 == STARVATION_THRESHOLD && Step(m, Timer, t)
    ensures FourthsFirst(t, r, 1)
  {
    StepKeepsForm(m, Timer, t);
    var ks := ResetReady(m.procs, m.charged);
    TotalOfZeros(ks, r, NPROC);
    TotalAfterCharge(ks, r, NPROC, m.current);
  }

  lemma RoundKeepsFourthsFirst(m: Machine, r: set<nat>, total: nat, t: Machine)
    requires FourthsFirst(m, r, total) && total < STARVATION_THRESHOLD && Round(m, t)
    ensures FourthsFirst(t, r, total + 1)
  {
    var i := RoundCharges(m, r, t);
    hide Competing, Total;
    TotalAfterCharge(m.charged, r, NPROC, i);
  }

  /** A round charges one tick, and to a process that lacks its fourth while there is one. */
  lemma RoundCharges(m: Machine, r: set<nat>, t: Machine) returns (i: nat)
    requires Competing(m, r) && m.current == NONE && m.counter + 1 < STARVATION_THRESHOLD && Round(m, t)
    ensures i in r && i < NPROC == |m.charged| && Competing(t, r)
    ensures t.current == NONE && t.counter == m.counter + 1 && t.charged == m.charged[i := m.charged[i] + 1]
    ensures (exists j :: j in r && j < NPROC && m.charged[j] < 4) ==> m.charged[i] < 4
  {
    var mid;
    i, mid :| Step(m, Dispatch(i), mid) && Step(mid, Timer, t);
    StepKeepsForm(m, Dispatch(i), mid);
    StepKeepsForm(mid, Timer, t);
    forall j | j in r && m.charged[j] < 4
      ensures m.charged[i] < 4
    {
      assert m.procs[j].state == Runnable;
    }
  }

  /** Everybody has had four ticks exactly when there were enough to go round. */
  lemma ServedWhenEnough(m: Machine, r: set<nat>, total: nat)
    requires FourthsFirst(m, r, total)
    ensures (forall i :: i in r ==> m.charged[i] >= 4) <==> 4 * |r| <= total
  {
    SizeIsCardinality(r, NPROC);
    TotalBounds(m.charged, r, NPROC);
  }

  /** The time between two boosts on a busy hart: the boosting tick, then rounds until the next
      one is due. */
  ghost predicate Period(before: Machine, ms: seq<Machine>, r: set<nat>) {
    && Competing(before, r) && before.current in r
    && before.counter + 1 == STARVATION_THRESHOLD
    && |ms| == STARVATION_THRESHOLD
    && Step(before, Timer, ms[0])
    && forall j :: 0 <= j < |ms| - 1 ==> Round(ms[j], ms[j + 1])
  }

  lemma {:induction false} PeriodKeepsFourthsFirst(before: Machine, ms: seq<Machine>, r: set<nat>, j: nat)
    requires Period(before, ms, r) && j < |ms|
    ensures FourthsFirst(ms[j], r, j + 1)
  {
    if j == 0 {
      BoostStarts(before, r, ms[0]);
    } else {
      PeriodKeepsFourthsFirst(before, ms, r, j - 1);
      assert Round(ms[j - 1], ms[j]);
      RoundKeepsFourthsFirst(ms[j - 1], r, j, ms[j]);
    }
  }

  /** Between consecutive boosts every one of n processes that never sleep is charged at least
      four ticks if, and only if, n <= 50. */
  lemma NoStarvationUpTo50(before: Machine, ms: seq<Machine>, r: set<nat>)
    requires Period(before, ms, r)
    ensures ms[|ms| - 1].counter + 1 == STARVATION_THRESHOLD && |ms[|ms| - 1].charged| == NPROC
    ensures (forall i :: i in r ==> i < NPROC && ms[|ms| - 1].charged[i] >= 4) <==> |r| <= 50
  {
    PeriodKeepsFourthsFirst(before, ms, r, |ms| - 1);
    ServedWhenEnough(ms[|ms| - 1], r, STARVATION_THRESHOLD);
  }

  // ---- Such periods exist, for every number of processes ----

  /** Among the first `n` slots the scheduler's order has a least runnable one. */
  lemma {:induction false} SomeoneChosen(ps: seq<Proc>, n: nat) returns (i: nat)
    requires n <= |ps| && exists j :: 0 <= j < n && ps[j].state == Runnable
    ensures i < n && Chosen(ps[..n], i)
  {
    var k := n - 1;
    if j :| 0 <= j < k && ps[j].state == Runnable {
      assert ps[..n][..k] == ps[..k];
      i := SomeoneChosen(ps, k);
      assert forall x :: 0 <= x < k ==> ps[..k][x] == ps[..n][x];
      if ps[k].state == Runnable && ps[k].priority < ps[i].priority {
        i := k;
      }
    } else {
      i := k;
    }
  }

  lemma RoundExists(m: Machine, r: set<nat>, total: nat) returns (t: Machine)
    requires FourthsFirst(m, r, total) && r != {}
    ensures Round(m, t)
  {
    var j :| j in r;
    assert m.procs[j].state == Runnable;
    assert m.procs[..NPROC] == m.procs;
    var i := SomeoneChosen(m.procs, NPROC);
    var mid := m.(procs := m.procs[i := m.procs[i].(state := Running)], current := i);
    t := Yielded(Ticked(mid));
    assert Step(m, Dispatch(i), mid) && Step(mid, Timer, t);
  }

  /** From a boosting tick on, `n` machines one round apart. */
  lemma {:induction false} Rounds(before: Machine, r: set<nat>, n: nat) returns (ms: seq<Machine>)
    requires Competing(before, r) && before.current in r && before.counter + 1 == STARVATION_THRESHOLD
    requires 0 < n <= STARVATION_THRESHOLD
    ensures |ms| == n && Step(before, Timer, ms[0]) && FourthsFirst(ms[n - 1], r, n)
    ensures forall j :: 0 <= j < n - 1 ==> Round(ms[j], ms[j + 1])
  {
    hide Round, FourthsFirst, Step;
    if n == 1 {
      var t := Yielded(Ticked(before));
      assert Step(before, Timer, t) by { TimerStep(before, t); }
      BoostStarts(before, r, t);
      ms := [t];
    } else {
      var init := Rounds(before, r, n - 1);
      var t := RoundExists(init[n - 2], r, n - 1);
      RoundKeepsFourthsFirst(init[n - 2], r, n - 1, t);
      ms := init + [t];
    }
  }

  lemma TimerStep(m: Machine, t: Machine)
    requires ClosedForm(m) && t == Yielded(Ticked(m))
    ensures Step(m, Timer, t)
  {
  }

  /** Every busy hart whose next tick boosts has a period ahead of it. */
  lemma PeriodExists(before: Machine, r: set<nat>) returns (ms: seq<Machine>)
    requires Competing(before, r) && before.current in r && before.counter + 1 == STARVATION_THRESHOLD
    ensures Period(before, ms, r)
  {
    ms := Rounds(before, r, STARVATION_THRESHOLD);
  }

  // ---- ... and are reached ----

  lemma RunOn(ms: seq<Machine>, e: Event, t: Machine)
    requires Run(ms) && Step(ms[|ms| - 1], e, t)
    ensures Run(ms + [t])
  {
    assert Next(ms[|ms| - 1], t);
  }

  /** `n` fresh runnable processes, nobody running, `k` ticks since boot. */
  ghost predicate Waiting(m: Machine, n: nat, k: nat) {
    && |m.procs| == |m.charged| == NPROC && m.current == NONE && m.counter == k
    && forall i :: 0 <= i < NPROC ==>
         if i < n then m.procs[i] == Fresh().(state := Runnable) else m.procs[i].state == Unused
  }

  lemma {:induction false} Populate(n: nat) returns (ms: seq<Machine>)
    requires n <= NPROC
    ensures Run(ms) && Waiting(ms[|ms| - 1], n, 0)
  {
    if n == 0 {
      var m := Machine(seq(NPROC, _ => Proc(Unused, 0, 0, 0, 0)), 0, NONE, seq(NPROC, _ => 0));
      ms := [m];
    } else {
      var init := Populate(n - 1);
      var m, i := init[|init| - 1], n - 1;
      var a := m.(procs := m.procs[i := Fresh()], charged := m.charged[i := 0]);
      RunOn(init, Allocate(i), a);
      var b := a.(procs := a.procs[i := a.procs[i].(state := Runnable)]);
      RunOn(init + [a], Start(i), b);
      ms := init + [a] + [b];
    }
  }

  lemma {:induction false} IdleTicks(n: nat, k: nat) returns (ms: seq<Machine>)
    requires n <= NPROC && k < STARVATION_THRESHOLD
    ensures Run(ms) && Waiting(ms[|ms| - 1], n, k)
  {
    if k == 0 {
      ms := Populate(n);
    } else {
      var init := IdleTicks(n, k - 1);
      var t := Yielded(Ticked(init[|init| - 1]));
      RunOn(init, Timer, t);
      ms := init + [t];
    }
  }


  /** For every number of processes the machine reaches, from boot, a state whose next tick boosts
      while they all compete, and lives through the period after it. */
  lemma PeriodIsReached(n: nat) returns (run: seq<Machine>, ms: seq<Machine>)
    requires 0 < n <= NPROC
    ensures Run(run) && Period(run[|run| - 1], ms, Indices(n))
  {
    var init := IdleTicks(n, STARVATION_THRESHOLD - 1);
    var m := init[|init| - 1];
    var t := m.(procs := m.procs[0 := m.procs[0].(state := Running)], current := 0);
    assert Step(m, Dispatch(0), t);
    RunOn(init, Dispatch(0), t);
    run := init + [t];
    RunKeepsForm(run);
    ms := PeriodExists(t, Indices(n));
  }

  /** With 51 processes somebody gets fewer than four ticks between two boosts. */
  lemma FiftyOneStarve() returns (run: seq<Machine>, ms: seq<Machine>, i: nat)
    ensures Run(run) && Period(run[|run| - 1], ms, Indices(51))
    ensures i < 51 && i < |ms[|ms| - 1].charged| && ms[|ms| - 1].charged[i] < 4
  {
    hide Period, Run;
    run, ms := PeriodIsReached(51);
    NoStarvationUpTo50(run[|run| - 1], ms, Indices(51));
    i :| i in Indices(51) && ms[|ms| - 1].charged[i] < 4;
  }

  // ---- The life of a process ----

  /** What each event does to the state of process `i`. A process sleeps until it is killed or its
      channel is woken up, and no longer; nothing but freeproc touches a zombie. */
  lemma Lifecycle(m: Machine, e: Event, t: Machine, i: nat)
    requires ClosedForm(m) && Step(m, e, t) && i < NPROC
    ensures |t.procs| == NPROC
    ensures t.procs[i].state ==
            match m.procs[i].state
            case Unused => if e == Allocate(i) then Used else Unused
            case Used => if e == Start(i) then Runnable else if e == Reap(i) then Unused else Used
            case Runnable => if e == Dispatch(i) then Running else Runnable
            case Running =>
              if e.Timer? || e.Yield? then Runnable
              else if e.Sleep? then Sleeping
              else if e.Exit? || e.TimerExit? then Zombie
              else Running
            case Sleeping => if e == Kill(i) || e == Wakeup(m.procs[i].chan) then Runnable else Sleeping
            case Zombie => if e == Reap(i) then Unused else Zombie
    ensures t.procs[i].chan ==
            if e.Sleep? && i == m.current then e.chan
            else if e == Allocate(i) || e == Reap(i) then 0
            else m.procs[i].chan
  {
    if e.Timer? || e.TimerExit? {
      TickedStates(m, i);
    }
  }

  lemma TickedStates(m: Machine, i: nat)
    requires |m.procs| == |m.charged| && i < |m.procs|
    ensures var t := Ticked(m);
            && |t.procs| == |m.procs| && t.current == m.current && t.procs[i].chan == m.procs[i].chan
            && (i != m.current || m.procs[i].state != Running ==> t.procs[i].state == m.procs[i].state)
  {
  }

  /** A process whose channel is woken up keeps its level and slice. */
  lemma WokenAsItSlept(m: Machine, e: Event, t: Machine, i: nat)
    requires ClosedForm(m) && Step(m, e, t) && i < NPROC && m.procs[i].state == Sleeping
    ensures |t.procs| == NPROC && t.procs[i] == m.procs[i].(state := t.procs[i].state)
  {
    Lifecycle(m, e, t, i);
  }

  // ---- Whoever is woken can run ----

  ghost predicate Steps(ms: seq<Machine>) {
    |ms| > 0 && forall k :: 0 <= k < |ms| - 1 ==> Next(ms[k], ms[k + 1])
  }

  ghost function Runnables(m: Machine): set<nat> {
    set i: nat | i < |m.procs| && m.procs[i].state == Runnable
  }

  /** A runnable process can come to run: if others are ahead of it, they run and go to sleep. */
  lemma {:induction false} RunnableCanRun(m: Machine, i: nat) returns (ms: seq<Machine>)
    requires ClosedForm(m) && m.current == NONE && i < NPROC && m.procs[i].state == Runnable
    ensures Steps(ms) && ms[0] == m && ms[|ms| - 1].current == i
    decreases |Runnables(m)|
  {
    assert m.procs[..NPROC] == m.procs;
    var j := SomeoneChosen(m.procs, NPROC);
    var d := m.(procs := m.procs[j := m.procs[j].(state := Running)], current := j);
    assert Step(m, Dispatch(j), d);
    StepKeepsForm(m, Dispatch(j), d);
    if j == i {
      ms := [m, d];
    } else {
      var t := d.(procs := d.procs[j := d.procs[j].(state := Sleeping, chan := 0)], current := NONE);
      assert Step(d, Sleep(0), t);
      StepKeepsForm(d, Sleep(0), t);
      assert Runnables(t) == Runnables(m) - {j};
      var rest := RunnableCanRun(t, i);
      ms := [m, d] + rest;
      assert forall k :: 0 <= k < |ms| - 1 ==> Next(ms[k], ms[k + 1]);
    }
  }

  /** Whoever sleeps on a channel can run after it is woken up. */
  lemma WokenCanRun(m: Machine, chan: nat, t: Machine, i: nat) returns (ms: seq<Machine>)
    requires ClosedForm(m) && Step(m, Wakeup(chan), t)
    requires i < NPROC && m.procs[i].state == Sleeping && m.procs[i].chan == chan
    ensures Steps(ms) && ms[0] == t && ms[|ms| - 1].current == i
  {
    StepKeepsForm(m, Wakeup(chan), t);
    Lifecycle(m, Wakeup(chan), t, i);
    if t.current == NONE {
      ms := RunnableCanRun(t, i);
    } else {
      var u := Yielded(t);
      assert Step(t, Yield, u);
      StepKeepsForm(t, Yield, u);
      Lifecycle(t, Yield, u, i);
      var rest := RunnableCanRun(u, i);
      ms := [t] + rest;
      assert Next(t, u);
    }
  }
}
