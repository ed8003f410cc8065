/** Pipes (kernel/pipe.c) as a state machine. Every step is one stretch of pipewrite, piperead or
    pipeclose under the pipe's lock, from acquiring it or waking up to sleeping or returning. */
module PipeQueue {
  import opened Blocks

  const PIPESIZE := 512
  const WRAP := 0x1_0000_0000

  /** The pipe, then bookkeeping: all bytes ever accepted and delivered, and the processes
      asleep on &nread and on &nwrite. */
  datatype Pipe = Pipe(
    data: seq<byte>, nread: nat, nwrite: nat, readopen: bool, writeopen: bool,
    accepted: seq<byte>, delivered: seq<byte>, readers: set<nat>, writers: set<nat>)

  function Pending(p: Pipe): int { |p.accepted| - |p.delivered| }

  /** Delivered bytes are a prefix of accepted ones, and the ring holds exactly the rest. */
  ghost predicate Inv(p: Pipe) {
    && |p.data| == PIPESIZE
    && p.delivered <= p.accepted && Pending(p) <= PIPESIZE
    && p.nread == |p.delivered| % WRAP && p.nwrite == |p.accepted| % WRAP
    && forall k :: |p.delivered| <= k < |p.accepted| ==> p.data[k % PIPESIZE] == p.accepted[k]
  }

  predicate Full(p: Pipe) { p.nwrite == (p.nread + PIPESIZE) % WRAP }

  predicate Empty(p: Pipe) { p.nread == p.nwrite }

  /** The tests on 32-bit counters are exact, also after they wrapped. */
  lemma CountersAreExact(p: Pipe)
    requires Inv(p)
    ensures Full(p) <==> Pending(p) == PIPESIZE
    ensures Empty(p) <==> Pending(p) == 0
  {
    WrappedDifference(|p.delivered|, Pending(p));
  }

  lemma WrappedDifference(r: nat, d: nat)
    requires d <= PIPESIZE
    ensures (r + d) % WRAP == r % WRAP <==> d == 0
    ensures (r + d) % WRAP == (r % WRAP + PIPESIZE) % WRAP <==> d == PIPESIZE
  {
  }

  // ---- One byte ----

  function Push(p: Pipe, b: byte): Pipe
    requires |p.data| == PIPESIZE
  {
    p.(data := p.data[p.nwrite % PIPESIZE := b], nwrite := (p.nwrite + 1) % WRAP, accepted := p.accepted + [b])
  }

  function Pop(p: Pipe): Pipe
    requires |p.data| == PIPESIZE
  {
    p.(nread := (p.nread + 1) % WRAP, delivered := p.delivered + [p.data[p.nread % PIPESIZE]])
  }

  lemma Slot(n: nat)
    ensures n % WRAP % PIPESIZE == n % PIPESIZE && (n % WRAP + 1) % WRAP == (n + 1) % WRAP
  {
    var q, r := n / WRAP, n % WRAP;
    assert n == r + PIPESIZE * (8388608 * q);
    SlotOfMultiple(r, 8388608 * q);
  }

  lemma SlotOfMultiple(r: nat, k: nat)
    ensures (r + PIPESIZE * k) % PIPESIZE == r % PIPESIZE
  {
  }

  lemma SlotsDiffer(k: nat, n: nat)
    requires k < n < k + PIPESIZE
    ensures k % PIPESIZE != n % PIPESIZE
  {
  }

  lemma PushKeepsInv(p: Pipe, b: byte)
    requires Inv(p) && !Full(p)
    ensures Inv(Push(p, b)) && Pending(Push(p, b)) == Pending(p) + 1
  {
    CountersAreExact(p);
    var n, q := |p.accepted|, Push(p, b);
    Slot(n);
    forall k | |q.delivered| <= k < |q.accepted| ensures q.data[k % PIPESIZE] == q.accepted[k] {
      if k < n {
        SlotsDiffer(k, n);
      }
    }
  }

  /** The byte taken out is the next one in the order of acceptance. */
  lemma PopKeepsInv(p: Pipe)
    requires Inv(p) && !Empty(p)
    ensures Inv(Pop(p)) && Pending(Pop(p)) == Pending(p) - 1
    ensures Pop(p).delivered == p.accepted[..|p.delivered| + 1]
  {
    CountersAreExact(p);
    Slot(|p.delivered|);
    var d := |p.delivered|;
    assert p.accepted[..d + 1] == p.accepted[..d] + [p.accepted[d]];
  }

  function Pushes(p: Pipe, bs: seq<byte>): (r: Pipe)
    requires |p.data| == PIPESIZE
    ensures |r.data| == PIPESIZE && r.accepted == p.accepted + bs &&
            r == p.(data := r.data, nwrite := r.nwrite, accepted := r.accepted)
  {
    if bs == [] then p else
      assert bs[..|bs| - 1] + [bs[|bs| - 1]] == bs;
      Push(Pushes(p, bs[..|bs| - 1]), bs[|bs| - 1])
  }

  function Pops(p: Pipe, n: nat): (r: Pipe)
    requires |p.data| == PIPESIZE
    ensures |r.data| == PIPESIZE && |r.delivered| == |p.delivered| + n &&
            r == p.(nread := r.nread, delivered := r.delivered)
  {
    if n == 0 then p else Pop(Pops(p, n - 1))
  }

  lemma {:induction false} PushesKeepInv(p: Pipe, bs: seq<byte>)
    requires Inv(p) && Pending(p) + |bs| <= PIPESIZE
    ensures Inv(Pushes(p, bs))
  {
    if bs == [] {
    } else {
      var n := |bs| - 1;
      PushesKeepInv(p, bs[..n]);
      var q := Pushes(p, bs[..n]);
      CountersAreExact(q);
      PushKeepsInv(q, bs[n]);
    }
  }

  lemma {:induction false} PopsKeepInv(p: Pipe, n: nat)
    requires Inv(p) && n <= Pending(p)
    ensures Inv(Pops(p, n)) && Pops(p, n).delivered == p.accepted[..|p.delivered| + n]
  {
    if n == 0 {
    } else {
      PopsKeepInv(p, n - 1);
      CountersAreExact(Pops(p, n - 1));
      PopKeepsInv(Pops(p, n - 1));
    }
  }

  // ---- Steps ----

  /** Slept, returned a count, or returned -1. */
  datatype Outcome = Slept | Returned | Failed

  /** pipewrite from byte `i` of `src` to byte `j`. Whether the process has been killed and
      whether copying byte `k` from its memory fails are up to the environment. */
  ghost predicate Writes(p: Pipe, q: Pipe, pr: nat, src: seq<byte>, i: nat, j: nat,
                         killed: nat -> bool, fault: nat -> bool, out: Outcome)
  {
    && |p.data| == PIPESIZE && i <= j <= |src| && Pending(p) + (j - i) <= PIPESIZE
    && (i < j ==> p.readopen) && (forall k :: i <= k < j ==> !killed(k) && !fault(k))
    && var r := Pushes(p, src[i..j]);
    match out
    case Failed => j < |src| && (!p.readopen || killed(j)) && q == r
    case Slept =>
      j < |src| && p.readopen && !killed(j) && Full(r) && q == r.(readers := {}, writers := r.writers + {pr})
    case Returned =>
      (j == |src| || (p.readopen && !killed(j) && !Full(r) && fault(j))) && q == r.(readers := {})
  }

  /** piperead of up to `n` bytes, of which `got` were taken. */
  ghost predicate Reads(p: Pipe, q: Pipe, pr: nat, n: nat, got: nat, killed: bool, fault: nat -> bool, out: Outcome) {
    |p.data| == PIPESIZE &&
    if Empty(p) && p.writeopen then
      got == 0 && if killed then out == Failed && q == p else out == Slept && q == p.(readers := p.readers + {pr})
    else
      && got <= n && got <= Pending(p) && (forall k :: 0 <= k < got ==> !fault(k))
      && (got == n || got == Pending(p) || fault(got))
      && out == (if got == 0 && n > 0 && Pending(p) > 0 then Failed else Returned)
      && q == Pops(p, got).(writers := {})
  }

  /** pipeclose of one end; no process is inside a call on that end, as its file is unreferenced. */
  function Closed(p: Pipe, writable: bool): Pipe {
    if writable then p.(writeopen := false, readers := {}) else p.(readopen := false, writers := {})
  }

  datatype Event =
    | Write(pr: nat, src: seq<byte>, i: nat, j: nat, killed: nat -> bool, fault: nat -> bool, out: Outcome)
    | Read(pr: nat, n: nat, got: nat, dead: bool, fault: nat -> bool, out: Outcome)
    | Close(writable: bool)
    | Kill(pr: nat)

  ghost predicate Step(p: Pipe, e: Event, q: Pipe) {
    match e
    case Write(pr, src, i, j, killed, fault, out) =>
      p.writeopen && Writes(p, q, pr, src, i, j, killed, fault, out)
    case Read(pr, n, got, dead, fault, out) => p.readopen && Reads(p, q, pr, n, got, dead, fault, out)
    case Close(w) => (if w then p.writeopen && p.writers == {} else p.readopen && p.readers == {}) && q == Closed(p, w)
    case Kill(pr) => q == p.(readers := p.readers - {pr}, writers := p.writers - {pr})
  }

  lemma StepKeepsInv(p: Pipe, e: Event, q: Pipe)
    requires Inv(p) && Step(p, e, q)
    ensures Inv(q)
  {
    CountersAreExact(p);
    match e
    case Write(_, src, i, j, _, _, _) => PushesKeepInv(p, src[i..j]);
    case Read(_, n, got, _, _, _) => if got <= Pending(p) { PopsKeepInv(p, got); }
    case Close(_) =>
    case Kill(_) =>
  }

  // ---- Sleepers ----

  /** A sleeping writer has a full pipe and an open reader before it; a sleeping reader an empty
      pipe and an open writer. */
  ghost predicate SleepOk(p: Pipe) {
    && (p.writers != {} ==> Full(p) && p.readopen)
    && (p.readers != {} ==> Empty(p) && p.writeopen)
  }

  /** A write that starts at byte `i` will put bytes before a sleeping reader and then see that its
      process has been killed, before anything else stops it. */
  ghost predicate WillStrand(p: Pipe, src: seq<byte>, i: nat, killed: nat -> bool, fault: nat -> bool) {
    && p.readers != {} && p.readopen
    && exists j: nat :: KilledAt(src, i, j, killed, fault)
  }

  ghost predicate KilledAt(src: seq<byte>, i: nat, j: nat, killed: nat -> bool, fault: nat -> bool) {
    && i < j < |src| && j - i <= PIPESIZE && killed(j)
    && forall k :: i <= k < j ==> !killed(k) && !fault(k)
  }

  ghost predicate Strands(p: Pipe, e: Event) {
    e.Write? && WillStrand(p, e.src, e.i, e.killed, e.fault)
  }

  /** Where such a write stops, and how. */
  lemma StrandingWrite(p: Pipe, q: Pipe, pr: nat, src: seq<byte>, i: nat, j: nat,
                       killed: nat -> bool, fault: nat -> bool, out: Outcome)
    requires Inv(p) && SleepOk(p) && p.readers != {} && Writes(p, q, pr, src, i, j, killed, fault, out)
    ensures WillStrand(p, src, i, killed, fault) <==> out == Failed && i < j
  {
    CountersAreExact(p);
    PushesKeepInv(p, src[i..j]);
    CountersAreExact(Pushes(p, src[i..j]));
    if WillStrand(p, src, i, killed, fault) {
      var n: nat :| KilledAt(src, i, n, killed, fault);
      assert j <= n;
    }
    if out == Failed && i < j {
      assert KilledAt(src, i, j, killed, fault);
    }
  }

  /** Among all steps, exactly a write whose process is found killed right after it put bytes
      before a sleeping reader leaves someone asleep in vain: that return skips the wakeup. */
  lemma SleepKeptIff(p: Pipe, e: Event, q: Pipe)
    requires Inv(p) && SleepOk(p) && Step(p, e, q)
    ensures SleepOk(q) <==> !Strands(p, e)
  {
    hide Writes, WillStrand;
    match e
    case Write(pr, src, i, j, killed, fault, out) => WriteSleepIff(p, q, pr, src, i, j, killed, fault, out);
    case Read(_, n, got, _, _, _) =>
      CountersAreExact(p);
      StepKeepsInv(p, e, q);
      CountersAreExact(q);
    case Close(_) =>
    case Kill(_) =>
  }

  lemma WriteSleepIff(p: Pipe, q: Pipe, pr: nat, src: seq<byte>, i: nat, j: nat,
                      killed: nat -> bool, fault: nat -> bool, out: Outcome)
    requires Inv(p) && SleepOk(p) && Writes(p, q, pr, src, i, j, killed, fault, out)
    ensures SleepOk(q) <==> !WillStrand(p, src, i, killed, fault)
  {
    CountersAreExact(p);
    PushesKeepInv(p, src[i..j]);
    CountersAreExact(Pushes(p, src[i..j]));
    if p.readers != {} {
      StrandingWrite(p, q, pr, src, i, j, killed, fault, out);
    }
    hide WillStrand;
    assert Pending(q) == Pending(p) + (j - i);
  }

  // ---- Runs ----

  ghost predicate Fresh(p: Pipe) {
    && |p.data| == PIPESIZE && p.nread == p.nwrite == 0 && p.readopen && p.writeopen
    && p.accepted == p.delivered == [] && p.readers == p.writers == {}
  }

  ghost predicate Run(ps: seq<Pipe>, es: seq<Event>) {
    && |ps| == |es| + 1 && Fresh(ps[0])
    && forall i :: 0 <= i < |es| ==> Step(ps[i], es[i], ps[i + 1])
  }

  /** Over every interleaving of readers, writers, closes and kills, what was delivered is in
      order a prefix of what was accepted, and at most 512 bytes are in between. */
  lemma {:induction false} Fifo(ps: seq<Pipe>, es: seq<Event>, i: nat)
    requires Run(ps, es) && i < |ps|
    ensures Inv(ps[i]) && ps[i].delivered <= ps[i].accepted && 0 <= Pending(ps[i]) <= PIPESIZE
    ensures (forall k :: 0 <= k < i ==> !Strands(ps[k], es[k])) ==> SleepOk(ps[i])
  {
    hide Step, Inv, SleepOk, Strands;
    if i > 0 {
      Fifo(ps, es, i - 1);
      StepKeepsInv(ps[i - 1], es[i - 1], ps[i]);
      if SleepOk(ps[i - 1]) {
        SleepKeptIff(ps[i - 1], es[i - 1], ps[i]);
      }
    } else {
      FreshOk(ps[0]);
    }
    Prefix(ps[i]);
  }

  lemma FreshOk(p: Pipe)
    requires Fresh(p)
    ensures Inv(p) && SleepOk(p)
  {
  }

  lemma Prefix(p: Pipe)
    requires Inv(p)
    ensures p.delivered <= p.accepted && 0 <= Pending(p) <= PIPESIZE
  {
  }

  // ---- The end of a pipe ----

  /** Closing one end clears its flag alone: no byte is lost and the other end stays as it is. */
  lemma CloseKeepsTheRest(p: Pipe, w: bool, q: Pipe)
    requires Step(p, Close(w), q)
    ensures q.data == p.data && q.nread == p.nread && q.nwrite == p.nwrite
    ensures q.accepted == p.accepted && q.delivered == p.delivered
    ensures q.writeopen == (p.writeopen && !w) && q.readopen == (p.readopen && w)
    ensures if w then q.readers == {} && q.writers == p.writers else q.writers == {} && q.readers == p.readers
  {
  }

  /** Steps from a state with a closed write end, with the reader staying and no fault in its memory. */
  ghost predicate Draining(ps: seq<Pipe>, es: seq<Event>) {
    && |ps| == |es| + 1 && Inv(ps[0]) && !ps[0].writeopen
    && (forall k :: 0 <= k < |es| ==> Step(ps[k], es[k], ps[k + 1]) && es[k] != Close(false))
    && forall k :: 0 <= k < |es| && es[k].Read? ==> forall j :: !es[k].fault(j)
  }

  function Wanted(es: seq<Event>): nat {
    if es == [] then 0 else Wanted(es[..|es| - 1]) + if es[|es| - 1].Read? then es[|es| - 1].n else 0
  }

  function Least(a: int, b: int): int { if a < b then a else b }

  /** One step of it: a read takes the next bytes, as many as it wants or there are, and returns their
      number; at the end that is 0. It never sleeps and never fails. */
  lemma DrainStep(p: Pipe, e: Event, q: Pipe)
    requires Inv(p) && !p.writeopen && Step(p, e, q) && e != Close(false)
    requires e.Read? ==> forall j :: !e.fault(j)
    ensures Inv(q) && !q.writeopen && q.accepted == p.accepted && q.readopen == p.readopen
    ensures e.Read? ==> e.out == Returned && e.got == Least(e.n, Pending(p))
    ensures q.delivered == p.accepted[..|p.delivered| + if e.Read? then Least(e.n, Pending(p)) else 0]
  {
    StepKeepsInv(p, e, q);
    CountersAreExact(p);
    match e
    case Write(_, _, _, _, _, _, _) =>
    case Read(_, n, got, _, _, _) => PopsKeepInv(p, got);
    case Close(_) =>
    case Kill(_) => assert p.accepted[..|p.delivered|] == p.delivered;
  }

  /** Once the write end is closed, whoever reads gets exactly the bytes still missing, in order, and
      after them 0 and never -1: nothing is lost, whatever else happens in between. */
  lemma {:induction false} AllIsDelivered(ps: seq<Pipe>, es: seq<Event>)
    requires Draining(ps, es)
    ensures var n, p := |es|, ps[0];
            && Inv(ps[n]) && !ps[n].writeopen && ps[n].readopen == p.readopen && ps[n].accepted == p.accepted
            && ps[n].delivered == p.accepted[..|p.delivered| + Least(Wanted(es), Pending(p))]
    ensures forall k :: 0 <= k < |es| && es[k].Read? ==>
              es[k].out == Returned && es[k].got == Least(es[k].n, Pending(ps[k]))
  {
    if es == [] {
      assert ps[0].accepted[..|ps[0].delivered|] == ps[0].delivered;
    } else {
      var n := |es| - 1;
      hide Step, Inv, Pending;
      assert Draining(ps[..n + 1], es[..n]);
      AllIsDelivered(ps[..n + 1], es[..n]);
      assert Step(ps[n], es[n], ps[n + 1]);
      DrainStep(ps[n], es[n], ps[n + 1]);
      forall k | 0 <= k < |es| && es[k].Read?
        ensures es[k].out == Returned && es[k].got == Least(es[k].n, Pending(ps[k]))
      {
        assert k < n ==> es[..n][k] == es[k] && ps[..n + 1][k] == ps[k];
      }
    }
  }

  /** Such a return is reachable: a reader sleeps, a writer puts one byte and is killed. */
  lemma AReaderCanBeStranded(p: Pipe)
    requires Fresh(p)
    ensures var killed, none := (k: nat) => k > 0, (k: nat) => false;
            var r := p.(readers := {1});
            var q := Pushes(r, [65]);
            && Run([p, r, q], [Read(1, 1, 0, false, none, Slept), Write(2, [65, 66], 0, 1, killed, none, Failed)])
            && !SleepOk(q) && q.readers != {} && Pending(q) == 1
  {
    var killed, none := (k: nat) => k > 0, (k: nat) => false;
    var r := p.(readers := {1});
    var q := Pushes(r, [65]);
    var src: seq<byte> := [65, 66];
    assert src[0..1] == [65];
    var e0, e1 := Read(1, 1, 0, false, none, Slept), Write(2, src, 0, 1, killed, none, Failed);
    FreshOk(p);
    assert KilledAt(src, 0, 1, killed, none);
    assert Step(p, e0, r);
    StepKeepsInv(p, e0, r);
    assert Step(r, e1, q);
    SleepKeptIff(p, e0, r);
    SleepKeptIff(r, e1, q);
  }
}
