/** The scheduler code of kernel/proc.c in its own form: loops over the process table that update
    it in place. Each method takes one step of the machine in Mlfq. */
module HartScheduler {
  import opened Mlfq

  class Hart {
    var procs: seq<Proc>
    var counter: nat
    var current: nat
    ghost var charged: seq<nat>

    ghost function View(): Machine
      reads this
    {
      Machine(procs, counter, current, charged)
    }

    ghost predicate Valid()
      reads this
    {
      ClosedForm(View())
    }

    /** procinit */
    constructor ()
      ensures Init(View()) && Valid()
    {
      procs := seq(NPROC, _ => Proc(Unused, 0, 0, 0, 0));
      counter, current, charged := 0, NONE, seq(NPROC, _ => 0);
    }

    method BoostAllPriorities()
      requires |procs| == |charged|
      modifies this`procs, this`charged
      ensures procs == BoostAll(old(procs)) && charged == ResetReady(old(procs), old(charged))
      ensures forall i :: 0 <= i < |procs| ==>
                procs[i] == if old(procs)[i].state == Runnable || old(procs)[i].state == Running
                            then old(procs)[i].(priority := 0, timeslice := 4, used := 0) else old(procs)[i]
    {
      var p := 0;
      while p < |procs|
        invariant 0 <= p <= |procs| == |charged| == |old(procs)|
        invariant forall i :: 0 <= i < p ==>
                    procs[i] == Boost(old(procs)[i]) &&
                    charged[i] == if Ready(old(procs)[i]) then 0 else old(charged)[i]
        invariant forall i :: p <= i < |procs| ==> procs[i] == old(procs)[i] && charged[i] == old(charged)[i]
      {
        if procs[p].state == Runnable || procs[p].state == Running {
          procs := procs[p := procs[p].(priority := HIGH, timeslice := Timeslice(HIGH), used := 0)];
          charged := charged[p := 0];
        }
        p := p + 1;
      }
    }

    /** The counter wraps at the two hundredth tick, which boosts everybody who is ready. The running
        process is charged one tick, and at the end of its slice it drops a level. */
    method MlfqTick()
      requires Valid()
      modifies this
      ensures View() == Ticked(old(View()))
      ensures counter == (old(counter) + 1) % 200 && current == old(current) && |procs| == NPROC
      ensures forall i :: 0 <= i < NPROC && i != current ==>
                procs[i] == if counter == 0 && old(procs)[i].state == Runnable
                            then old(procs)[i].(priority := 0, timeslice := 4, used := 0) else old(procs)[i]
      ensures current < NPROC ==>
                var p, q := old(procs)[current], procs[current];
                var used, slice := if counter == 0 then 0 else p.used, if counter == 0 then 4 else p.timeslice;
                var level := if counter == 0 then 0 else p.priority;
                if used + 1 < slice then q == Proc(Running, p.chan, level, slice, used + 1)
                else q == Proc(Runnable, p.chan, if level < 2 then level + 1 else 2, if level == 0 then 8 else 16, 0)
    {
      counter := counter + 1;
      if counter >= STARVATION_THRESHOLD {
        BoostAllPriorities();
        counter := 0;
      }
      if current != NONE && procs[current].state == Running {
        var p := procs[current];
        p := p.(used := p.used + 1);
        charged := charged[current := charged[current] + 1];
        if p.used >= p.timeslice {
          if p.priority < LOW {
            p := p.(priority := p.priority + 1);
            p := p.(timeslice := Timeslice(p.priority));
          }
          p := p.(used := 0);
          p := p.(state := Runnable);
        }
        procs := procs[current := p];
      }
    }

    /** A timer interrupt: clockintr's charge, then the trap handler's yield, or its kexit when the
        process is found killed on its way back to user space. */
    method TimerInterrupt(killed: bool)
      requires Valid()
      modifies this
      ensures Step(old(View()), if killed && old(current) != NONE then TimerExit else Timer, View()) && Valid()
    {
      ghost var m := View();
      if killed && current != NONE {
        StepKeepsForm(m, TimerExit, Exited(Ticked(m)));
        MlfqTick();
        procs := procs[current := procs[current].(state := Zombie)];
        current := NONE;
        assert View() == Exited(Ticked(m));
        return;
      }
      StepKeepsForm(m, Timer, Yielded(Ticked(m)));
      MlfqTick();
      if current != NONE {
        YieldCpu();
      }
    }

    method YieldCpu()
      requires current < |procs|
      modifies this`procs, this`current
      ensures View() == Yielded(old(View()))
      ensures procs == old(procs)[old(current) := old(procs)[old(current)].(state := Runnable)] && current == NONE
    {
      procs := procs[current := procs[current].(state := Runnable)];
      current := NONE;
    }

    /** scheduler's search, level by level and slot by slot; false when nothing is runnable. */
    method PickAndRun() returns (found: bool)
      requires Valid() && current == NONE
      modifies this`procs, this`current
      ensures Valid()
      ensures found ==> current < NPROC && Step(old(View()), Dispatch(current), View())
      ensures found <==> exists i :: 0 <= i < NPROC && old(procs)[i].state == Runnable
      ensures !found ==> View() == old(View())
      ensures found ==> procs == old(procs)[current := old(procs)[current].(state := Running)]
      ensures found ==> old(procs)[current].state == Runnable
      ensures found ==> forall j :: 0 <= j < NPROC && j != current && old(procs)[j].state == Runnable ==>
                old(procs)[current].priority < old(procs)[j].priority ||
                (old(procs)[current].priority == old(procs)[j].priority && current < j)
    {
      LevelsInRange();
      var priority := HIGH;
      while priority <= LOW
        invariant HIGH <= priority <= LOW + 1
        invariant View() == old(View())
        invariant forall i :: 0 <= i < NPROC && procs[i].state == Runnable ==> procs[i].priority >= priority
      {
        var p := 0;
        while p < NPROC
          invariant 0 <= p <= NPROC
          invariant View() == old(View())
          invariant forall i :: 0 <= i < NPROC && procs[i].state == Runnable ==>
                      procs[i].priority > priority || (procs[i].priority == priority && i >= p)
        {
          if procs[p].state == Runnable && procs[p].priority == priority {
            assert Chosen(procs, p);
            procs := procs[p := procs[p].(state := Running)];
            current := p;
            assert Step(old(View()), Dispatch(p), View());
            StepKeepsForm(old(View()), Dispatch(p), View());
            return true;
          }
          p := p + 1;
        }
        priority := priority + 1;
      }
      found := false;
    }

    lemma LevelsInRange()
      requires Valid()
      ensures forall i :: 0 <= i < NPROC && procs[i].state == Runnable ==> HIGH <= procs[i].priority <= LOW
    {
    }

    method SleepOn(chan: nat)
      requires Valid() && current != NONE
      modifies this`procs, this`current
      ensures Step(old(View()), Sleep(chan), View()) && Valid()
      ensures procs == old(procs)[old(current) := old(procs)[old(current)].(state := Sleeping, chan := chan)]
      ensures current == NONE
    {
      procs := procs[current := procs[current].(chan := chan)];
      procs := procs[current := procs[current].(state := Sleeping)];
      current := NONE;
      StepKeepsForm(old(View()), Sleep(chan), View());
    }

    /** Afterwards nobody sleeps on the channel: who did is runnable, as it was otherwise, and nobody
        else is touched. */
    method WakeupOn(chan: nat)
      requires Valid()
      modifies this`procs
      ensures Step(old(View()), Wakeup(chan), View()) && Valid()
      ensures forall i :: 0 <= i < NPROC ==> !(procs[i].state == Sleeping && procs[i].chan == chan)
      ensures forall i :: 0 <= i < NPROC && old(procs)[i].state == Sleeping && old(procs)[i].chan == chan ==>
                procs[i] == old(procs)[i].(state := Runnable)
      ensures forall i :: 0 <= i < NPROC && !(old(procs)[i].state == Sleeping && old(procs)[i].chan == chan) ==>
                procs[i] == old(procs)[i]
    {
      var p := 0;
      while p < NPROC
        invariant 0 <= p <= NPROC && |procs| == NPROC
        invariant forall i :: 0 <= i < p ==>
                    procs[i] == if i == current then old(procs)[i] else Wake(old(procs)[i], chan)
        invariant forall i :: p <= i < NPROC ==> procs[i] == old(procs)[i]
      {
        if p != current {
          if procs[p].state == Sleeping && procs[p].chan == chan {
            procs := procs[p := procs[p].(state := Runnable)];
          }
        }
        p := p + 1;
      }
      assert procs == WakeAll(old(procs), chan, current);
      StepKeepsForm(old(View()), Wakeup(chan), View());
    }

    /** kkill, once it has found the process: a sleeper is woken so that it can see it. */
    method KillSlot(i: nat)
      requires Valid() && i < NPROC
      modifies this`procs
      ensures Step(old(View()), Kill(i), View()) && Valid()
      ensures procs == old(procs)[i := old(procs)[i].(state := procs[i].state)]
      ensures procs[i].state == if old(procs)[i].state == Sleeping then Runnable else old(procs)[i].state
    {
      ghost var m := View();
      if procs[i].state == Sleeping {
        procs := procs[i := procs[i].(state := Runnable)];
      }
      assert old(procs)[i := old(procs)[i]] == old(procs);
      StepKeepsForm(m, Kill(i), View());
    }

    /** The end of kexit: the process becomes a zombie and the hart goes back to the scheduler. */
    method ExitCurrent()
      requires Valid() && current != NONE
      modifies this`procs, this`current
      ensures Step(old(View()), Exit, View()) && Valid()
      ensures procs == old(procs)[old(current) := old(procs)[old(current)].(state := Zombie)] && current == NONE
    {
      ghost var m := View();
      procs := procs[current := procs[current].(state := Zombie)];
      current := NONE;
      StepKeepsForm(m, Exit, View());
    }

    /** allocproc's search and init_mlfq_proc; false when the table is full, or when there is no memory
        for the process, which then gives its slot back. */
    method AllocProc(memory: bool) returns (found: bool, slot: nat)
      requires Valid()
      modifies this`procs, this`charged
      ensures Valid()
      ensures found ==> slot < NPROC && Step(old(View()), Allocate(slot), View())
      ensures found ==> procs == old(procs)[slot := Proc(Used, 0, 0, 4, 0)]
      ensures found ==> old(procs)[slot].state == Unused && forall i :: 0 <= i < slot ==> old(procs)[i].state != Unused
      ensures found <==> memory && exists i :: 0 <= i < NPROC && old(procs)[i].state == Unused
      ensures !found && slot == NPROC ==> View() == old(View())
      ensures !found && slot != NPROC ==>
                && !memory && slot < NPROC && Step(old(View()), Allocate(slot), Taken(old(View()), slot))
                && Step(Taken(old(View()), slot), Reap(slot), View())
    {
      slot := 0;
      while slot < NPROC
        invariant 0 <= slot <= NPROC
        invariant forall i :: 0 <= i < slot ==> procs[i].state != Unused
        invariant View() == old(View())
      {
        if procs[slot].state == Unused {
          procs := procs[slot := Fresh()];
          charged := charged[slot := 0];
          StepKeepsForm(old(View()), Allocate(slot), View());
          if !memory {
            ghost var m := View();
            procs := procs[slot := procs[slot].(state := Unused, chan := 0)];
            StepKeepsForm(m, Reap(slot), View());
            return false, slot;
          }
          return true, slot;
        }
        slot := slot + 1;
      }
      found := false;
    }
  }
}
