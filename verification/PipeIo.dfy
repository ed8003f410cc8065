/** The code of kernel/pipe.c over its buffer, proved to take exactly the steps of PipeQueue. */
module PipeIo {
  import opened Blocks
  import opened PipeQueue

  class PipeBuffer {
    const data: array<byte>
    var nread: nat
    var nwrite: nat
    var readopen: bool
    var writeopen: bool
    var readers: set<nat>
    var writers: set<nat>
    ghost var accepted: seq<byte>
    ghost var delivered: seq<byte>

    ghost function View(): Pipe
      reads this, data
    {
      Pipe.Pipe(data[..], nread, nwrite, readopen, writeopen, accepted, delivered, readers, writers)
    }

    /** pipealloc. */
    constructor ()
      ensures Fresh(View()) && fresh(data)
    {
      data := new byte[PIPESIZE](_ => 0);
      nread, nwrite, readopen, writeopen := 0, 0, true, true;
      readers, writers, accepted, delivered := {}, {}, [], [];
    }

    method PutByte(ch: byte)
      requires Inv(View()) && !Full(View())
      modifies this`nwrite, this`accepted, data
      ensures View() == Push(old(View()), ch) && Inv(View()) && Pending(View()) == old(Pending(View())) + 1
    {
      hide Inv;
      ghost var p := View();
      FullTest(p);
      PushKeepsInv(p, ch);
      data[nwrite % PIPESIZE] := ch;
      nwrite := (nwrite + 1) % WRAP;
      accepted := accepted + [ch];
      assert View() == Push(p, ch);
    }

    method TakeByte() returns (ch: byte)
      requires Inv(View()) && !Empty(View())
      modifies this`nread, this`delivered
      ensures View() == Pop(old(View())) && Inv(View()) && Pending(View()) == old(Pending(View())) - 1
      ensures delivered == old(delivered) + [ch]
    {
      hide Inv;
      ghost var p := View();
      EmptyTest(p);
      PopKeepsInv(p);
      ch := data[nread % PIPESIZE];
      nread := (nread + 1) % WRAP;
      delivered := delivered + [ch];
    }

    /** pipewrite from byte `i` on, until it sleeps or returns. */
    method Write(pr: nat, src: seq<byte>, i: nat, killed: nat -> bool, fault: nat -> bool)
      returns (j: nat, out: Outcome)
      requires Inv(View()) && writeopen && i <= |src|
      modifies this, data
      ensures i <= j <= |src| && Step(old(View()), Event.Write(pr, src, i, j, killed, fault, out), View())
      ensures Inv(View())
      ensures old(SleepOk(View())) ==> (SleepOk(View()) <==> !WillStrand(old(View()), src, i, killed, fault))
      ensures accepted == old(accepted) + src[i..j] && delivered == old(delivered) && nread == old(nread)
      ensures readopen == old(readopen) && writeopen == old(writeopen)
      ensures forall k :: i <= k < j ==>
                old(readopen) && !killed(k) && !fault(k) && old(Pending(View())) + (k - i) < PIPESIZE
      ensures out == if j == |src| then Returned
                     else if !old(readopen) || killed(j) then Failed
                     else if old(Pending(View())) + (j - i) == PIPESIZE then Slept
                     else Returned
      ensures out == Returned && j < |src| ==> fault(j)
      ensures readers == (if out == Failed then old(readers) else {})
      ensures writers == if out == Slept then old(writers) + {pr} else old(writers)
    {
      hide Inv, Full, Step, Pushes, SleepOk, WillStrand;
      ghost var p := View();
      j := i;
      FullTest(p);
      assert src[i..i] == [];
      NoPushes(p);
      while j < |src|
        invariant i <= j <= |src| && |data[..]| == PIPESIZE && Inv(View()) && View() == Pushes(p, src[i..j])
        invariant (i < j ==> p.readopen) && forall k :: i <= k < j ==> !killed(k) && !fault(k)
        invariant Pending(p) + (j - i) <= PIPESIZE
      {
        if !readopen || killed(j) {
          out := Failed;
          WriteStep(p, View(), pr, src, i, j, killed, fault, out);
          return;
        }
        FullTest(View());
        if nwrite == (nread + PIPESIZE) % WRAP {
          readers, writers := {}, writers + {pr};
          out := Slept;
          WriteStep(p, View(), pr, src, i, j, killed, fault, out);
          return;
        }
        if fault(j) {
          break;
        }
        PutByte(src[j]);
        PushOne(p, src, i, j);
        j := j + 1;
      }
      readers := {};
      out := Returned;
      WriteStep(p, View(), pr, src, i, j, killed, fault, out);
    }

    /** piperead, until it sleeps or returns; `got` is what it copied out. */
    method Read(pr: nat, n: nat, dead: bool, fault: nat -> bool) returns (got: seq<byte>, out: Outcome)
      requires Inv(View()) && readopen
      modifies this
      ensures |got| <= n && Step(old(View()), Event.Read(pr, n, |got|, dead, fault, out), View())
      ensures Inv(View()) && delivered == old(delivered) + got
      ensures accepted == old(accepted) && nwrite == old(nwrite) && data[..] == old(data[..])
      ensures readopen == old(readopen) && writeopen == old(writeopen)
      ensures old(Pending(View()) == 0 && writeopen) ==>
                && got == [] && out == (if dead then Failed else Slept) && writers == old(writers)
                && readers == if dead then old(readers) else old(readers) + {pr}
      ensures !old(Pending(View()) == 0 && writeopen) ==>
                && out == (if n > 0 && old(Pending(View())) > 0 && fault(0) then Failed else Returned)
                && |got| <= old(Pending(View())) && (forall k :: 0 <= k < |got| ==> !fault(k))
                && (|got| == n || |got| == old(Pending(View())) || fault(|got|))
                && writers == {} && readers == old(readers)
    {
      hide Inv, Empty, Step, Pops;
      ghost var p := View();
      got, out := [], Returned;
      EmptyTest(p);
      NoPops(p);
      if nread == nwrite && writeopen {
        if dead {
          out := Failed;
        } else {
          readers, out := readers + {pr}, Slept;
        }
        ReadWaits(p, View(), pr, n, dead, fault, out);
        return;
      }
      var i := 0;
      while i < n
        invariant i <= n && i == |got| && Inv(View()) && View() == Pops(p, i) && delivered == p.delivered + got
        invariant i <= Pending(p) && forall k :: 0 <= k < i ==> !fault(k)
      {
        EmptyTest(View());
        if nread == nwrite { break; }
        if fault(i) {
          if i == 0 { out := Failed; }
          break;
        }
        var ch := TakeByte();
        got := got + [ch];
        PopOne(p, i);
        i := i + 1;
      }
      writers := {};
      ReadStep(p, View(), pr, n, i, dead, fault, out);
    }

    /** pipeclose; the last close also frees the pipe. */
    method Close(writable: bool) returns (last: bool)
      requires Inv(View()) && if writable then writeopen && writers == {} else readopen && readers == {}
      modifies this
      ensures Step(old(View()), Event.Close(writable), View()) && Inv(View())
      ensures last <==> !readopen && !writeopen
      ensures last <==> if writable then !old(readopen) else !old(writeopen)
      ensures writeopen == (old(writeopen) && !writable) && readopen == (old(readopen) && writable)
      ensures data[..] == old(data[..]) && nread == old(nread) && nwrite == old(nwrite)
      ensures accepted == old(accepted) && delivered == old(delivered)
      ensures readers == (if writable then {} else old(readers)) && writers == if writable then old(writers) else {}
    {
      if writable {
        writeopen, readers := false, {};
      } else {
        readopen, writers := false, {};
      }
      last := !readopen && !writeopen;
    }
  }

  lemma NoPushes(p: Pipe)
    requires |p.data| == PIPESIZE
    ensures Pushes(p, []) == p
  {
  }

  lemma NoPops(p: Pipe)
    requires |p.data| == PIPESIZE
    ensures Pops(p, 0) == p
  {
  }

  lemma FullTest(p: Pipe)
    requires Inv(p)
    ensures Full(p) <==> p.nwrite == (p.nread + PIPESIZE) % WRAP
    ensures |p.data| == PIPESIZE && Pending(p) <= PIPESIZE && (Full(p) <==> Pending(p) == PIPESIZE)
  {
    CountersAreExact(p);
  }

  lemma EmptyTest(p: Pipe)
    requires Inv(p)
    ensures |p.data| == PIPESIZE && (Empty(p) <==> p.nread == p.nwrite)
    ensures 0 <= Pending(p) && (Empty(p) <==> Pending(p) == 0)
  {
    CountersAreExact(p);
  }

  lemma PushOne(p: Pipe, src: seq<byte>, i: nat, j: nat)
    requires |p.data| == PIPESIZE && i <= j < |src|
    ensures Pushes(p, src[i..j + 1]) == Push(Pushes(p, src[i..j]), src[j])
  {
    var bs := src[i..j + 1];
    assert bs[..|bs| - 1] == src[i..j] && bs[|bs| - 1] == src[j];
  }

  lemma PopOne(p: Pipe, n: nat)
    requires |p.data| == PIPESIZE
    ensures Pops(p, n + 1) == Pop(Pops(p, n))
  {
  }

  lemma WriteStep(p: Pipe, q: Pipe, pr: nat, src: seq<byte>, i: nat, j: nat,
                  killed: nat -> bool, fault: nat -> bool, out: Outcome)
    requires Inv(p) && p.writeopen && Writes(p, q, pr, src, i, j, killed, fault, out)
    ensures Step(p, Event.Write(pr, src, i, j, killed, fault, out), q) && Inv(q)
    ensures SleepOk(p) ==> (SleepOk(q) <==> !WillStrand(p, src, i, killed, fault))
  {
    hide Inv, Writes, WillStrand, SleepOk;
    if SleepOk(p) {
      WriteSleepIff(p, q, pr, src, i, j, killed, fault, out);
    }
    StepKeepsInv(p, Event.Write(pr, src, i, j, killed, fault, out), q);
  }

  lemma ReadStep(p: Pipe, q: Pipe, pr: nat, n: nat, got: nat, dead: bool, fault: nat -> bool, out: Outcome)
    requires Inv(p) && p.readopen && Reads(p, q, pr, n, got, dead, fault, out)
    ensures Step(p, Event.Read(pr, n, got, dead, fault, out), q) && Inv(q)
  {
    hide Inv, Reads;
    StepKeepsInv(p, Event.Read(pr, n, got, dead, fault, out), q);
  }

  lemma ReadWaits(p: Pipe, q: Pipe, pr: nat, n: nat, dead: bool, fault: nat -> bool, out: Outcome)
    requires Inv(p) && p.readopen && Empty(p) && p.writeopen
    requires if dead then out == Failed && q == p else out == Slept && q == p.(readers := p.readers + {pr})
    ensures Step(p, Event.Read(pr, n, 0, dead, fault, out), q) && Inv(q)
  {
    ReadStep(p, q, pr, n, 0, dead, fault, out);
  }
}
