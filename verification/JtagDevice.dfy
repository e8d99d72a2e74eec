/** What the JTAG UART driver takes from its device and gives to it: the bytes read from DATA, the interrupt enables,
    the turns of the handler, and the seconds without the host. */
module JtagDevice {
  import opened Basics
  import opened Rings
  import opened JtagMachine
  import opened JtagProperties

  /** The answers in `answers` were valid, and what they carried was added to `before`, byte for byte. */
  ghost predicate Took(answers: seq<DataRead>, before: seq<byte>, after: seq<byte>) {
    && |after| == |before| + |answers| && after[..|before|] == before
    && forall i :: 0 <= i < |answers| ==> answers[i].rvalid && after[|before| + i] == answers[i].data
  }

  lemma TookMore(a: seq<DataRead>, b: seq<DataRead>, x: seq<byte>, y: seq<byte>, z: seq<byte>)
    requires Took(a, x, y) && Took(b, y, z)
    ensures Took(a + b, x, z)
  {
    assert forall i :: 0 <= i < |y| ==> z[i] == z[..|y|][i];
  }

  /** The receive loop takes answers for as long as they are valid and the ring has room, and puts their bytes in the
      ring. The RAVAIL it ends with is that of the last answer it asked for. */
  lemma {:induction false} RxDrainReads(rx: Ring, popped: seq<byte>, ravail: nat, fifo: seq<DataRead>) returns (k: nat)
    requires rx.Ok()
    ensures var (rx', popped', ravail') := RxDrain(rx, popped, ravail, fifo);
            && k <= |fifo| && Took(fifo[..k], popped, popped')
            && rx'.Ok() && rx'.Contents() == rx.Contents() + popped'[|popped|..]
            && (rx'.Full() || k == |fifo| || !fifo[k].rvalid)
            && ravail' == (if rx'.Full() then (if k == 0 then ravail else fifo[k - 1].ravail)
                           else if k == |fifo| then 0 else fifo[k].ravail)
    decreases |fifo|
  {
    hide Ring.Contents;
    if rx.Full() || fifo == [] || !fifo[0].rvalid {
      k := 0;
    } else {
      var b := fifo[0].data;
      var n := RxDrainReads(rx.Push(b), popped + [b], fifo[0].ravail, fifo[1..]);
      k := n + 1;
      var (rx', popped', ravail') := RxDrain(rx.Push(b), popped + [b], fifo[0].ravail, fifo[1..]);
      assert Took([fifo[0]], popped, popped + [b]);
      TookMore([fifo[0]], fifo[1..][..n], popped, popped + [b], popped');
      assert fifo[..k] == [fifo[0]] + fifo[1..][..n];
      assert popped'[|popped|..] == [b] + popped'[|popped + [b]|..] by {
        assert popped'[|popped|] == popped'[..|popped + [b]|][|popped|];
      }
    }
  }

  /** One turn of the handler takes the valid answers there is room for, and none without RI. It turns RE off exactly
      if it leaves a full ring behind which data is known or assumed to wait, and WE off exactly if the hardware has
      space to spare. */
  lemma PassReads(s: Sys, p: Pass) returns (k: nat)
    requires Inv(s) && HardwareOk(p.fifo)
    ensures var t := IsrPass(s, p);
            && k <= |p.fifo| && Took(p.fifo[..k], s.popped, t.popped)
            && t.rx.Ok() && (if p.ri then t.rx.Full() || k == |p.fifo| || !p.fifo[k].rvalid else k == 0)
            && (t.control.re <==> s.control.re && !(p.ri && t.rx.Full() && (k > 0 ==> p.fifo[k - 1].ravail != 0)))
            && (t.control.we <==> s.control.we && !(p.wi && |s.tx.Contents()| < p.wspace))
  {
    hide Ring.Contents, RxDrain, TxDrain, WriterOk, ReaderOk;
    k := RxDrainReads(s.rx, s.popped, 1, p.fifo);
    TxDrainGrows(s.tx, s.sent, p.wspace);
    if !p.ri {
      k := 0;
    }
  }

  /** An interrupt is the turns for its leading CONTROL reads with RI or WI, in order, up to the first with neither. */
  lemma {:induction false} IsrTakesLeadingTurns(s: Sys, passes: seq<Pass>) returns (states: seq<Sys>)
    requires Inv(s) && forall p :: p in passes ==> HardwareOk(p.fifo)
    ensures 1 <= |states| <= |passes| + 1 && states[0] == s && states[|states| - 1] == Isr(s, passes)
    ensures forall i :: 0 <= i < |states| - 1 ==>
              && Inv(states[i]) && (passes[i].ri || passes[i].wi)
              && states[i + 1] == IsrPass(states[i], passes[i])
    ensures |states| - 1 < |passes| ==> !passes[|states| - 1].ri && !passes[|states| - 1].wi
    decreases |passes|
  {
    hide Inv, IsrPass;
    if passes == [] || !(passes[0].ri || passes[0].wi) {
      states := [s];
    } else {
      InvRings(s);
      IsrPassKeepsInv(s, passes[0]);
      var rest := IsrTakesLeadingTurns(IsrPass(s, passes[0]), passes[1..]);
      states := [s] + rest;
    }
  }

  // --------------------------------------------------------------------- the stream behind all reads

  /** The answers that one turn of the handler takes. */
  ghost function TurnTaken(s: Sys, p: Pass): seq<DataRead>
    requires Inv(s)
  {
    var n := |IsrPass(s, p).popped| - |s.popped|;
    if 0 <= n <= |p.fifo| then p.fifo[..n] else []
  }

  ghost function IsrTaken(s: Sys, passes: seq<Pass>): seq<DataRead>
    requires Inv(s) && forall p :: p in passes ==> HardwareOk(p.fifo)
    decreases |passes|
  {
    if passes == [] || !(passes[0].ri || passes[0].wi) then []
    else
      IsrPassKeepsInv(s, passes[0]);
      TurnTaken(s, passes[0]) + IsrTaken(IsrPass(s, passes[0]), passes[1..])
  }

  /** The answers that the interrupts of a schedule take, in order. */
  ghost function Taken(s: Sys, events: seq<Event>): seq<DataRead>
    requires Inv(s) && forall e :: e in events ==> EventOk(e)
  {
    if events == [] then []
    else
      var front, e := events[..|events| - 1], events[|events| - 1];
      assert e in events && EventOk(e);
      Taken(s, front) + (if e.Interrupt? then IsrTaken(Run(s, front), e.passes) else [])
  }

  lemma {:induction false} IsrTakes(s: Sys, passes: seq<Pass>)
    requires Inv(s) && forall p :: p in passes ==> HardwareOk(p.fifo)
    ensures Took(IsrTaken(s, passes), s.popped, Isr(s, passes).popped)
    decreases |passes|
  {
    hide Inv, IsrPass, Took;
    if passes == [] || !(passes[0].ri || passes[0].wi) {
      TookNothing(s.popped);
    } else {
      var p := passes[0];
      InvRings(s);
      IsrPassKeepsInv(s, p);
      var k := PassReads(s, p);
      TookLength(p.fifo[..k], s.popped, IsrPass(s, p).popped);
      IsrTakes(IsrPass(s, p), passes[1..]);
      TookMore(TurnTaken(s, p), IsrTaken(IsrPass(s, p), passes[1..]), s.popped, IsrPass(s, p).popped,
               Isr(s, passes).popped);
    }
  }

  lemma TookNothing(x: seq<byte>)
    ensures Took([], x, x)
  {
  }

  lemma TookLength(answers: seq<DataRead>, x: seq<byte>, y: seq<byte>)
    requires Took(answers, x, y)
    ensures |y| == |x| + |answers|
  {
  }

  lemma ThreadsTakeNothing(s: Sys)
    requires Inv(s)
    ensures WriterStep(s).popped == s.popped && ReaderStep(s).popped == s.popped
  {
    hide Ring.Contents;
  }

  /** Over every schedule, what was popped is what the answers carried. */
  lemma {:induction false} RunTakes(s: Sys, events: seq<Event>)
    requires Inv(s) && forall e :: e in events ==> EventOk(e)
    ensures Took(Taken(s, events), s.popped, Run(s, events).popped)
  {
    hide Inv, WriterStep, ReaderStep, Isr, Took;
    if events == [] {
      TookNothing(s.popped);
    } else {
      var front, e := events[..|events| - 1], events[|events| - 1];
      var t := Run(s, front);
      assert e in events && EventOk(e);
      RunTakes(s, front);
      ThreadsTakeNothing(t);
      if e.Interrupt? {
        IsrTakes(t, e.passes);
        TookMore(Taken(s, front), IsrTaken(t, e.passes), s.popped, t.popped, Run(s, events).popped);
      } else {
        assert Taken(s, front) + [] == Taken(s, front);
      }
    }
  }

  lemma {:induction false} RunsConcatenate(s: Sys, a: seq<Event>, b: seq<Event>)
    requires Inv(s) && forall e :: e in a + b ==> EventOk(e)
    ensures (forall e :: e in a ==> EventOk(e)) && forall e :: e in b ==> EventOk(e)
    ensures Run(s, a + b) == Run(Run(s, a), b)
  {
    hide Inv, Step;
    assert forall e :: e in a ==> e in a + b;
    assert forall e :: e in b ==> e in a + b;
    if b == [] {
      assert a + b == a;
    } else {
      var front := b[..|b| - 1];
      assert (a + b)[..|a + b| - 1] == a + front;
      RunsConcatenate(s, a, front);
    }
  }

  /** Whatever the schedule, a read of `space` bytes gets in its buffer the bytes that the device answered with next
      after those that earlier reads got: no other bytes, and none out of order. */
  lemma ReadGetsNextAnswers(txBuf: seq<byte>, rxBuf: seq<byte>, timeout: nat,
                            before: seq<Event>, space: int, nonblock: bool, after: seq<Event>)
    requires 2 <= |txBuf| && 2 <= |rxBuf| && Inv(Init(txBuf, rxBuf, timeout))
    requires forall e :: e in before + [CallRead(space, nonblock)] + after ==> EventOk(e)
    requires forall e :: e in before ==> EventOk(e)
    requires Run(Init(txBuf, rxBuf, timeout), before).r.pc == RIdle && forall e :: e in after ==> !e.CallRead?
    ensures var all := before + [CallRead(space, nonblock)] + after;
            var taken := Taken(Init(txBuf, rxBuf, timeout), all);
            var start := |Run(Init(txBuf, rxBuf, timeout), before).delivered|;
            var got := Run(Init(txBuf, rxBuf, timeout), all).r.got;
            && start + |got| <= |taken|
            && forall i :: 0 <= i < |got| ==> got[i] == taken[start + i].data
  {
    hide Inv, Step, CallResult;
    var init, call := Init(txBuf, rxBuf, timeout), CallRead(space, nonblock);
    var all := before + [call] + after;
    var s := Run(init, before);
    assert forall e :: e in after ==> e in all;
    RunTakes(init, all);
    RunsConcatenate(init, before + [call], after);
    assert (before + [call])[..|before|] == before;
    ReadTakesNextBytes(s, space, nonblock, after);
  }

  // ------------------------------------------------------------------------------------- the host

  /** A wait ends in the step that sees room or bytes, or the host away for the whole timeout, and in no other. */
  lemma WaitsEndForAReason(s: Sys)
    requires Inv(s)
    ensures s.w.pc == WSpin ==>
              WriterStep(s).w.pc == if s.w.outp != s.tx.outp then WCheckHost else WSpinHost
    ensures s.w.pc == WSpinHost ==>
              WriterStep(s).w.pc == if s.hostInactive >= s.timeout then WCheckHost else WSpin
    ensures s.r.pc == RSpin ==>
              ReaderStep(s).r.pc == if s.r.inp != s.rx.inp then RRecheck else RSpinHost
    ensures s.r.pc == RSpinHost ==>
              ReaderStep(s).r.pc == if s.hostInactive >= s.timeout then RRecheck else RSpin
  {
    hide Ring.Contents;
  }

  lemma ThreadsLeaveTheTimer(s: Sys)
    requires Inv(s)
    ensures WriterStep(s).hostInactive == s.hostInactive && ReaderStep(s).hostInactive == s.hostInactive
  {
    hide Ring.Contents;
  }

  lemma {:induction false} SecondsAddUp(s: Sys, events: seq<Event>)
    requires Inv(s) && s.hostInactive <= 0x7fff_fffd
    requires forall e :: e in events ==> EventOk(e) && e != Second(true)
    ensures var n := s.hostInactive + multiset(events)[Second(false)];
            Run(s, events).hostInactive == if n < 0x7fff_fffd then n else 0x7fff_fffd
  {
    hide Inv, WriterStep, ReaderStep, Isr;
    if events != [] {
      var front, e := events[..|events| - 1], events[|events| - 1];
      assert events == front + [e] && e in events;
      SecondsAddUp(s, front);
      ThreadsLeaveTheTimer(Run(s, front));
    }
  }

  /** The host counter is the number of seconds since the host was last seen, up to its largest value. */
  lemma CounterIsSecondsSinceHost(s: Sys, before: seq<Event>, after: seq<Event>)
    requires Inv(s) && forall e :: e in before + [Second(true)] + after ==> EventOk(e)
    requires Second(true) !in after
    ensures var n := multiset(after)[Second(false)];
            Run(s, before + [Second(true)] + after).hostInactive == if n < 0x7fff_fffd then n else 0x7fff_fffd
  {
    hide Inv;
    var a := before + [Second(true)];
    assert forall e :: e in before ==> e in a + after;
    RunsConcatenate(s, a, after);
    assert a[..|before|] == before;
    SecondsAddUp(Run(s, a), after);
  }
}
