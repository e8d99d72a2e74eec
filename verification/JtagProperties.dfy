/** What the interleaved JTAG UART driver guarantees, for every schedule of its two threads, its interrupt
    handler and its timer. */
module JtagProperties {
  import opened Basics
  import opened Rings
  import opened JtagMachine

  /** The state `altera_avalon_jtag_uart_init` leaves: empty rings of any contents, receive interrupts on. */
  function Init(txBuf: seq<byte>, rxBuf: seq<byte>, timeout: nat): Sys {
    Sys(Ring(txBuf, 0, 0), Ring(rxBuf, 0, 0), Enables(true, false), Enables(true, false), 0, timeout,
        Writer(WIdle, [], false, 0, 0, 0, 0, 0, -EIO, [], false),
        Reader(RIdle, 0, 0, false, [], 0, 0, 0, [], -EIO, []),
        [], [], [], [])
  }

  /** In every state any schedule reaches: the bytes accepted from writers are those stored in the DATA
      register followed by the transmit ring; the bytes popped from the hardware FIFO are those handed to
      readers followed by the receive ring; neither ring holds more than N - 1 bytes; and no wake-up is
      lost on either side. */
  lemma EveryScheduleIsSafe(txBuf: seq<byte>, rxBuf: seq<byte>, timeout: nat, events: seq<Event>)
    requires 2 <= |txBuf| && 2 <= |rxBuf|
    requires forall e :: e in events ==> EventOk(e)
    ensures Inv(Init(txBuf, rxBuf, timeout))
    ensures var s := Run(Init(txBuf, rxBuf, timeout), events);
            && s.accepted == s.sent + s.tx.Contents()
            && s.popped == s.delivered + s.rx.Contents()
            && |s.tx.Contents()| < |txBuf| && |s.rx.Contents()| < |rxBuf|
            && (s.tx.Contents() != [] && !s.w.dirty ==> s.control.we)
            && (s.rx.Contents() == [] && (s.r.pc == RIdle || s.r.got == []) ==> s.control.re)
  {
    var s0 := Init(txBuf, rxBuf, timeout);
    assert Inv(s0);
    RunKeepsSizes(s0, events);
  }

  lemma WriterKeepsSizes(s: Sys)
    requires Inv(s)
    ensures |WriterStep(s).tx.buf| == |s.tx.buf| && WriterStep(s).rx == s.rx
  {
    hide Ring.Contents;
  }

  lemma ReaderKeepsSizes(s: Sys)
    requires Inv(s)
    ensures ReaderStep(s).tx == s.tx && |ReaderStep(s).rx.buf| == |s.rx.buf|
  {
    hide Ring.Contents;
  }

  lemma {:induction false} RunKeepsSizes(s: Sys, events: seq<Event>)
    requires Inv(s) && forall e :: e in events ==> EventOk(e)
    ensures |Run(s, events).tx.buf| == |s.tx.buf| && |Run(s, events).rx.buf| == |s.rx.buf|
  {
    hide Inv, WriterStep, ReaderStep;
    if events != [] {
      var front, e := events[..|events| - 1], events[|events| - 1];
      RunKeepsSizes(s, front);
      WriterKeepsSizes(Run(s, front));
      ReaderKeepsSizes(Run(s, front));
    }
  }

  // ------------------------------------------------------------------------------- whole calls

  ghost predicate SameWrite(s: Sys, s': Sys) {
    s'.w.data == s.w.data && s'.w.before == s.w.before && s'.w.nonblock == s.w.nonblock
  }

  ghost predicate SameRead(s: Sys, s': Sys) {
    s'.r.asked == s.r.asked && s'.r.before == s.r.before && s'.r.nonblock == s.r.nonblock
  }

  lemma WriterKeepsCalls(s: Sys)
    requires Inv(s)
    ensures SameWrite(s, WriterStep(s)) && WriterStep(s).r == s.r
  {
    hide Ring.Contents, ReaderOk, WriterOk;
    assert TxInv(s) && WriterOk(s.tx, s.w, s.accepted);
  }

  lemma ReaderKeepsCalls(s: Sys)
    requires Inv(s)
    ensures SameRead(s, ReaderStep(s)) && ReaderStep(s).w == s.w
  {
    hide Ring.Contents, WriterOk;
    assert RxInv(s);
  }

  /** Only a new call changes what a thread was asked to do. */
  lemma {:induction false} CallsAreFixed(s: Sys, events: seq<Event>)
    requires Inv(s) && forall e :: e in events ==> EventOk(e)
    ensures (forall e :: e in events ==> !e.CallWrite?) ==> SameWrite(s, Run(s, events))
    ensures (forall e :: e in events ==> !e.CallRead?) ==> SameRead(s, Run(s, events))
  {
    hide Inv, WriterStep, ReaderStep;
    if events != [] {
      var front, e := events[..|events| - 1], events[|events| - 1];
      CallsAreFixed(s, front);
      assert e in events;
      WriterKeepsCalls(Run(s, front));
      ReaderKeepsCalls(Run(s, front));
    }
  }

  /** However a write is interleaved, when it is back it has appended to the accepted bytes a prefix of its
      data, and it returns the length of that prefix, or an error when that is 0. */
  lemma WriteAppendsPrefix(s: Sys, data: seq<byte>, nonblock: bool, events: seq<Event>)
    requires Inv(s) && s.w.pc == WIdle
    requires forall e :: e in events ==> EventOk(e) && !e.CallWrite?
    ensures var s' := Run(Step(s, CallWrite(data, nonblock)), events);
            && s'.w.ptr <= |data|
            && s'.accepted == s.accepted + data[..s'.w.ptr]
            && (s'.w.pc == WIdle ==>
                  s'.w.result == if s'.w.ptr > 0 then s'.w.ptr else if nonblock then -11 else -5)
  {
    hide Ring.Contents;
    CallsAreFixed(Step(s, CallWrite(data, nonblock)), events);
  }

  /** However a read is interleaved, when it is back its buffer holds the next undelivered bytes of the
      hardware FIFO, at most as many as asked for, and it returns their number, or an error when that is 0. If
      they are fewer, the producer index it saw last was the consumer index: the ring was empty. */
  lemma ReadTakesNextBytes(s: Sys, space: int, nonblock: bool, events: seq<Event>)
    requires Inv(s) && s.r.pc == RIdle
    requires forall e :: e in events ==> EventOk(e) && !e.CallRead?
    ensures var s' := Run(Step(s, CallRead(space, nonblock)), events);
            && s'.delivered == s.delivered + s'.r.got
            && s.delivered + s'.r.got <= s'.popped
            && |s'.r.got| <= (if space > 0 then space else 0)
            && (s'.r.pc == RIdle ==>
                  s'.r.result == if s'.r.got != [] then |s'.r.got| else if nonblock then -11 else -5)
            && (s'.r.pc == RIdle && |s'.r.got| < space ==> s'.r.inp == s'.rx.outp)
  {
    hide Ring.Contents;
    CallsAreFixed(Step(s, CallRead(space, nonblock)), events);
  }

  // -------------------------------------------------------------------------- when a call gives up

  /** The step by which a write gives up: after a wait it finds the host counter above zero. */
  ghost predicate GivesUpWriting(s: Sys, e: Event) {
    e.WriterRuns? && s.w.pc == WCheckHost && s.hostInactive != 0
  }

  ghost predicate WriteGivenUp(s: Sys, events: seq<Event>)
    requires Inv(s) && forall e :: e in events ==> EventOk(e)
  {
    events != [] &&
    var front, e := events[..|events| - 1], events[|events| - 1];
    WriteGivenUp(s, front) || GivesUpWriting(Run(s, front), e)
  }

  /** A blocking write that is back is complete unless it gave up, and one that gave up is back. */
  ghost predicate WriteStands(s: Sys, gaveUp: bool) {
    && !s.w.nonblock && s.w.ptr <= |s.w.data|
    && (s.w.pc == WIdle ==> (s.w.ptr == |s.w.data| <==> !gaveUp))
    && (s.w.pc != WIdle ==> !gaveUp)
  }

  lemma WriterStands(s: Sys, gaveUp: bool)
    requires Inv(s) && WriteStands(s, gaveUp)
    ensures WriteStands(WriterStep(s), gaveUp || GivesUpWriting(s, WriterRuns))
  {
    hide Ring.Contents, ReaderOk;
  }

  lemma {:induction false} WriteStandsThroughout(s: Sys, events: seq<Event>)
    requires Inv(s) && WriteStands(s, false)
    requires forall e :: e in events ==> EventOk(e) && !e.CallWrite?
    ensures WriteStands(Run(s, events), WriteGivenUp(s, events))
  {
    hide Inv, WriterStep, ReaderStep;
    if events != [] {
      var front, e := events[..|events| - 1], events[|events| - 1];
      assert e in events;
      WriteStandsThroughout(s, front);
      WriterStands(Run(s, front), WriteGivenUp(s, front));
      ReaderKeepsCalls(Run(s, front));
    }
  }

  /** A blocking write that is back has had all its data accepted exactly if it did not give up. */
  lemma BlockingWriteIsComplete(s: Sys, data: seq<byte>, events: seq<Event>)
    requires Inv(s) && s.w.pc == WIdle
    requires forall e :: e in events ==> EventOk(e) && !e.CallWrite?
    ensures var s0 := Step(s, CallWrite(data, false));
            var s' := Run(s0, events);
            s'.w.pc == WIdle ==>
              && (s'.accepted == s.accepted + data <==> !WriteGivenUp(s0, events))
              && (data != [] ==> (s'.w.result == |data| <==> !WriteGivenUp(s0, events)))
  {
    hide Ring.Contents;
    var s0 := Step(s, CallWrite(data, false));
    var s' := Run(s0, events);
    WriteAppendsPrefix(s, data, false, events);
    CallsAreFixed(s0, events);
    WriteStandsThroughout(s0, events);
    assert |s'.accepted| == |s.accepted| + s'.w.ptr;
  }

  /** The run that `events` leads to has come to state `t`. */
  ghost predicate ComesTo(s: Sys, events: seq<Event>, t: Sys) {
    Inv(s) && (forall e :: e in events ==> EventOk(e)) && Run(s, events) == t
  }

  /** One more step of a run, to a state given outright. */
  lemma RunsOn(s: Sys, events: seq<Event>, e: Event, t: Sys, t': Sys)
    requires ComesTo(s, events, t) && EventOk(e) && (Inv(t) ==> Step(t, e) == t')
    ensures Inv(t) && ComesTo(s, events + [e], t')
  {
    hide Inv, Step;
    assert (events + [e])[..|events|] == events;
  }

  lemma WriterRunsOn(s: Sys, events: seq<Event>, t: Sys, t': Sys)
    requires ComesTo(s, events, t) && (InvParts(t) ==> WriterStep(t) == t')
    ensures ComesTo(s, events + [WriterRuns], t')
  {
    hide Inv, WriterStep;
    assert Inv(t);
    InvRings(t);
    RunsOn(s, events, WriterRuns, t, t');
  }

  lemma OneByteSent(s: Sys, p: Pass)
    requires Inv(s) && p == Pass(false, true, 1, []) && s.tx.inp != s.tx.outp
    ensures Isr(s, [p]) == s.(tx := s.tx.Pop(), sent := s.sent + [s.tx.buf[s.tx.outp]])
  {
    hide Inv, Ring.Contents;
    InvRings(s);
    assert TxDrain(s.tx.Pop(), s.sent + [s.tx.buf[s.tx.outp]], 0).2 == 0;
    IsrPassKeepsInv(s, p);
    assert [p][1..] == [];
  }

  const TwoBytes: Event := CallWrite([1, 2], false)
  const OneSpace: Pass := Pass(false, true, 1, [])

  function Writing(pc: WriterPc, ptr: nat, inp: nat, n: nat, k: nat, dirty: bool): Writer {
    Writer(pc, [1, 2], false, ptr, inp, 0, n, k, 0, [], dirty)
  }

  /** The driver of two slots while it writes two bytes, of which `accepted` have been published. */
  function Driver(tx: Ring, we: bool, inactive: nat, w: Writer, accepted: seq<byte>, sent: seq<byte>): Sys {
    var idle := Init([0, 0], [0, 0], 10);
    SetEnables(idle, Enables(true, we))
    .(tx := tx, hostInactive := inactive, w := w, accepted := accepted, sent := sent)
  }

  // Where it is called, copies its first byte, looks for more room, finds none, and has had one byte sent.
  const Called: Sys :=
    Driver(Ring([0, 0], 0, 0), false, 0, Writing(WLoadIn, 0, 0, 0, 0, false), [], [])
  const Copying: Sys :=
    Driver(Ring([0, 0], 0, 0), false, 0, Writing(WCopy, 0, 0, 1, 0, false), [], [])
  const OneIn: Sys :=
    Driver(Ring([1, 0], 1, 0), false, 0, Writing(WLoadIn, 1, 0, 1, 1, true), [1], [])
  const FoundFull: Sys :=
    Driver(Ring([1, 0], 1, 0), false, 0, Writing(WEnable, 1, 1, 0, 0, true), [1], [])
  const OneSent: Sys :=
    Driver(Ring([1, 0], 1, 1), true, 1, Writing(WSpin, 1, 1, 0, 0, false), [1], [1])

  lemma FindsRoom(s: Sys, events: seq<Event>) returns (events': seq<Event>)
    requires ComesTo(s, events, Called)
    ensures ComesTo(s, events', Copying)
  {
    hide Ring.Contents, ComesTo;
    var t1 := Driver(Ring([0, 0], 0, 0), false, 0, Writing(WLoadOut, 0, 0, 0, 0, false), [], []);
    WriterRunsOn(s, events, Called, t1);
    events' := events + [WriterRuns];
    WriterRunsOn(s, events', t1, Copying);
    events' := events' + [WriterRuns];
  }

  lemma PublishesOne(s: Sys, events: seq<Event>) returns (events': seq<Event>)
    requires ComesTo(s, events, Copying)
    ensures ComesTo(s, events', OneIn)
  {
    hide Ring.Contents, ComesTo;
    var t1 := Driver(Ring([1, 0], 0, 0), false, 0, Writing(WPublish, 0, 0, 1, 1, false), [], []);
    WriterRunsOn(s, events, Copying, t1);
    events' := events + [WriterRuns];
    WriterRunsOn(s, events', t1, OneIn);
    events' := events' + [WriterRuns];
  }

  lemma FindsItFull(s: Sys, events: seq<Event>) returns (events': seq<Event>)
    requires ComesTo(s, events, OneIn)
    ensures ComesTo(s, events', FoundFull)
  {
    hide Ring.Contents, ComesTo;
    var t1 := Driver(Ring([1, 0], 1, 0), false, 0, Writing(WLoadOut, 1, 1, 1, 1, true), [1], []);
    WriterRunsOn(s, events, OneIn, t1);
    events' := events + [WriterRuns];
    WriterRunsOn(s, events', t1, FoundFull);
    events' := events' + [WriterRuns];
  }

  /** WE is set, a second passes without the host, and then the hardware takes the byte. */
  lemma HostStaysAway(s: Sys, events: seq<Event>) returns (events': seq<Event>)
    requires ComesTo(s, events, FoundFull)
    ensures ComesTo(s, events', OneSent)
  {
    hide Ring.Contents, ComesTo;
    var t1 := Driver(Ring([1, 0], 1, 0), true, 0, Writing(WSpin, 1, 1, 0, 0, false), [1], []);
    WriterRunsOn(s, events, FoundFull, t1);
    events' := events + [WriterRuns];
    var t2 := Driver(Ring([1, 0], 1, 0), true, 1, Writing(WSpin, 1, 1, 0, 0, false), [1], []);
    RunsOn(s, events', Second(false), t1, t2);
    events' := events' + [Second(false)];
    assert Inv(t2) ==> Isr(t2, [OneSpace]) == OneSent by {
      if Inv(t2) {
        OneByteSent(t2, OneSpace);
      }
    }
    RunsOn(s, events', Interrupt([OneSpace]), t2, OneSent);
    events' := events' + [Interrupt([OneSpace])];
  }

  /** Giving up does not wait for the timeout. With two slots and two bytes to write, one second without the host and
      a byte sent in time, the write comes back short. */
  lemma WriteGivesUpBeforeTimeout() returns (events: seq<Event>)
    ensures Inv(Init([0, 0], [0, 0], 10)) && forall e :: e in events ==> EventOk(e)
    ensures var s := Run(Init([0, 0], [0, 0], 10), events);
            && s.w.data == [1, 2] && !s.w.nonblock && s.w.pc == WIdle
            && s.w.result == 1 && s.accepted == s.sent == [1]
            && s.hostInactive == 1 < s.timeout
  {
    hide Ring.Contents;
    var s := Init([0, 0], [0, 0], 10);
    EveryScheduleIsSafe([0, 0], [0, 0], 10, []);
    RunStarts(s);
    RunsOn(s, [], TwoBytes, s, Called);
    events := FindsRoom(s, [] + [TwoBytes]);
    events := PublishesOne(s, events);
    events := FindsItFull(s, events);
    events := HostStaysAway(s, events);
    var t := Driver(Ring([1, 0], 1, 1), true, 1, Writing(WCheckHost, 1, 1, 0, 0, false), [1], [1]);
    WriterRunsOn(s, events, OneSent, t);
    events := events + [WriterRuns];
    WriterRunsOn(s, events, t, t.(w := FinishWrite(t.w)));
    events := events + [WriterRuns];
  }

  lemma RunStarts(s: Sys)
    requires Inv(s)
    ensures ComesTo(s, [], s)
  {
  }

  /** The step by which a read gives up: after a wait it finds the ring as empty as before. */
  ghost predicate GivesUpReading(s: Sys, e: Event) {
    e.ReaderRuns? && s.r.pc == RRecheck && s.r.inp == s.rx.inp
  }

  ghost predicate ReadGivenUp(s: Sys, events: seq<Event>)
    requires Inv(s) && forall e :: e in events ==> EventOk(e)
  {
    events != [] &&
    var front, e := events[..|events| - 1], events[|events| - 1];
    ReadGivenUp(s, front) || GivesUpReading(Run(s, front), e)
  }

  ghost predicate ReadStands(s: Sys, gaveUp: bool) {
    && !s.r.nonblock
    && (s.r.pc == RIdle ==> (s.r.got != [] <==> !gaveUp))
    && (s.r.pc != RIdle ==> !gaveUp)
  }

  lemma ReaderStands(s: Sys, gaveUp: bool)
    requires Inv(s) && ReadStands(s, gaveUp)
    ensures ReadStands(ReaderStep(s), gaveUp || GivesUpReading(s, ReaderRuns))
  {
    hide Ring.Contents, WriterOk;
  }

  lemma {:induction false} ReadStandsThroughout(s: Sys, events: seq<Event>)
    requires Inv(s) && ReadStands(s, false)
    requires forall e :: e in events ==> EventOk(e) && !e.CallRead?
    ensures ReadStands(Run(s, events), ReadGivenUp(s, events))
  {
    hide Inv, WriterStep, ReaderStep;
    if events != [] {
      var front, e := events[..|events| - 1], events[|events| - 1];
      assert e in events;
      ReadStandsThroughout(s, front);
      ReaderStands(Run(s, front), ReadGivenUp(s, front));
      WriterKeepsCalls(Run(s, front));
    }
  }

  /** A blocking read of at least one byte that is back has brought some exactly if it did not give up. */
  lemma BlockingReadBringsBytes(s: Sys, space: int, events: seq<Event>)
    requires Inv(s) && s.r.pc == RIdle && 0 < space
    requires forall e :: e in events ==> EventOk(e) && !e.CallRead?
    ensures var s0 := Step(s, CallRead(space, false));
            var s' := Run(s0, events);
            s'.r.pc == RIdle ==>
              && (s'.delivered != s.delivered <==> !ReadGivenUp(s0, events))
              && (0 < s'.r.result == |s'.r.got| <= space <==> !ReadGivenUp(s0, events))
  {
    hide Ring.Contents;
    var s0 := Step(s, CallRead(space, false));
    var s' := Run(s0, events);
    ReadTakesNextBytes(s, space, false, events);
    ReadStandsThroughout(s0, events);
    assert |s'.delivered| == |s.delivered| + |s'.r.got|;
  }

  /** The host has been seen within the timeout, in every state of the run. */
  ghost predicate HostInTime(s: Sys, events: seq<Event>)
    requires Inv(s) && forall e :: e in events ==> EventOk(e)
  {
    && Run(s, events).hostInactive < Run(s, events).timeout
    && (events != [] ==> HostInTime(s, events[..|events| - 1]))
  }

  /** It rechecks only a ring that has filled. */
  ghost predicate WillFindBytes(s: Sys) {
    s.rx.Ok() && (s.r.pc == RRecheck ==> s.rx.inp != s.r.inp)
  }

  lemma ReaderWillFindBytes(s: Sys)
    requires Inv(s) && WillFindBytes(s) && s.hostInactive < s.timeout
    ensures WillFindBytes(ReaderStep(s))
  {
    hide Ring.Contents, WriterOk;
    ReaderKeepsInv(s);
  }

  /** The handler leaves a ring that holds bytes non-empty. */
  lemma {:induction false} IsrKeepsFilled(s: Sys, passes: seq<Pass>)
    requires Inv(s) && forall p :: p in passes ==> HardwareOk(p.fifo)
    ensures var t := Isr(s, passes).rx;
            t.Ok() && t.outp == s.rx.outp && (s.rx.inp != s.rx.outp ==> t.inp != t.outp)
    decreases |passes|
  {
    hide Ring.Contents, RxDrain, TxDrain, WriterOk, ReaderOk, ReaderStable;
    if passes != [] && (passes[0].ri || passes[0].wi) {
      var p := passes[0];
      IsrPassKeepsInv(s, p);
      IsrPassKeepsCalls(s, p);
      RxDrainMeaning(s.rx, s.popped, 1, p.fifo);
      IsrKeepsFilled(IsrPass(s, p), passes[1..]);
    }
  }

  lemma IsrWillFindBytes(s: Sys, passes: seq<Pass>)
    requires Inv(s) && WillFindBytes(s) && forall p :: p in passes ==> HardwareOk(p.fifo)
    ensures WillFindBytes(Isr(s, passes))
  {
    hide Ring.Contents, WriterOk, Isr;
    IsrKeepsFilled(s, passes);
  }

  /** A read gives up only if the host has stayed away for the whole timeout. */
  lemma {:induction false} ReadGivesUpOnlyAfterTimeout(s: Sys, events: seq<Event>)
    requires Inv(s) && WillFindBytes(s)
    requires forall e :: e in events ==> EventOk(e) && !e.CallRead?
    requires HostInTime(s, events)
    ensures WillFindBytes(Run(s, events)) && !ReadGivenUp(s, events)
  {
    hide Inv, WriterStep, ReaderStep, Isr;
    if events != [] {
      var front, e := events[..|events| - 1], events[|events| - 1];
      assert e in events;
      var t := Run(s, front);
      ReadGivesUpOnlyAfterTimeout(s, front);
      match e
      case ReaderRuns => ReaderWillFindBytes(t);
      case WriterRuns => WriterKeepsSizes(t); WriterKeepsCalls(t);
      case Interrupt(passes) => IsrWillFindBytes(t, passes);
      case _ =>
    }
  }

  // ---------------------------------------------------------------------------------- interrupts

  /** One turn of the handler stores in DATA the oldest unsent bytes, no more than WSPACE of them, and
      without WI none. */
  lemma PassSendsAtMostSpace(s: Sys, p: Pass)
    requires Inv(s) && HardwareOk(p.fifo)
    ensures var s' := IsrPass(s, p);
            && s.sent <= s'.sent <= s.accepted
            && |s'.sent| - |s.sent| == (if !p.wi then 0
                                        else if p.wspace < |s.tx.Contents()| then p.wspace
                                        else |s.tx.Contents()|)
  {
    hide Ring.Contents, RxDrain, TxDrain, WriterOk, ReaderOk;
    IsrPassKeepsInv(s, p);
    IsrPassKeepsCalls(s, p);
    TxDrainMeaning(s.tx, s.sent, p.wspace);
    TxDrainGrows(s.tx, s.sent, p.wspace);
  }

  lemma {:induction false} TxDrainGrows(tx: Ring, sent: seq<byte>, space: nat)
    requires tx.Ok()
    ensures sent <= TxDrain(tx, sent, space).1
    ensures TxDrain(tx, sent, space).2 == if space < |tx.Contents()| then 0 else space - |tx.Contents()|
    decreases space
  {
    hide Ring.Contents;
    if space > 0 && tx.outp != tx.inp {
      TxDrainGrows(tx.Pop(), sent + [tx.buf[tx.outp]], space - 1);
    }
  }

  /** A writer that would go on spinning faces a full ring with transmit interrupts enabled, and the next
      handler turn that finds space in the hardware ends its wait. */
  lemma BlockedWriterIsWoken(s: Sys, p: Pass)
    requires Inv(s) && HardwareOk(p.fifo)
    requires s.w.pc == WSpin || s.w.pc == WSpinHost
    requires s.w.outp == s.tx.outp
    ensures s.tx.Full() && s.control.we
    ensures p.wi && p.wspace > 0 ==> IsrPass(s, p).tx.outp != s.w.outp
  {
    hide RxDrain, ReaderOk;
    IsrPassKeepsInv(s, p);
    PassSendsAtMostSpace(s, p);
    IsrPassKeepsCalls(s, p);
  }

  /** A reader that would go on spinning faces an empty ring with receive interrupts enabled, and the next
      handler turn that finds a byte ends its wait. */
  lemma BlockedReaderIsWoken(s: Sys, p: Pass)
    requires Inv(s) && HardwareOk(p.fifo)
    requires s.r.pc == RSpin || s.r.pc == RSpinHost
    requires s.r.inp == s.rx.inp
    ensures s.rx.Contents() == [] && s.control.re
    ensures p.ri && p.fifo != [] && p.fifo[0].rvalid ==> IsrPass(s, p).rx.inp != s.r.inp
  {
    if p.ri && p.fifo != [] && p.fifo[0].rvalid {
      var q := s.rx.Push(p.fifo[0].data);
      RxDrainMeaning(q, s.popped + [p.fifo[0].data], p.fifo[0].ravail, p.fifo[1..]);
      var rx' := RxDrain(s.rx, s.popped, 1, p.fifo).0;
      assert rx'.Contents() != [] && rx'.outp == s.rx.outp;
    }
  }

  /** The receive side relies on the device: one invalid DATA read that still claims data available turns
      receive interrupts off over an empty ring. */
  lemma InvalidReadMustSayEmpty(s: Sys)
    requires Inv(s) && s.rx.Contents() == []
    ensures var s' := RxPart(s, [DataRead(false, 0, 1)]);
            s'.rx.Contents() == [] && !s'.control.re
  {
  }
}
