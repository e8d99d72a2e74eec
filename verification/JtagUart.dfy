/** The JTAG UART fast driver in its own form: buffers and indices updated in place by the interrupt handler,
    the host timer, `Write` and `Read`. The ghost `history` is the schedule followed since initialisation and
    `sys` the machine state it leads to; the fields always agree with `sys`. The foreground methods let
    handlers strike before every shared access and take one machine step per access. */
module JtagUart {
  import opened Basics
  import opened Rings
  import opened JtagMachine
  import opened JtagProperties

  /** Handlers leave the threads' locals, and what they have published, alone. */
  ghost predicate SameThreads(s: Sys, s': Sys) {
    s'.w == s.w && s'.r == s.r && s'.accepted == s.accepted && s'.delivered == s.delivered
  }

  /** `history` goes on from `past` without a new call. */
  ghost predicate Continues(past: seq<Event>, history: seq<Event>) {
    && past <= history
    && forall i :: |past| <= i < |history| ==> !history[i].CallWrite? && !history[i].CallRead?
  }

  /** Makes any answers those of a device whose invalid DATA reads report nothing available; answers that
      already are stay as they are. */
  function AsDevice(fifo: seq<DataRead>): (r: seq<DataRead>)
    ensures HardwareOk(r) && |r| == |fifo|
    ensures HardwareOk(fifo) ==> r == fifo
  {
    seq(|fifo|, i requires 0 <= i < |fifo| => if fifo[i].rvalid then fifo[i] else fifo[i].(ravail := 0))
  }

  class JtagUart {
    const len: nat
    const txBuf: array<byte>
    const rxBuf: array<byte>
    var rxIn: nat
    var rxOut: nat
    var txIn: nat
    var txOut: nat
    var irqEnable: Enables
    var control: Enables
    var hostInactive: nat
    var timeout: nat

    ghost const origin: Sys
    ghost var history: seq<Event>
    ghost var sys: Sys

    /** The fields are those of machine state `s`. */
    ghost predicate Shows(s: Sys)
      reads this, txBuf, rxBuf
    {
      && txBuf != rxBuf && txBuf.Length == len && rxBuf.Length == len
      && s.tx == Ring(txBuf[..], txIn, txOut) && s.rx == Ring(rxBuf[..], rxIn, rxOut)
      && s.irqEnable == irqEnable && s.control == control
      && s.hostInactive == hostInactive && s.timeout == timeout
    }

    ghost predicate OnSchedule()
      reads this
    {
      && Inv(origin) && (forall e :: e in history ==> EventOk(e))
      && sys == Run(origin, history)
    }

    ghost predicate Valid()
      reads this, txBuf, rxBuf
    {
      OnSchedule() && Shows(sys)
    }

    constructor (n: nat, limit: nat)
      requires 2 <= n
      ensures Valid() && fresh(txBuf) && fresh(rxBuf)
      ensures len == n && history == [] && origin == Init(txBuf[..], rxBuf[..], limit)
    {
      len := n;
      var t := new byte[n];
      var r := new byte[n];
      txBuf, rxBuf := t, r;
      rxIn, rxOut, txIn, txOut := 0, 0, 0, 0;
      irqEnable, control := Enables(true, false), Enables(true, false);
      hostInactive, timeout := 0, limit;
      origin, history, sys := Init(t[..], r[..], limit), [], Init(t[..], r[..], limit);
    }

    /** Records event `e`, once the fields show its effect. */
    ghost method Record(e: Event)
      requires OnSchedule() && EventOk(e) && Shows(Step(sys, e))
      modifies `history, `sys
      ensures Valid() && sys == Step(old(sys), e) && history == old(history) + [e]
    {
      hide Inv, Step, EventOk;
      assert (history + [e])[..|history|] == history;
      history, sys := history + [e], Step(sys, e);
    }

    /** Records a step of the writer. */
    ghost method StepWriter()
      requires OnSchedule() && InvParts(sys) && Shows(WriterStep(sys))
      modifies `history, `sys
      ensures Valid() && sys == WriterStep(old(sys)) && history == old(history) + [WriterRuns]
    {
      hide Inv, WriterStep;
      Record(WriterRuns);
    }

    /** Records a step of the reader. */
    ghost method StepReader()
      requires OnSchedule() && InvParts(sys) && Shows(ReaderStep(sys))
      modifies `history, `sys
      ensures Valid() && sys == ReaderStep(old(sys)) && history == old(history) + [ReaderRuns]
    {
      hide Inv, ReaderStep;
      Record(ReaderRuns);
    }

    // -------------------------------------------------------------------------------- interrupt side

    /** The receive part of one handler turn, from machine state `s`. */
    method ReceivePart(fifo: seq<DataRead>, ghost s: Sys)
      requires Inv(s) && Shows(s) && HardwareOk(fifo)
      modifies `rxIn, `irqEnable, `control, rxBuf
      ensures Shows(RxPart(s, fifo))
    {
      hide Inv, Ring.Contents;
      InvRings(s);
      ghost var goal := RxDrain(s.rx, s.popped, 1, fifo);
      ghost var popped := s.popped;
      var ravail := 1;
      var i := 0;
      while true
        invariant 0 <= i <= |fifo| && Ring(rxBuf[..], rxIn, rxOut).Ok()
        invariant RxDrain(Ring(rxBuf[..], rxIn, rxOut), popped, ravail, fifo[i..]) == goal
        invariant irqEnable == old(irqEnable) && control == old(control)
        decreases |fifo| - i
      {
        var next := Wrap(rxIn + 1, len);
        if next == rxOut {
          break;
        }
        var data := if i < |fifo| then fifo[i] else DataRead(false, 0, 0);
        ravail := data.ravail;
        if !data.rvalid {
          break;
        }
        assert fifo[i..][1..] == fifo[i + 1..];
        ghost var ring := Ring(rxBuf[..], rxIn, rxOut);
        rxBuf[rxIn] := data.data;
        rxIn := Wrap(rxIn + 1, len);
        assert Ring(rxBuf[..], rxIn, rxOut) == ring.Push(data.data);
        popped := popped + [data.data];
        i := i + 1;
      }
      assert goal == (Ring(rxBuf[..], rxIn, rxOut), popped, ravail);
      if ravail != 0 {
        irqEnable := irqEnable.(re := false);
        control := irqEnable;
      }
    }

    /** The transmit part of one handler turn, from machine state `s`. */
    method TransmitPart(wspace: nat, ghost s: Sys)
      requires Inv(s) && Shows(s)
      modifies `txOut, `irqEnable, `control
      ensures Shows(TxPart(s, wspace))
    {
      hide Inv, Ring.Contents;
      InvRings(s);
      ghost var goal := TxDrain(s.tx, s.sent, wspace);
      ghost var sent := s.sent;
      var space := wspace;
      while space > 0 && txOut != txIn
        invariant Ring(txBuf[..], txIn, txOut).Ok()
        invariant TxDrain(Ring(txBuf[..], txIn, txOut), sent, space) == goal
        invariant irqEnable == old(irqEnable) && control == old(control)
        decreases space
      {
        sent := sent + [txBuf[txOut]];
        txOut := Wrap(txOut + 1, len);
        space := space - 1;
      }
      if space > 0 {
        irqEnable := irqEnable.(we := false);
        control := irqEnable;
      }
    }

    /** The interrupt handler. */
    method Irq(passes: seq<Pass>)
      requires Valid() && EventOk(Interrupt(passes))
      modifies this, rxBuf
      ensures Valid() && sys == Isr(old(sys), passes) && history == old(history) + [Interrupt(passes)]
    {
      hide Inv, Ring.Contents, RxDrain, TxDrain, RxPart, TxPart;
      ghost var s := sys;
      var i := 0;
      while i < |passes| && (passes[i].ri || passes[i].wi)
        invariant 0 <= i <= |passes| && OnSchedule() && Inv(s) && Shows(s)
        invariant history == old(history) && sys == old(sys)
        invariant forall p :: p in passes[i..] ==> HardwareOk(p.fifo)
        invariant Isr(s, passes[i..]) == Isr(sys, passes)
      {
        var p := passes[i];
        assert passes[i..][0] == p && passes[i..][1..] == passes[i + 1..];
        InvRings(s);
        IsrPassKeepsInv(s, p);
        IsrPassKeepsInv(s, p.(wi := false));
        assert Isr(s, passes[i..]) == Isr(IsrPass(s, p), passes[i + 1..]);
        if p.ri {
          ReceivePart(p.fifo, s);
        }
        if p.wi {
          TransmitPart(p.wspace, if p.ri then RxPart(s, p.fifo) else s);
        }
        s := IsrPass(s, p);
        i := i + 1;
      }
      Record(Interrupt(passes));
    }

    /** The one-second alarm. */
    method Timeout(ac: bool)
      requires Valid()
      modifies this
      ensures Valid() && sys == Timer(old(sys), ac) && history == old(history) + [Second(ac)]
    {
      hide Inv, Ring.Contents;
      if ac {
        control := irqEnable;
        hostInactive := 0;
      } else if hostInactive < INT_MAX - 2 {
        hostInactive := hostInactive + 1;
      }
      Record(Second(ac));
    }

    /** Any number of handlers, with any device answers, strike before the next shared access. */
    method Interrupts()
      requires Valid()
      modifies this, rxBuf
      ensures Valid() && SameThreads(old(sys), sys) && Continues(old(history), history)
    {
      hide Inv, Ring.Contents, IsrPass;
      var strikes: nat := *;
      while strikes > 0
        invariant Valid() && SameThreads(old(sys), sys) && Continues(old(history), history)
      {
        if * {
          var passes: seq<Pass> := *;
          Irq(seq(|passes|, i requires 0 <= i < |passes| => passes[i].(fifo := AsDevice(passes[i].fifo))));
        } else {
          var ac: bool := *;
          Timeout(ac);
        }
        strikes := strikes - 1;
      }
    }

    // ----------------------------------------------------------- one shared access of the foreground each

    method LoadTxIn() returns (inp: nat)
      requires Valid() && sys.w.pc == WLoadIn
      modifies this, rxBuf
      ensures Valid() && sys.w == old(sys.w).(pc := WLoadOut, inp := inp) && Continues(old(history), history)
    {
      hide Inv, Ring.Contents, Step;
      Interrupts();
      InvRings(sys);
      inp := txIn;
      StepWriter();
    }

    method LoadTxOut(inp: nat, count: nat) returns (out: nat, n: nat)
      requires Valid() && sys.w.pc == WLoadOut && sys.w.inp == inp && count == |sys.w.data| - sys.w.ptr
      modifies this, rxBuf
      ensures Valid() && Continues(old(history), history)
      ensures n <= count
      ensures sys.w == old(sys.w).(pc := if n == 0 then WEnable else WCopy, outp := out, n := n, k := 0)
    {
      hide Inv, Ring.Contents, Step;
      Interrupts();
      InvRings(sys);
      out := txOut;
      n := FreeRun(inp, out, len);
      StepWriter();
      if n > count {
        n := count;
      }
    }

    method StoreTx(inp: nat, k: nat, b: byte)
      requires Valid() && sys.w.pc == WCopy && sys.w.inp == inp && sys.w.k == k
      requires sys.w.ptr + k < |sys.w.data| && b == sys.w.data[sys.w.ptr + k]
      modifies this, txBuf, rxBuf
      ensures Valid() && Continues(old(history), history)
      ensures sys.w == old(sys.w).(pc := if k + 1 == sys.w.n then WPublish else WCopy, k := k + 1)
    {
      hide Inv, Ring.Contents, Step;
      Interrupts();
      InvRings(sys);
      txBuf[inp + k] := b;
      StepWriter();
    }

    method PublishTx(inp: nat, n: nat)
      requires Valid() && sys.w.pc == WPublish && sys.w.inp == inp && sys.w.n == n
      modifies this, rxBuf
      ensures Valid() && Continues(old(history), history)
      ensures sys.w == old(sys.w).(pc := if sys.w.ptr < |sys.w.data| then WLoadIn else WEnable,
                                   ptr := old(sys.w).ptr + n, dirty := true)
      ensures sys.w.ptr <= |sys.w.data|
    {
      hide Inv, Ring.Contents, Step;
      Interrupts();
      InvRings(sys);
      txIn := Wrap(inp + n, len);
      StepWriter();
    }

    method EnableWe()
      requires Valid() && sys.w.pc == WEnable
      modifies this, rxBuf
      ensures Valid() && Continues(old(history), history)
      ensures sys.w == if old(sys.w).ptr == |old(sys.w).data| || old(sys.w).nonblock
                       then FinishWrite(old(sys.w).(dirty := false))
                       else old(sys.w).(pc := WSpin, dirty := false)
    {
      hide Inv, Ring.Contents, Step;
      Interrupts();
      InvRings(sys);
      irqEnable := irqEnable.(we := true);
      control := irqEnable;
      StepWriter();
    }

    method LookForRoom(out: nat) returns (same: bool)
      requires Valid() && sys.w.pc == WSpin && sys.w.outp == out
      modifies this, rxBuf
      ensures Valid() && sys.w == old(sys.w).(pc := if same then WSpinHost else WCheckHost)
      ensures Continues(old(history), history)
    {
      hide Inv, Ring.Contents, Step;
      Interrupts();
      InvRings(sys);
      same := out == txOut;
      StepWriter();
    }

    method LookForHost() returns (there: bool)
      requires Valid() && sys.w.pc == WSpinHost
      modifies this, rxBuf
      ensures Valid() && sys.w == old(sys.w).(pc := if there then WSpin else WCheckHost)
      ensures Continues(old(history), history)
    {
      hide Inv, Ring.Contents, Step;
      Interrupts();
      InvRings(sys);
      there := hostInactive < timeout;
      StepWriter();
    }

    /** The spin of a blocked write. It ends when the handler has made room or the host has gone; `moved` is
        false if that has not been seen after some number of looks. */
    method SpinForRoom(out: nat) returns (moved: bool)
      requires Valid() && sys.w.pc == WSpin && sys.w.outp == out
      modifies this, rxBuf
      ensures Valid() && sys.w == old(sys.w).(pc := if moved then WCheckHost else WSpin)
      ensures Continues(old(history), history)
    {
      hide Inv, Valid;
      var looks: nat := *;
      while looks > 0
        invariant Valid() && sys.w == old(sys.w) && Continues(old(history), history)
      {
        var same := LookForRoom(out);
        if !same {
          return true;
        }
        var there := LookForHost();
        if !there {
          return true;
        }
        looks := looks - 1;
      }
      moved := false;
    }

    method CheckHost() returns (gone: bool)
      requires Valid() && sys.w.pc == WCheckHost
      modifies this, rxBuf
      ensures Valid() && Continues(old(history), history)
      ensures sys.w == if gone then FinishWrite(old(sys.w)) else old(sys.w).(pc := WLoadIn)
    {
      hide Inv, Ring.Contents, Step;
      Interrupts();
      InvRings(sys);
      gone := hostInactive != 0;
      StepWriter();
    }

    method LoadRxIn() returns (inp: nat)
      requires Valid() && sys.r.pc == RLoadIn
      modifies this, rxBuf
      ensures Valid() && sys.r == old(sys.r).(pc := RLoadOut, inp := inp) && Continues(old(history), history)
    {
      hide Inv, Ring.Contents, Step;
      Interrupts();
      InvRings(sys);
      inp := rxIn;
      StepReader();
    }

    method LoadRxOut(inp: nat, space: nat) returns (out: nat, n: nat)
      requires Valid() && sys.r.pc == RLoadOut && sys.r.inp == inp && space == sys.r.space
      modifies this, rxBuf
      ensures Valid() && Continues(old(history), history)
      ensures n <= space
      ensures var r := old(sys.r).(outp := out, n := n, chunk := []);
              sys.r == if n == 0 then AfterDrain(r) else r.(pc := RCopy)
    {
      hide Inv, Ring.Contents, Step;
      Interrupts();
      InvRings(sys);
      out := rxOut;
      n := FilledRun(inp, out, len);
      StepReader();
      if n > space {
        n := space;
      }
    }

    method LoadRx(out: nat, k: nat) returns (b: byte)
      requires Valid() && sys.r.pc == RCopy && sys.r.outp == out && |sys.r.chunk| == k
      modifies this, rxBuf
      ensures Valid() && Continues(old(history), history)
      ensures sys.r == old(sys.r).(pc := if k + 1 == sys.r.n then RPublish else RCopy, chunk := old(sys.r).chunk + [b])
    {
      hide Inv, Ring.Contents, Step;
      Interrupts();
      InvRings(sys);
      b := rxBuf[out + k];
      StepReader();
    }

    method ReleaseRx(out: nat, n: nat)
      requires Valid() && sys.r.pc == RPublish && sys.r.outp == out && sys.r.n == n <= sys.r.space
      modifies this, rxBuf
      ensures Valid() && Continues(old(history), history)
      ensures var was := old(sys.r);
              var r := was.(got := was.got + was.chunk, space := was.space - n, chunk := []);
              sys.r == if r.space > 0 then r.(pc := RLoadIn) else AfterDrain(r)
    {
      hide Inv, Ring.Contents, Step;
      Interrupts();
      InvRings(sys);
      rxOut := Wrap(out + n, len);
      StepReader();
    }

    method LookForBytes(inp: nat) returns (same: bool)
      requires Valid() && sys.r.pc == RSpin && sys.r.inp == inp
      modifies this, rxBuf
      ensures Valid() && sys.r == old(sys.r).(pc := if same then RSpinHost else RRecheck)
      ensures Continues(old(history), history)
    {
      hide Inv, Ring.Contents, Step;
      Interrupts();
      InvRings(sys);
      same := inp == rxIn;
      StepReader();
    }

    method LookForReadHost() returns (there: bool)
      requires Valid() && sys.r.pc == RSpinHost
      modifies this, rxBuf
      ensures Valid() && sys.r == old(sys.r).(pc := if there then RSpin else RRecheck)
      ensures Continues(old(history), history)
    {
      hide Inv, Ring.Contents, Step;
      Interrupts();
      InvRings(sys);
      there := hostInactive < timeout;
      StepReader();
    }

    /** The spin of a blocked read. */
    method SpinForBytes(inp: nat) returns (moved: bool)
      requires Valid() && sys.r.pc == RSpin && sys.r.inp == inp
      modifies this, rxBuf
      ensures Valid() && sys.r == old(sys.r).(pc := if moved then RRecheck else RSpin)
      ensures Continues(old(history), history)
    {
      hide Inv, Valid;
      var looks: nat := *;
      while looks > 0
        invariant Valid() && sys.r == old(sys.r) && Continues(old(history), history)
      {
        var same := LookForBytes(inp);
        if !same {
          return true;
        }
        var there := LookForReadHost();
        if !there {
          return true;
        }
        looks := looks - 1;
      }
      moved := false;
    }

    method RecheckRxIn(inp: nat) returns (same: bool)
      requires Valid() && sys.r.pc == RRecheck && sys.r.inp == inp
      modifies this, rxBuf
      ensures Valid() && Continues(old(history), history)
      ensures sys.r == if same then FinishRead(old(sys.r)) else old(sys.r).(pc := RLoadIn)
    {
      hide Inv, Ring.Contents, Step;
      Interrupts();
      InvRings(sys);
      same := inp == rxIn;
      StepReader();
    }

    method EnableRe()
      requires Valid() && sys.r.pc == REnable
      modifies this, rxBuf
      ensures Valid() && sys.r == FinishRead(old(sys.r)) && Continues(old(history), history)
    {
      hide Inv, Ring.Contents, Step;
      Interrupts();
      InvRings(sys);
      irqEnable := irqEnable.(re := true);
      control := irqEnable;
      StepReader();
    }

    // ------------------------------------------------------------------------------------ foreground

    /** The call that `w` is executing, apart from its progress. */
    ghost predicate SameWriteCall(w: Writer, w': Writer) {
      w'.data == w.data && w'.nonblock == w.nonblock && w'.before == w.before
    }

    /** The inner loop of a write: fills the ring until it looks full or the data is used up. `out` is the
        last consumer index it saw. */
    method Fill(data: seq<byte>, start: nat) returns (ptr: nat, out: nat)
      requires Valid() && sys.w.data == data && sys.w.ptr == start <= |data|
      requires sys.w.pc == if start < |data| then WLoadIn else WEnable
      modifies this, txBuf, rxBuf
      ensures Valid() && SameWriteCall(old(sys.w), sys.w) && Continues(old(history), history)
      ensures sys.w.pc == WEnable && sys.w.ptr == ptr <= |data|
      ensures ptr < |data| ==> sys.w.outp == out
    {
      hide Inv, Valid;
      ptr, out := start, 0;
      while ptr < |data|
        invariant Valid() && SameWriteCall(old(sys.w), sys.w) && Continues(old(history), history)
        invariant sys.w.ptr == ptr <= |data| && sys.w.pc == if ptr < |data| then WLoadIn else WEnable
        decreases |data| - ptr
      {
        var inp := LoadTxIn();
        var n;
        out, n := LoadTxOut(inp, |data| - ptr);
        if n == 0 {
          break;
        }
        for k := 0 to n
          invariant Valid() && SameWriteCall(old(sys.w), sys.w) && Continues(old(history), history)
          invariant sys.w.pc == (if k < n then WCopy else WPublish) && sys.w.inp == inp
          invariant sys.w.n == n && sys.w.k == k && sys.w.ptr == ptr
        {
          StoreTx(inp, k, data[ptr + k]);
        }
        ptr := ptr + n;
        PublishTx(inp, n);
      }
    }

    /** The fast write. `done` is false for a call that is still spinning. */
    method Write(data: seq<byte>, nonblock: bool) returns (result: int, done: bool)
      requires Valid() && sys.w.pc == WIdle
      modifies this, txBuf, rxBuf
      ensures Valid() && Continues(old(history) + [CallWrite(data, nonblock)], history)
      ensures sys.w.pc == if done then WIdle else WSpin
      ensures sys.w.ptr <= |data| && sys.accepted == old(sys.accepted) + data[..sys.w.ptr]
      ensures done ==> result == CallResult(sys.w.ptr, nonblock)
    {
      hide Inv, Valid;
      ghost var call := BeginWrite(data, nonblock);
      ghost var start := history;
      var ptr: nat, out: nat, rounds: nat := 0, 0, *;
      while true
        invariant Valid() && SameWriteCall(call, sys.w) && Continues(start, history)
        invariant sys.w.ptr == ptr <= |data| && sys.w.pc == if ptr < |data| then WLoadIn else WEnable
        decreases rounds
      {
        ptr, out := Fill(data, ptr);
        EnableWe();
        if ptr == |data| || nonblock {
          break;
        }
        var moved := false;
        if rounds > 0 {
          moved := SpinForRoom(out);
        }
        if !moved {
          WriteSoFar(call);
          return 0, false;
        }
        var gone := CheckHost();
        if gone {
          break;
        }
        rounds := rounds - 1;
      }
      WriteSoFar(call);
      result := if ptr != 0 then ptr else if nonblock then -EWOULDBLOCK else -EIO;
      done := true;
    }

    ghost method BeginWrite(data: seq<byte>, nonblock: bool) returns (call: Writer)
      requires Valid() && sys.w.pc == WIdle
      modifies `history, `sys
      ensures Valid() && history == old(history) + [CallWrite(data, nonblock)]
      ensures call == sys.w == StartWrite(old(sys), data, nonblock).w
    {
      hide Inv, Ring.Contents;
      Record(CallWrite(data, nonblock));
      call := sys.w;
    }

    lemma WriteSoFar(call: Writer)
      requires Valid() && SameWriteCall(call, sys.w)
      ensures sys.w.ptr <= |call.data| && sys.accepted == call.before + call.data[..sys.w.ptr]
      ensures sys.w.pc == WIdle ==> sys.w.result == CallResult(sys.w.ptr, call.nonblock)
    {
      hide Ring.Contents;
    }

    /** The call that `r` is executing, apart from its progress. */
    ghost predicate SameReadCall(r: Reader, r': Reader) {
      r'.asked == r.asked && r'.nonblock == r.nonblock && r'.before == r.before
    }

    /** The inner loop of a read: drains the ring until it looks empty or the buffer is full. `inp` is the
        last producer index it saw. */
    method Drain(buffer: array<byte>, asked: nat) returns (ptr: nat, inp: nat)
      requires Valid() && sys.r.pc == RLoadIn && sys.r.space == asked && sys.r.got == []
      requires 0 < asked <= buffer.Length && buffer != txBuf && buffer != rxBuf
      modifies this, rxBuf, buffer
      ensures Valid() && SameReadCall(old(sys.r), sys.r) && Continues(old(history), history)
      ensures sys.r.pc == if ptr > 0 then REnable else if sys.r.nonblock then RIdle else RSpin
      ensures ptr == 0 ==> sys.r.inp == inp && sys.r.space == asked
      ensures ptr <= asked && sys.r.got == buffer[..ptr]
      ensures forall i :: ptr <= i < buffer.Length ==> buffer[i] == old(buffer[i])
    {
      hide Inv, Valid;
      var space := asked;
      ptr, inp := 0, 0;
      while true
        invariant Valid() && SameReadCall(old(sys.r), sys.r) && Continues(old(history), history)
        invariant sys.r.pc == RLoadIn && sys.r.space == space && ptr + space == asked && 0 < space
        invariant sys.r.got == buffer[..ptr]
        invariant forall i :: ptr <= i < buffer.Length ==> buffer[i] == old(buffer[i])
        decreases space
      {
        inp := LoadRxIn();
        var out, n := LoadRxOut(inp, space);
        if n == 0 {
          break;
        }
        for k := 0 to n
          invariant Valid() && SameReadCall(old(sys.r), sys.r) && Continues(old(history), history)
          invariant sys.r.pc == (if k < n then RCopy else RPublish) && sys.r.outp == out
          invariant sys.r.n == n && sys.r.space == space
          invariant sys.r.got == buffer[..ptr] && sys.r.chunk == buffer[ptr..ptr + k]
          invariant forall i :: ptr + k <= i < buffer.Length ==> buffer[i] == old(buffer[i])
        {
          var b := LoadRx(out, k);
          StoreInBuffer(buffer, ptr, k, b);
        }
        assert buffer[..ptr + n] == buffer[..ptr] + buffer[ptr..ptr + n];
        ptr := ptr + n;
        space := space - n;
        ReleaseRx(out, n);
        if space == 0 {
          break;
        }
      }
    }

    /** Stores the next byte of a chunk in the caller's buffer. */
    method StoreInBuffer(buffer: array<byte>, ptr: nat, k: nat, b: byte)
      requires Valid() && ptr + k < buffer.Length && buffer != txBuf && buffer != rxBuf
      modifies buffer
      ensures Valid()
      ensures buffer[..ptr] == old(buffer[..ptr]) && buffer[ptr..ptr + k + 1] == old(buffer[ptr..ptr + k]) + [b]
      ensures forall i :: ptr + k < i < buffer.Length ==> buffer[i] == old(buffer[i])
    {
      hide Inv;
      buffer[ptr + k] := b;
    }

    /** The fast read, into the caller's buffer of `space` bytes. */
    method Read(buffer: array<byte>, space: int, nonblock: bool) returns (result: int, done: bool)
      requires Valid() && sys.r.pc == RIdle && buffer != txBuf && buffer != rxBuf && space <= buffer.Length
      modifies this, rxBuf, buffer
      ensures Valid() && Continues(old(history) + [CallRead(space, nonblock)], history)
      ensures sys.r.pc == if done then RIdle else RSpin
      ensures |sys.r.got| <= (if space > 0 then space else 0) && |sys.r.got| <= buffer.Length
      ensures sys.delivered == old(sys.delivered) + buffer[..|sys.r.got|]
      ensures forall i :: |sys.r.got| <= i < buffer.Length ==> buffer[i] == old(buffer[i])
      ensures done ==> result == CallResult(|sys.r.got|, nonblock)
    {
      hide Inv, Valid;
      ghost var call := BeginRead(space, nonblock);
      ghost var start := history;
      var ptr: nat, inp: nat, rounds: nat := 0, 0, *;
      while space > 0
        invariant Valid() && SameReadCall(call, sys.r) && Continues(start, history)
        invariant sys.r.pc == if space > 0 then RLoadIn else RIdle
        invariant ptr == 0 && sys.r.got == [] && (space > 0 ==> sys.r.space == space)
        invariant forall i :: 0 <= i < buffer.Length ==> buffer[i] == old(buffer[i])
        decreases rounds
      {
        ptr, inp := Drain(buffer, space);
        if ptr != 0 || nonblock {
          break;
        }
        var moved := false;
        if rounds > 0 {
          moved := SpinForBytes(inp);
        }
        if !moved {
          ReadSoFar(call);
          return 0, false;
        }
        var same := RecheckRxIn(inp);
        if same {
          break;
        }
        rounds := rounds - 1;
      }
      if ptr != 0 {
        EnableRe();
      }
      ReadSoFar(call);
      result := if ptr != 0 then ptr else if nonblock then -EWOULDBLOCK else -EIO;
      done := true;
    }

    ghost method BeginRead(space: int, nonblock: bool) returns (call: Reader)
      requires Valid() && sys.r.pc == RIdle
      modifies `history, `sys
      ensures Valid() && history == old(history) + [CallRead(space, nonblock)]
      ensures call == sys.r == StartRead(old(sys), space, nonblock).r
    {
      hide Inv, Ring.Contents;
      Record(CallRead(space, nonblock));
      call := sys.r;
    }

    lemma ReadSoFar(call: Reader)
      requires Valid() && SameReadCall(call, sys.r)
      ensures |sys.r.got| <= call.asked && sys.delivered == call.before + sys.r.got
      ensures sys.r.pc == RIdle ==> sys.r.result == CallResult(|sys.r.got|, call.nonblock)
    {
      hide Ring.Contents;
    }
  }
}
