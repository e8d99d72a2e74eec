/** The I2C master's polled receive, against a core that produces at most one byte per read command and may
    discard bytes instead of queueing them. */
module I2cReceive {
  import opened Basics

  datatype Status = Success | Busy | Timeout | NackErr | ArbLostErr

  /** A write to the transfer-command FIFO. */
  datatype Command = Command(data: nat, start: bool, stop: bool)

  /** A byte from the bus, and whether the receive FIFO took it. */
  datatype Arrival = Arrival(value: byte, kept: bool)

  function Bytes(arrivals: seq<Arrival>): (r: seq<byte>)
    ensures |r| == |arrivals|
  {
    seq(|arrivals|, i requires 0 <= i < |arrivals| => arrivals[i].value)
  }

  function Kept(arrivals: seq<Arrival>): seq<byte> {
    if arrivals == [] then []
    else
      var a := arrivals[|arrivals| - 1];
      Kept(arrivals[..|arrivals| - 1]) + (if a.kept then [a.value] else [])
  }

  /** A discard leaves a gap that shows in the count. */
  lemma {:induction false} FullCountMeansNoDiscard(arrivals: seq<Arrival>)
    ensures |Kept(arrivals)| <= |arrivals|
    ensures |Kept(arrivals)| == |arrivals| <==> forall a :: a in arrivals ==> a.kept
    ensures |Kept(arrivals)| == |arrivals| ==> Kept(arrivals) == Bytes(arrivals)
  {
    if arrivals != [] {
      var front, a := arrivals[..|arrivals| - 1], arrivals[|arrivals| - 1];
      FullCountMeansNoDiscard(front);
      assert arrivals == front + [a];
      assert Bytes(arrivals) == Bytes(front) + [a.value];
    }
  }

  /** The address byte of a read: the 7-bit address in the upper bits, the read bit below. */
  function AddressByte(target: nat): (b: nat)
    ensures b % 2 == 1 && b < 256
    ensures target < 128 ==> b / 2 == target
  {
    (2 * target + 1) % 256
  }

  lemma AddressByteReads(target: nat)
    ensures AddressByte(target) % 2 == 1
  {
  }

  /** n commands that each fetch a byte. */
  function ReadCommands(n: nat): seq<Command> {
    seq(n, _ => Command(0, false, false))
  }

  lemma OneMoreRead(before: seq<Command>, n: nat)
    ensures before + ReadCommands(0) == before
    ensures before + ReadCommands(n) + [Command(0, false, false)] == before + ReadCommands(n + 1)
  {
  }

  lemma ReceiveIsSent(before: seq<Command>, target: nat, size: nat, restart: bool, stop: bool)
    requires 0 < size
    ensures before + [Command(AddressByte(target), restart, false)] + ReadCommands(size - 1) + [Command(0, false, stop)]
            == before + ReceiveCommands(target, size, restart, stop)
  {
    hide ReadCommands, AddressByte;
  }

  /** The commands of a receive of `size` bytes, the last one with the stop flag. */
  function ReceiveCommands(target: nat, size: nat, restart: bool, stop: bool): seq<Command>
    requires 0 < size
  {
    [Command(AddressByte(target), restart, false)] + ReadCommands(size - 1) + [Command(0, false, stop)]
  }

  /** Command by command: the address byte comes first, with the start flag for a restart; then one read command for
      each byte, of which only the last has the stop flag, if asked for. */
  lemma ReceiveCommandsAre(target: nat, size: nat, restart: bool, stop: bool)
    requires 0 < size
    ensures var cs := ReceiveCommands(target, size, restart, stop);
            && |cs| == size + 1 && cs[0] == Command((2 * target + 1) % 256, restart, false)
            && forall j :: 1 <= j <= size ==> cs[j] == Command(0, false, stop && j == size)
  {
  }

  /** `sent` goes on from `before` with the commands of a receive of `size` bytes. */
  lemma CommandsAdded(before: seq<Command>, sent: seq<Command>, target: nat, size: nat, restart: bool, stop: bool)
    requires 0 < size && sent == before + ReceiveCommands(target, size, restart, stop)
    ensures var n := |before|;
            && |sent| == n + size + 1 && sent[..n] == before
            && sent[n] == Command((2 * target + 1) % 256, restart, false)
            && forall j :: n < j <= n + size ==> sent[j] == Command(0, false, stop && j == n + size)
  {
    hide ReceiveCommands;
    ReceiveCommandsAre(target, size, restart, stop);
    assert forall j :: |before| <= j < |sent| ==> sent[j] == ReceiveCommands(target, size, restart, stop)[j - |before|];
  }

  /** The core. After being enabled, or with the start flag, a command is an address byte, whose low bit says
      whether the commands that follow fetch bytes. */
  class I2cCore {
    const target: nat
    var enabled: bool
    var fifo: seq<byte>
    var outstanding: nat
    var addressNext: bool
    var reading: bool

    /** The commands written; and for the transaction at hand, the read commands issued, the bytes the bus has
        produced for them, and those taken out of the FIFO. */
    ghost var commands: seq<Command>
    ghost var issued: nat
    ghost var arrivals: seq<Arrival>
    ghost var popped: seq<byte>

    ghost predicate Valid()
      reads this
    {
      |arrivals| + outstanding == issued && Kept(arrivals) == popped + fifo
    }

    constructor (t: nat)
      ensures Valid() && fifo == [] && outstanding == 0 && target == t && !enabled
    {
      target, enabled, fifo, outstanding := t, false, [], 0;
      addressNext, reading := false, false;
      commands, issued, arrivals, popped := [], 0, [], [];
    }

    /** What the core may do before any register access: some outstanding reads complete, each byte being
        queued or discarded. */
    method Bus()
      requires Valid()
      modifies `fifo, `outstanding, `arrivals
      ensures Valid() && old(fifo) <= fifo
    {
      var n: nat := *;
      while n > 0 && outstanding > 0
        invariant Valid() && old(fifo) <= fifo
      {
        var a: Arrival := *;
        if a.kept {
          fifo := fifo + [a.value];
        }
        assert (arrivals + [a])[..|arrivals|] == arrivals;
        arrivals := arrivals + [a];
        n, outstanding := n - 1, outstanding - 1;
      }
    }

    /** The level of the receive FIFO. */
    method RxLevel() returns (level: nat)
      requires Valid()
      modifies `fifo, `outstanding, `arrivals
      ensures Valid() && level == |fifo|
    {
      Bus();
      level := |fifo|;
    }

    /** A read of RX_DATA; from an empty FIFO it gives anything. */
    method RxData() returns (b: byte)
      requires Valid()
      modifies `fifo, `popped
      ensures Valid()
      ensures old(fifo) != [] ==> popped == old(popped) + [b] && b == old(fifo)[0]
      ensures old(fifo) == [] ==> popped == old(popped) && fifo == []
    {
      b := *;
      if fifo != [] {
        b := fifo[0];
        popped := popped + [b];
        fifo := fifo[1..];
      }
    }

    /** The core accepts a command. */
    method Accept(c: Command)
      requires Valid()
      modifies `commands, `issued, `outstanding, `addressNext, `reading
      ensures Valid() && commands == old(commands) + [c] && !addressNext
      ensures reading == if old(addressNext) || c.start then c.data % 2 == 1 else old(reading)
      ensures issued == old(issued) + (if old(addressNext) || c.start || !old(reading) then 0 else 1)
    {
      if addressNext || c.start {
        addressNext, reading := false, c.data % 2 == 1;
      } else if reading {
        outstanding, issued := outstanding + 1, issued + 1;
      }
      commands := commands + [c];
    }

    /** Whether the NACK flag is up. */
    method CheckNack(status0: Status) returns (status: Status)
      ensures status == status0 || status == NackErr
    {
      var nack: bool := *;
      status := if nack then NackErr else status0;
    }

    method CheckArbLost(status0: Status) returns (status: Status)
      ensures status == status0 || status == ArbLostErr
    {
      var lost: bool := *;
      status := if lost then ArbLostErr else status0;
    }

    /** `cmd_write`: waits for room, writes the command, and looks for a NACK or a lost arbitration. `looks` counts how
        often there was no room. */
    method CmdWrite(val: nat, start: bool, stop: bool) returns (status: Status, ghost looks: nat)
      requires Valid()
      modifies `commands, `issued, `fifo, `outstanding, `arrivals, `addressNext, `reading
      ensures Valid() && status != Busy && issued <= old(issued) + 1
      ensures old(addressNext) || start ==> issued == old(issued)
      ensures commands == if status == Timeout then old(commands) else old(commands) + [Command(val, start, stop)]
      ensures looks <= 10000 && (status == Timeout <==> looks == 10000)
      ensures status == Timeout ==> issued == old(issued)
      ensures status != Timeout ==>
                && !addressNext
                && reading == (if old(addressNext) || start then val % 2 == 1 else old(reading))
                && issued == old(issued) + (if old(addressNext) || start || !old(reading) then 0 else 1)
    {
      var timeout := 10000;
      looks := 0;
      var ready: bool := *;
      while !ready
        invariant 0 < timeout == 10000 - looks && Valid()
        invariant commands == old(commands) && issued == old(issued)
        invariant addressNext == old(addressNext) && reading == old(reading)
        decreases timeout
      {
        Bus();
        timeout, looks := timeout - 1, looks + 1;
        if timeout == 0 {
          return Timeout, looks;
        }
        ready := *;
      }
      Accept(Command(val, start, stop));
      Bus();
      status := CheckNack(Success);
      status := CheckArbLost(status);
    }

    method Enable() returns (status: Status)
      modifies `enabled, `addressNext
      ensures status == if old(enabled) then Busy else Success
      ensures if old(enabled) then unchanged(this) else enabled && addressNext
    {
      if enabled {
        return Busy;
      }
      enabled, addressNext := true, true;
      return Success;
    }

    /** `rx_read_available`: the bytes queued go to the buffer from `at` on; `max` 0 means all of them. The
        caller's buffer must hold every byte that can arrive. */
    method RxReadAvailable(buffer: array<byte>, at: nat, max: nat) returns (n: nat)
      requires Valid()
      requires at + (issued - |popped|) <= buffer.Length || (0 < max && at + max <= buffer.Length)
      modifies `fifo, `outstanding, `arrivals, `popped, buffer
      ensures Valid() && at + n <= buffer.Length && |popped| == |old(popped)| + n
      ensures popped == old(popped) + buffer[at..at + n]
      ensures forall i :: 0 <= i < buffer.Length && !(at <= i < at + n) ==> buffer[i] == old(buffer[i])
    {
      hide Kept;
      n := 0;
      FullCountMeansNoDiscard(arrivals);
      var level := RxLevel();
      while level != 0
        invariant Valid() && at + n <= buffer.Length && |popped| == |old(popped)| + n && level == |fifo|
        invariant popped == old(popped) + buffer[at..at + n]
        invariant forall i :: 0 <= i < buffer.Length && !(at <= i < at + n) ==> buffer[i] == old(buffer[i])
        invariant max != 0 ==> n < max
        decreases issued - |popped|
      {
        FullCountMeansNoDiscard(arrivals);
        buffer[at + n] := RxData();
        n := n + 1;
        if n == max && max != 0 {
          break;
        }
        level := RxLevel();
        FullCountMeansNoDiscard(arrivals);
      }
    }

    /** `rx_read`: waits for a byte; after too long a wait it takes whatever RX_DATA gives. `looks` counts how often the
        FIFO was empty. */
    method RxRead() returns (val: byte, status: Status, ghost looks: nat)
      requires Valid()
      modifies `fifo, `outstanding, `arrivals, `popped
      ensures Valid() && (status == Success || status == Timeout)
      ensures status == Success ==> popped == old(popped) + [val]
      ensures status == Timeout ==> old(popped) <= popped
      ensures looks <= 100000 && (status == Timeout <==> looks == 100000)
    {
      status := Success;
      var timeout := 100000;
      looks := 0;
      var level := RxLevel();
      while level == 0
        invariant 0 < timeout == 100000 - looks && Valid() && popped == old(popped) && level == |fifo|
        invariant status == Success
        decreases timeout
      {
        timeout, looks := timeout - 1, looks + 1;
        if timeout == 0 {
          status := Timeout;
          break;
        }
        level := RxLevel();
      }
      val := RxData();
    }

    /** Waits until the core is idle, at most `patience` looks (an unsigned 32-bit count, so that 0 is the
        longest wait). */
    method WaitIdle(patience: nat, status0: Status) returns (status: Status)
      requires Valid() && patience < WORD
      modifies `fifo, `outstanding, `arrivals
      ensures Valid() && (status == status0 || status == Timeout)
    {
      status := status0;
      var timeout := patience;
      var busy: bool := *;
      while busy
        invariant Valid() && 0 <= timeout < WORD
        decreases (timeout - 1) % WORD
      {
        Bus();
        timeout := (timeout - 1) % WORD;
        if timeout == 0 {
          status := Timeout;
          break;
        }
        busy := *;
      }
    }

    /** A new transaction has nothing in flight. */
    ghost predicate Quiet()
      reads this
    {
      Valid() && fifo == [] && outstanding == 0
    }

    ghost method ForgetHistory()
      requires Quiet()
      modifies `issued, `arrivals, `popped
      ensures Quiet() && issued == 0 && arrivals == [] && popped == []
    {
      issued, arrivals, popped := 0, [], [];
    }

    /** Commands one more byte, and stores in the buffer what has arrived meanwhile. */
    method CommandByte(buffer: array<byte>, size: nat, from: nat) returns (status: Status, bytesRead: nat)
      requires Valid() && issued < size <= buffer.Length && from <= size && popped == buffer[..from]
      requires reading && !addressNext
      modifies this, buffer
      ensures Valid() && status != Busy && enabled == old(enabled)
      ensures issued <= old(issued) + 1 && bytesRead <= size && popped == buffer[..bytesRead]
      ensures forall i :: size <= i < buffer.Length ==> buffer[i] == old(buffer[i])
      ensures status == Success ==>
                && issued == old(issued) + 1 && reading && !addressNext
                && commands == old(commands) + [Command(0, false, false)]
    {
      hide Kept, Bytes;
      bytesRead := from;
      ghost var looks;
      status, looks := CmdWrite(0, false, false);
      if status == Success {
        FullCountMeansNoDiscard(arrivals);
        var n := RxReadAvailable(buffer, from, 0);
        FullCountMeansNoDiscard(arrivals);
        bytesRead := from + n;
      }
    }

    /** The command phase of a receive: the address, then a read command for each byte, with the bytes that
        arrive meanwhile already stored in the buffer. */
    method SendCommands(buffer: array<byte>, size: nat, restart: bool, stop: bool)
        returns (status: Status, bytesRead: nat)
      requires Quiet() && issued == 0 && arrivals == [] && popped == []
      requires 0 < size < WORD && size <= buffer.Length && (restart || addressNext)
      modifies this, buffer
      ensures Valid() && issued <= size && status != Busy && enabled == old(enabled)
      ensures bytesRead <= size && (status == Success ==> popped == buffer[..bytesRead])
      ensures forall i :: size <= i < buffer.Length ==> buffer[i] == old(buffer[i])
      ensures status == Success ==>
                issued == size && commands == old(commands) + ReceiveCommands(target, size, restart, stop)
    {
      hide Kept, AddressByte, Bytes, ReadCommands, ReceiveCommands;
      AddressByteReads(target);
      ReceiveIsSent(commands, target, size, restart, stop);
      ghost var before := commands + [Command(AddressByte(target), restart, false)];
      bytesRead := 0;
      ghost var looks;
      status, looks := CmdWrite(AddressByte(target), restart, false);
      if status == Success {
        var bytesWritten := 0;
        OneMoreRead(before, 0);
        while bytesWritten < size - 1 && status == Success
          invariant Valid() && bytesWritten <= size - 1 && status != Busy && enabled == old(enabled)
          invariant issued <= bytesWritten && bytesRead <= size && popped == buffer[..bytesRead]
          invariant forall i :: size <= i < buffer.Length ==> buffer[i] == old(buffer[i])
          invariant status == Success ==>
                      && issued == bytesWritten && reading && !addressNext
                      && commands == before + ReadCommands(bytesWritten)
          decreases size - bytesWritten
        {
          OneMoreRead(before, bytesWritten);
          status, bytesRead := CommandByte(buffer, size, bytesRead);
          bytesWritten := bytesWritten + 1;
        }
        if status == Success {
          status, looks := CmdWrite(0, false, stop);
        }
      }
    }

    /** The reading phase of a receive: one byte at a time until the buffer holds `size` or a wait is too long. */
    method ReadRest(buffer: array<byte>, size: nat, from: nat, status0: Status) returns (status: Status)
      requires Valid() && from <= size <= buffer.Length && status0 != Busy
      requires status0 == Success ==> popped == buffer[..from]
      modifies `fifo, `outstanding, `arrivals, `popped, buffer
      ensures Valid() && status != Busy && (status0 != Success ==> status == status0)
      ensures forall i :: size <= i < buffer.Length ==> buffer[i] == old(buffer[i])
      ensures status == Success ==> popped == buffer[..size]
    {
      hide Kept;
      status := status0;
      var bytesRead := from;
      while bytesRead < size && status == Success
        invariant Valid() && bytesRead <= size && status != Busy && (status0 != Success ==> status == status0)
        invariant status == Success ==> popped == buffer[..bytesRead]
        invariant forall i :: size <= i < buffer.Length ==> buffer[i] == old(buffer[i])
        decreases size - bytesRead
      {
        var b;
        ghost var looks;
        b, status, looks := RxRead();
        buffer[bytesRead] := b;
        bytesRead := bytesRead + 1;
      }
    }

    /** `master_receive` */
    method MasterReceive(buffer: array<byte>, size: nat, restart: bool, stop: bool) returns (status: Status)
      requires Quiet() && size < WORD && size <= buffer.Length
      modifies this, buffer
      ensures Valid()
      ensures forall i :: size <= i < buffer.Length ==> buffer[i] == old(buffer[i])
      ensures status == Busy <==> 0 < size && !restart && old(enabled)
      ensures status == Busy || size == 0 ==> enabled == old(enabled) && commands == old(commands)
      ensures size == 0 ==> status == Success
      ensures 0 < size && status != Busy && (stop || status != Success) ==> !enabled
      ensures 0 < size && status == Success && !stop ==> enabled == (old(enabled) || !restart)
      ensures 0 < size && status == Success ==>
                && |arrivals| == size && (forall a :: a in arrivals ==> a.kept)
                && buffer[..size] == Bytes(arrivals) && fifo == []
                && commands == old(commands) + ReceiveCommands(target, size, restart, stop)
      ensures 0 < size && status == Success ==>
                var n := |old(commands)|;
                && |commands| == n + size + 1 && commands[..n] == old(commands)
                && commands[n] == Command((2 * target + 1) % 256, restart, false)
                && forall j :: n < j <= n + size ==> commands[j] == Command(0, false, stop && j == n + size)
    {
      hide Kept, Bytes, ReceiveCommands, AddressByte;
      if size == 0 {
        return Success;
      }
      if !restart {
        status := Enable();
        if status != Success {
          return;
        }
      }
      ForgetHistory();
      var bytesRead;
      status, bytesRead := SendCommands(buffer, size, restart, stop);
      status := ReadRest(buffer, size, bytesRead, status);
      if stop || status != Success {
        status := WaitIdle(10000 * size % WORD, status);
        status := CheckNack(status);
        enabled := false;
      }
      FullCountMeansNoDiscard(arrivals);
      if status == Success {
        CommandsAdded(old(commands), commands, target, size, restart, stop);
      }
    }
  }
}
