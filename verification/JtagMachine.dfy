/** The JTAG UART fast driver as an interleaved machine: a writer thread, a reader thread, the
    interrupt handler and the one-second host timer. A foreground step performs one shared load or
    store; the interrupt handler and the timer run as one step each, at any point in between. */
module JtagMachine {
  import opened Basics
  import opened Rings

  /** The RE and WE bits of the CONTROL register. */
  datatype Enables = Enables(re: bool, we: bool)

  datatype WriterPc = WIdle | WLoadIn | WLoadOut | WCopy | WPublish | WEnable | WSpin | WSpinHost | WCheckHost

  /** The writer's locals. `ptr` counts the bytes of `data` already published, `k` those of the
      current chunk already copied. `before` and `dirty` are history: what was accepted before this
      call, and whether something was published since WE was last set. */
  datatype Writer = Writer(pc: WriterPc, data: seq<byte>, nonblock: bool, ptr: nat, inp: nat, outp: nat,
                           n: nat, k: nat, result: int, before: seq<byte>, dirty: bool)

  datatype ReaderPc = RIdle | RLoadIn | RLoadOut | RCopy | RPublish | RSpin | RSpinHost | RRecheck | REnable

  /** The reader's locals. `asked` is the size of the caller's buffer, `space` what is left of it, `got` its
      filled part up to `ptr`, `chunk` what the current copy has put behind it. `before` is history: what
      earlier calls delivered. */
  datatype Reader = Reader(pc: ReaderPc, asked: nat, space: nat, nonblock: bool, got: seq<byte>, inp: nat, outp: nat,
                           n: nat, chunk: seq<byte>, result: int, before: seq<byte>)

  /** The driver's shared state, the two threads, and four histories: bytes published by writers, bytes
      stored in the DATA register, bytes popped from the hardware FIFO, bytes released by readers. */
  datatype Sys = Sys(tx: Ring, rx: Ring, irqEnable: Enables, control: Enables, hostInactive: nat, timeout: nat,
                     w: Writer, r: Reader,
                     accepted: seq<byte>, sent: seq<byte>, popped: seq<byte>, delivered: seq<byte>)

  /** Sets the shadow `irq_enable` and writes it to the CONTROL register. */
  function SetEnables(s: Sys, e: Enables): Sys {
    s.(irqEnable := e, control := e)
  }

  // ----------------------------------------------------------------------------- foreground write

  function StartWrite(s: Sys, data: seq<byte>, nonblock: bool): Sys {
    s.(w := Writer(if data == [] then WEnable else WLoadIn, data, nonblock, 0, 0, 0, 0, 0,
                   0, s.accepted, false))
  }

  /** What a call returns after `moved` bytes. */
  function CallResult(moved: nat, nonblock: bool): int {
    if moved != 0 then moved else if nonblock then -EWOULDBLOCK else -EIO
  }

  function FinishWrite(w: Writer): Writer {
    w.(pc := WIdle, result := CallResult(w.ptr, w.nonblock))
  }

  function WriterStep(s: Sys): Sys
    requires s.tx.Ok() && WriterOk(s.tx, s.w, s.accepted)
  {
    var w := s.w;
    var len := |s.tx.buf|;
    match w.pc
    case WIdle => s
    case WLoadIn => s.(w := w.(pc := WLoadOut, inp := s.tx.inp))
    case WLoadOut =>
      var n := FreeRun(w.inp, s.tx.outp, len);
      var n' := if n > |w.data| - w.ptr then |w.data| - w.ptr else n;
      s.(w := w.(pc := if n == 0 then WEnable else WCopy, outp := s.tx.outp, n := n', k := 0))
    case WCopy =>
      s.(tx := s.tx.(buf := s.tx.buf[w.inp + w.k := w.data[w.ptr + w.k]]),
         w := w.(pc := if w.k + 1 == w.n then WPublish else WCopy, k := w.k + 1))
    case WPublish =>
      s.(tx := s.tx.(inp := Wrap(w.inp + w.n, len)),
         accepted := s.accepted + w.data[w.ptr..w.ptr + w.n],
         w := w.(pc := if w.ptr + w.n < |w.data| then WLoadIn else WEnable, ptr := w.ptr + w.n, dirty := true))
    case WEnable =>
      var s' := SetEnables(s, s.irqEnable.(we := true));
      if w.ptr == |w.data| || w.nonblock
      then s'.(w := FinishWrite(w.(dirty := false)))
      else s'.(w := w.(pc := WSpin, dirty := false))
    case WSpin => s.(w := w.(pc := if w.outp == s.tx.outp then WSpinHost else WCheckHost))
    case WSpinHost => s.(w := w.(pc := if s.hostInactive < s.timeout then WSpin else WCheckHost))
    case WCheckHost => s.(w := if s.hostInactive != 0 then FinishWrite(w) else w.(pc := WLoadIn))
  }

  // ------------------------------------------------------------------------------ foreground read

  function FinishRead(r: Reader): Reader {
    r.(pc := RIdle, result := CallResult(|r.got|, r.nonblock))
  }

  function StartRead(s: Sys, space: int, nonblock: bool): Sys {
    var asked := if space > 0 then space else 0;
    var r := Reader(RLoadIn, asked, asked, nonblock, [], 0, 0, 0, [], 0, s.delivered);
    s.(r := if space > 0 then r else FinishRead(r))
  }

  /** What follows the inner drain loop. */
  function AfterDrain(r: Reader): Reader {
    if r.got != [] then r.(pc := REnable)
    else if r.nonblock then FinishRead(r)
    else r.(pc := RSpin)
  }

  function ReaderStep(s: Sys): Sys
    requires s.rx.Ok() && ReaderOk(s.rx, s.r, s.delivered)
  {
    var r := s.r;
    var len := |s.rx.buf|;
    match r.pc
    case RIdle => s
    case RLoadIn => s.(r := r.(pc := RLoadOut, inp := s.rx.inp))
    case RLoadOut =>
      var n := FilledRun(r.inp, s.rx.outp, len);
      var r' := r.(outp := s.rx.outp, n := if n > r.space then r.space else n, chunk := []);
      s.(r := if n == 0 then AfterDrain(r') else r'.(pc := RCopy))
    case RCopy =>
      var chunk := r.chunk + [s.rx.buf[r.outp + |r.chunk|]];
      s.(r := r.(pc := if |chunk| == r.n then RPublish else RCopy, chunk := chunk))
    case RPublish =>
      var r' := r.(got := r.got + r.chunk, space := r.space - r.n, chunk := []);
      s.(rx := s.rx.(outp := Wrap(r.outp + r.n, len)),
         delivered := s.delivered + r.chunk,
         r := if r'.space > 0 then r'.(pc := RLoadIn) else AfterDrain(r'))
    case RSpin => s.(r := r.(pc := if r.inp == s.rx.inp then RSpinHost else RRecheck))
    case RSpinHost => s.(r := r.(pc := if s.hostInactive < s.timeout then RSpin else RRecheck))
    case RRecheck => s.(r := if r.inp == s.rx.inp then FinishRead(r) else r.(pc := RLoadIn))
    case REnable => SetEnables(s, s.irqEnable.(re := true)).(r := FinishRead(r))
  }

  // -------------------------------------------------------------------------------- interrupt side

  /** One read of the DATA register. */
  datatype DataRead = DataRead(rvalid: bool, data: byte, ravail: nat)

  /** One turn of the handler's outer loop: the RI, WI and WSPACE fields of its CONTROL read and the
      DATA reads it would see. When `fifo` runs out, the FIFO is empty. */
  datatype Pass = Pass(ri: bool, wi: bool, wspace: nat, fifo: seq<DataRead>)

  /** An invalid DATA read says that nothing is available. */
  ghost predicate HardwareOk(fifo: seq<DataRead>) {
    forall i :: 0 <= i < |fifo| && !fifo[i].rvalid ==> fifo[i].ravail == 0
  }

  /** The receive loop: ring, popped bytes, and the RAVAIL field of the last DATA read (1 if none). */
  function RxDrain(rx: Ring, popped: seq<byte>, ravail: nat, fifo: seq<DataRead>): (Ring, seq<byte>, nat)
    requires rx.Ok()
    decreases |fifo|
  {
    if rx.Full() then (rx, popped, ravail)
    else if fifo == [] then (rx, popped, 0)
    else if !fifo[0].rvalid then (rx, popped, fifo[0].ravail)
    else RxDrain(rx.Push(fifo[0].data), popped + [fifo[0].data], fifo[0].ravail, fifo[1..])
  }

  /** The transmit loop: ring, bytes stored in DATA, and the space left. */
  function TxDrain(tx: Ring, sent: seq<byte>, space: nat): (Ring, seq<byte>, nat)
    requires tx.Ok()
    decreases space
  {
    if space > 0 && tx.outp != tx.inp then TxDrain(tx.Pop(), sent + [tx.buf[tx.outp]], space - 1)
    else (tx, sent, space)
  }

  function RxPart(s: Sys, fifo: seq<DataRead>): Sys
    requires s.rx.Ok()
  {
    var (rx, popped, ravail) := RxDrain(s.rx, s.popped, 1, fifo);
    var s' := s.(rx := rx, popped := popped);
    if ravail != 0 then SetEnables(s', s.irqEnable.(re := false)) else s'
  }

  function TxPart(s: Sys, wspace: nat): Sys
    requires s.tx.Ok()
  {
    var (tx, sent, space) := TxDrain(s.tx, s.sent, wspace);
    var s' := s.(tx := tx, sent := sent);
    if space > 0 then SetEnables(s', s.irqEnable.(we := false)) else s'
  }

  function IsrPass(s: Sys, p: Pass): Sys
    requires s.tx.Ok() && s.rx.Ok()
  {
    var s1 := if p.ri then RxPart(s, p.fifo) else s;
    if p.wi then TxPart(s1, p.wspace) else s1
  }

  /** The whole handler; it returns at the first CONTROL read with neither RI nor WI. */
  function Isr(s: Sys, passes: seq<Pass>): Sys
    requires Inv(s)
    requires forall p :: p in passes ==> HardwareOk(p.fifo)
    ensures Inv(Isr(s, passes)) && SameCalls(s, Isr(s, passes))
    decreases |passes|
  {
    if passes == [] || !(passes[0].ri || passes[0].wi) then s
    else
      IsrPassKeepsInv(s, passes[0]);
      IsrPassKeepsCalls(s, passes[0]);
      Isr(IsrPass(s, passes[0]), passes[1..])
  }

  const INT_MAX: nat := 0x7fff_ffff

  /** The one-second alarm: AC says the host has been there. */
  function Timer(s: Sys, ac: bool): Sys {
    if ac then s.(control := s.irqEnable, hostInactive := 0)
    else if s.hostInactive < INT_MAX - 2 then s.(hostInactive := s.hostInactive + 1)
    else s
  }

  // ------------------------------------------------------------------------------------ invariant

  /** Where the writer is: it has published exactly data[..ptr], its copy goes to free slots, and it
      blocks only on a ring that its last snapshot found full. */
  ghost predicate WriterOk(tx: Ring, w: Writer, accepted: seq<byte>)
    requires tx.Ok()
  {
    && w.ptr <= |w.data|
    && accepted == w.before + w.data[..w.ptr]
    && match w.pc
       case WIdle => !w.dirty && w.result == CallResult(w.ptr, w.nonblock)
       case WLoadIn => w.ptr < |w.data|
       case WLoadOut => w.ptr < |w.data| && w.inp == tx.inp
       case WCopy => CopyOk(tx, w) && w.k < w.n
       case WPublish => CopyOk(tx, w) && w.k == w.n
       case WEnable => w.ptr < |w.data| ==> StaleFull(tx, w)
       case WSpin => WaitOk(w) && StaleFull(tx, w)
       case WSpinHost => WaitOk(w) && StaleFull(tx, w)
       case WCheckHost => WaitOk(w)
  }

  ghost predicate CopyOk(tx: Ring, w: Writer)
    requires tx.Ok()
  {
    && w.inp == tx.inp && 0 < w.n && w.ptr + w.n <= |w.data| && w.k <= w.n
    && w.n <= FreeRun(tx.inp, tx.outp, |tx.buf|)
    && tx.buf[w.inp..w.inp + w.k] == w.data[w.ptr..w.ptr + w.k]
  }

  /** The writer's last snapshot found the ring full, and no byte was published since. */
  ghost predicate StaleFull(tx: Ring, w: Writer)
    requires tx.Ok()
  {
    w.inp == tx.inp && w.outp < |tx.buf| && FreeRun(w.inp, w.outp, |tx.buf|) == 0
  }

  ghost predicate WaitOk(w: Writer) {
    !w.dirty && !w.nonblock && w.ptr < |w.data|
  }

  /** Where the reader is: it has released exactly what it got, its copy comes from unread slots, and it
      blocks only with nothing taken. */
  ghost predicate ReaderOk(rx: Ring, r: Reader, delivered: seq<byte>)
    requires rx.Ok()
  {
    && delivered == r.before + r.got
    && |r.got| + r.space == r.asked
    && match r.pc
       case RIdle => r.result == CallResult(|r.got|, r.nonblock) && FoundEmpty(rx, r)
       case RLoadIn => r.space > 0
       case RLoadOut => r.space > 0 && WasInp(rx, r.inp)
       case RCopy => DrainOk(rx, r) && |r.chunk| < r.n
       case RPublish => DrainOk(rx, r) && |r.chunk| == r.n
       case RSpin => EmptyWait(rx, r)
       case RSpinHost => EmptyWait(rx, r)
       case RRecheck => EmptyWait(rx, r)
       case REnable => r.got != [] && FoundEmpty(rx, r)
  }

  ghost predicate DrainOk(rx: Ring, r: Reader)
    requires rx.Ok()
  {
    && r.outp == rx.outp && 0 < r.n <= r.space && r.n <= FilledRun(rx.inp, rx.outp, |rx.buf|)
    && |r.chunk| <= r.n && r.chunk == rx.buf[r.outp..r.outp + |r.chunk|]
  }

  /** If there is room left in the caller's buffer, the reader's last snapshot found the ring empty. */
  ghost predicate FoundEmpty(rx: Ring, r: Reader) {
    r.space > 0 ==> r.inp == rx.outp
  }

  ghost predicate EmptyWait(rx: Ring, r: Reader) {
    r.got == [] && !r.nonblock && r.inp == rx.outp && r.space > 0
  }

  /** Conservation, the writer's place, and no lost wake-up on the transmit side. */
  ghost predicate TxInv(s: Sys) {
    && s.tx.Ok()
    && s.accepted == s.sent + s.tx.Contents()
    && (s.tx.Contents() != [] ==> s.control.we || s.w.dirty)
    && WriterOk(s.tx, s.w, s.accepted)
  }

  /** Conservation, the reader's place, and no lost wake-up on the receive side. */
  ghost predicate RxInv(s: Sys) {
    && s.rx.Ok()
    && s.popped == s.delivered + s.rx.Contents()
    && (!s.control.re ==> s.rx.Contents() != [] || (s.r.pc != RIdle && s.r.got != []))
    && ReaderOk(s.rx, s.r, s.delivered)
  }

  /** Both sides, and agreement of the CONTROL register with its shadow. */
  ghost predicate Inv(s: Sys) {
    TxInv(s) && RxInv(s) && s.control == s.irqEnable
  }

  /** The parts of the invariant that each step relies on. */
  ghost predicate InvParts(s: Sys) {
    s.tx.Ok() && s.rx.Ok() && WriterOk(s.tx, s.w, s.accepted) && ReaderOk(s.rx, s.r, s.delivered)
  }

  lemma InvRings(s: Sys)
    requires Inv(s)
    ensures InvParts(s)
  {
  }

  // ------------------------------------------------------------------------- each actor keeps it

  /** Copying one more byte leaves the ring's contents and the copied chunk as they should be. */
  lemma CopyOne(tx: Ring, w: Writer, pc: WriterPc)
    requires tx.Ok() && CopyOk(tx, w) && w.k < w.n
    ensures var tx' := tx.(buf := tx.buf[w.inp + w.k := w.data[w.ptr + w.k]]);
            tx'.Ok() && tx'.Contents() == tx.Contents() && CopyOk(tx', w.(pc := pc, k := w.k + 1))
  {
    hide Ring.Contents, FreeRun;
    var b := w.data[w.ptr + w.k];
    StoreFree(tx, w.k, b);
    assert w.data[w.ptr..w.ptr + w.k + 1] == w.data[w.ptr..w.ptr + w.k] + [b];
  }

  lemma WriterCopyKeepsInv(s: Sys)
    requires TxInv(s) && s.w.pc == WCopy
    ensures TxInv(WriterStep(s))
  {
    hide Ring.Contents, CopyOk;
    CopyOne(s.tx, s.w, WriterStep(s).w.pc);
  }

  /** Publishing a copied chunk appends it to the ring's contents. */
  lemma PublishChunk(tx: Ring, w: Writer)
    requires tx.Ok() && CopyOk(tx, w) && w.k == w.n
    ensures w.inp < |tx.buf| && w.inp + w.n <= |tx.buf| && w.ptr + w.n <= |w.data| && 0 < w.n
    ensures var tx' := tx.(inp := Wrap(w.inp + w.n, |tx.buf|));
            tx'.Ok() && tx'.Contents() == tx.Contents() + w.data[w.ptr..w.ptr + w.n]
    ensures w.data[..w.ptr] + w.data[w.ptr..w.ptr + w.n] == w.data[..w.ptr + w.n]
  {
    hide Ring.Contents, FreeRun;
    PublishRun(tx, w.n);
  }

  lemma WriterPublishKeepsInv(s: Sys)
    requires TxInv(s) && s.w.pc == WPublish
    ensures TxInv(WriterStep(s))
  {
    hide Ring.Contents, CopyOk, StaleFull;
    var w := s.w;
    PublishChunk(s.tx, w);
    assert s.accepted + w.data[w.ptr..w.ptr + w.n] == w.before + w.data[..w.ptr + w.n];
  }

  lemma WriterKeepsTxInv(s: Sys)
    requires TxInv(s)
    ensures TxInv(WriterStep(s))
  {
    hide Ring.Contents;
    if s.w.pc == WCopy {
      WriterCopyKeepsInv(s);
    } else if s.w.pc == WPublish {
      WriterPublishKeepsInv(s);
    }
  }

  lemma WriterLeavesRx(s: Sys)
    requires s.tx.Ok() && WriterOk(s.tx, s.w, s.accepted) && s.control == s.irqEnable
    ensures var t := WriterStep(s);
            && t.rx == s.rx && t.r == s.r && t.popped == s.popped && t.delivered == s.delivered
            && t.control == t.irqEnable && t.control.re == s.control.re
  {
    hide Ring.Contents, WriterOk;
  }

  lemma WriterKeepsInv(s: Sys)
    requires Inv(s)
    ensures Inv(WriterStep(s))
  {
    hide Ring.Contents, ReaderOk, WriterOk, WriterStep;
    WriterKeepsTxInv(s);
    WriterLeavesRx(s);
  }

  lemma ReaderPublishKeepsInv(s: Sys)
    requires RxInv(s) && s.r.pc == RPublish
    ensures RxInv(ReaderStep(s))
  {
    hide Ring.Contents;
    ReleaseRun(s.rx, s.r.n);
  }

  lemma ReaderCopyKeepsInv(s: Sys)
    requires RxInv(s) && s.r.pc == RCopy
    ensures RxInv(ReaderStep(s))
  {
    hide Ring.Contents;
  }

  lemma ReaderKeepsRxInv(s: Sys)
    requires RxInv(s)
    ensures RxInv(ReaderStep(s))
  {
    hide Ring.Contents;
    if s.r.pc == RPublish {
      ReaderPublishKeepsInv(s);
    } else if s.r.pc == RCopy {
      ReaderCopyKeepsInv(s);
    }
  }

  lemma ReaderLeavesTx(s: Sys)
    requires s.rx.Ok() && ReaderOk(s.rx, s.r, s.delivered) && s.control == s.irqEnable
    ensures var t := ReaderStep(s);
            && t.tx == s.tx && t.w == s.w && t.accepted == s.accepted && t.sent == s.sent
            && t.control == t.irqEnable && t.control.we == s.control.we
  {
    hide Ring.Contents, ReaderOk;
  }

  lemma ReaderKeepsInv(s: Sys)
    requires Inv(s)
    ensures Inv(ReaderStep(s))
  {
    hide Ring.Contents, ReaderOk, WriterOk, ReaderStep;
    ReaderKeepsRxInv(s);
    ReaderLeavesTx(s);
  }

  /** What the receive loop does to the ring and the popped bytes: it appends the same bytes to both, in
      order, keeps what the reader relies on, and reports more data only when it has filled the ring. */
  ghost predicate Received(rx: Ring, popped: seq<byte>, rx': Ring, popped': seq<byte>, ravail': nat)
    requires rx.Ok()
  {
    && rx'.Ok() && |rx'.buf| == |rx.buf| && rx'.outp == rx.outp
    && (exists m: seq<byte> :: popped' == popped + m && rx'.Contents() == rx.Contents() + m)
    && ReaderStable(rx, rx')
    && (ravail' != 0 ==> rx'.Full())
  }

  ghost predicate ReaderStable(rx: Ring, rx': Ring)
    requires rx.Ok() && rx'.Ok() && |rx'.buf| == |rx.buf| && rx'.outp == rx.outp
  {
    && FilledRun(rx.inp, rx.outp, |rx.buf|) <= FilledRun(rx'.inp, rx.outp, |rx.buf|)
    && (forall j :: rx.outp <= j < rx.outp + FilledRun(rx.inp, rx.outp, |rx.buf|) ==> rx'.buf[j] == rx.buf[j])
    && (forall i :: WasInp(rx, i) ==> WasInp(rx', i))
  }

  lemma {:induction false} RxDrainMeaning(rx: Ring, popped: seq<byte>, ravail: nat, fifo: seq<DataRead>)
    requires rx.Ok() && HardwareOk(fifo)
    ensures var (rx', popped', ravail') := RxDrain(rx, popped, ravail, fifo);
            Received(rx, popped, rx', popped', ravail')
    decreases |fifo|
  {
    if rx.Full() || fifo == [] || !fifo[0].rvalid {
      assert popped == popped + [] && rx.Contents() == rx.Contents() + [];
    } else {
      var b := fifo[0].data;
      RxDrainMeaning(rx.Push(b), popped + [b], fifo[0].ravail, fifo[1..]);
      var (rx', popped', ravail') := RxDrain(rx.Push(b), popped + [b], fifo[0].ravail, fifo[1..]);
      PushIsStable(rx, b);
      ReceivedAfterPush(rx, b, popped, rx', popped', ravail');
    }
  }

  lemma ReaderStableTransitive(rx: Ring, rx1: Ring, rx': Ring)
    requires rx.Ok() && rx1.Ok() && |rx1.buf| == |rx.buf| && rx1.outp == rx.outp
    requires rx'.Ok() && |rx'.buf| == |rx.buf| && rx'.outp == rx.outp
    requires ReaderStable(rx, rx1) && ReaderStable(rx1, rx')
    ensures ReaderStable(rx, rx')
  {
    hide Ring.Contents, WasInp, FilledRun;
  }

  lemma ReceivedAfterPush(rx: Ring, b: byte, popped: seq<byte>, rx': Ring, popped': seq<byte>, ravail': nat)
    requires rx.Ok() && !rx.Full() && ReaderStable(rx, rx.Push(b))
    requires Received(rx.Push(b), popped + [b], rx', popped', ravail')
    ensures Received(rx, popped, rx', popped', ravail')
  {
    hide Ring.Contents, Ring.Push, ReaderStable;
    ReaderStableTransitive(rx, rx.Push(b), rx');
    var m :| popped' == popped + [b] + m && rx'.Contents() == rx.Push(b).Contents() + m;
    assert popped' == popped + ([b] + m) && rx'.Contents() == rx.Contents() + ([b] + m);
  }

  /** What the transmit loop does: it sends the oldest bytes, at most `space` of them, keeps what the writer
      relies on, and has space left over only when it has emptied the ring. */
  ghost predicate Transmitted(tx: Ring, sent: seq<byte>, space: nat, tx': Ring, sent': seq<byte>, space': nat)
    requires tx.Ok()
  {
    && tx'.Ok() && tx'.buf == tx.buf && tx'.inp == tx.inp
    && sent' + tx'.Contents() == sent + tx.Contents()
    && |sent'| - |sent| == space - space'
    && FreeRun(tx.inp, tx.outp, |tx.buf|) <= FreeRun(tx.inp, tx'.outp, |tx.buf|)
    && (space' > 0 ==> tx'.Contents() == [])
  }

  lemma {:induction false} TxDrainMeaning(tx: Ring, sent: seq<byte>, space: nat)
    requires tx.Ok()
    ensures var (tx', sent', space') := TxDrain(tx, sent, space);
            Transmitted(tx, sent, space, tx', sent', space')
    decreases space
  {
    hide Ring.Contents;
    if space > 0 && tx.outp != tx.inp {
      var b := tx.buf[tx.outp];
      TxDrainMeaning(tx.Pop(), sent + [b], space - 1);
      PopIsStable(tx);
      assert sent + [b] + tx.Pop().Contents() == sent + tx.Contents();
    }
  }

  lemma StableKeepsReader(rx: Ring, rx': Ring, r: Reader, delivered: seq<byte>)
    requires rx.Ok() && rx'.Ok() && |rx'.buf| == |rx.buf| && rx'.outp == rx.outp
    requires ReaderStable(rx, rx') && ReaderOk(rx, r, delivered)
    ensures ReaderOk(rx', r, delivered)
  {
    hide Ring.Contents, FilledRun, WasInp;
    if r.pc == RCopy || r.pc == RPublish {
      assert rx'.buf[r.outp..r.outp + |r.chunk|] == rx.buf[r.outp..r.outp + |r.chunk|];
    }
  }

  lemma RxPartKeepsRxInv(s: Sys, fifo: seq<DataRead>)
    requires RxInv(s) && HardwareOk(fifo)
    ensures RxInv(RxPart(s, fifo))
  {
    hide Ring.Contents, RxDrain, ReaderOk, ReaderStable;
    RxDrainMeaning(s.rx, s.popped, 1, fifo);
    var (rx, popped, ravail) := RxDrain(s.rx, s.popped, 1, fifo);
    StableKeepsReader(s.rx, rx, s.r, s.delivered);
    var m: seq<byte> :| popped == s.popped + m && rx.Contents() == s.rx.Contents() + m;
    assert popped == s.delivered + rx.Contents();
    assert ravail != 0 ==> rx.Full() && rx.inp != rx.outp;
  }

  lemma TxPartKeepsTxInv(s: Sys, wspace: nat)
    requires TxInv(s)
    ensures TxInv(TxPart(s, wspace))
  {
    hide Ring.Contents;
    TxDrainMeaning(s.tx, s.sent, wspace);
  }

  lemma IsrPassKeepsInv(s: Sys, p: Pass)
    requires Inv(s) && HardwareOk(p.fifo)
    ensures Inv(IsrPass(s, p))
  {
    hide Ring.Contents, RxDrain, TxDrain, WriterOk, ReaderOk;
    var s1 := s;
    if p.ri {
      RxPartKeepsRxInv(s, p.fifo);
      s1 := RxPart(s, p.fifo);
      assert TxInv(s1);
    }
    if p.wi {
      TxPartKeepsTxInv(s1, p.wspace);
      assert RxInv(TxPart(s1, p.wspace));
    }
  }

  /** The handler touches neither thread's locals, nor what the threads have published. */
  ghost predicate SameCalls(s: Sys, s': Sys) {
    && s'.w == s.w && s'.r == s.r && s'.accepted == s.accepted && s'.delivered == s.delivered
    && s'.hostInactive == s.hostInactive && s'.timeout == s.timeout
    && |s'.tx.buf| == |s.tx.buf| && |s'.rx.buf| == |s.rx.buf|
  }

  lemma IsrPassKeepsCalls(s: Sys, p: Pass)
    requires Inv(s) && HardwareOk(p.fifo)
    ensures SameCalls(s, IsrPass(s, p))
  {
    hide Ring.Contents, RxDrain, TxDrain, WriterOk, ReaderOk;
    RxDrainMeaning(s.rx, s.popped, 1, p.fifo);
    TxDrainMeaning(s.tx, s.sent, p.wspace);
  }

  // ------------------------------------------------------------------------------------------ runs

  /** One scheduling decision. A call made while one of its kind is in progress waits for its lock. */
  datatype Event =
    | CallWrite(data: seq<byte>, nonblock: bool)
    | WriterRuns
    | CallRead(space: int, nonblock: bool)
    | ReaderRuns
    | Interrupt(passes: seq<Pass>)
    | Second(ac: bool)

  ghost predicate EventOk(e: Event) {
    e.Interrupt? ==> forall p :: p in e.passes ==> HardwareOk(p.fifo)
  }

  ghost function Step(s: Sys, e: Event): Sys
    requires Inv(s) && EventOk(e)
    ensures Inv(Step(s, e))
  {
    match e
    case CallWrite(data, nonblock) => if s.w.pc == WIdle then StartWrite(s, data, nonblock) else s
    case WriterRuns => WriterKeepsInv(s); WriterStep(s)
    case CallRead(space, nonblock) => if s.r.pc == RIdle then StartRead(s, space, nonblock) else s
    case ReaderRuns => ReaderKeepsInv(s); ReaderStep(s)
    case Interrupt(passes) => Isr(s, passes)
    case Second(ac) => Timer(s, ac)
  }

  /** The state after a whole schedule. */
  ghost function Run(s: Sys, events: seq<Event>): Sys
    requires Inv(s) && forall e :: e in events ==> EventOk(e)
    ensures Inv(Run(s, events))
  {
    if events == [] then s
    else Step(Run(s, events[..|events| - 1]), events[|events| - 1])
  }
}
