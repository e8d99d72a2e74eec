/** The registers that start the prefetcher, and the 64-bit addresses they are given in halves. */
module PrefetcherDevice {
  import opened Basics

  type Word = w: nat | w < WORD

  /** The two words of the address union: u32[0] and u32[1] of u64. */
  function Low(a: nat): Word {
    a % WORD
  }

  function High(a: nat): Word
    requires a < WORD * WORD
  {
    a / WORD
  }

  function Join(low: Word, high: Word): (a: nat)
    ensures a < WORD * WORD
  {
    low + high * WORD
  }

  /** Splitting and joining are inverse, so comparing both halves compares the addresses. */
  lemma SplitJoin(a: nat, low: Word, high: Word)
    requires a < WORD * WORD
    ensures Join(Low(a), High(a)) == a && Low(a) + 0x1_0000_0000 * High(a) == a
    ensures Join(low, high) == low + 0x1_0000_0000 * high
    ensures low == Low(a) && high == High(a) <==> Join(low, high) == a
  {
  }

  /** A 32-bit address is its own low word. */
  lemma ShortAddress(a: nat, low: Word, high: Word)
    requires low + 0x1_0000_0000 * high == a < WORD
    ensures low == a && high == 0
  {
  }

  const RUN: bv32 := 0x1
  const POLL_EN: bv32 := 0x2
  const INTR_EN: bv32 := 0x8
  const PARK_MODE: bv32 := 0x10
  const CSR_STOP_ON_ERROR: bv32 := 0x4
  const CSR_GLOBAL_INTERRUPT: bv32 := 0x10
  const CSR_STOP_DESCRIPTORS: bv32 := 0x20

  /** A word with the bits of `mask` all set or all clear: the SET and CLR mask pairs. */
  function WithFlag(w: bv32, mask: bv32, on: bool): bv32 {
    if on then w | mask else w & !mask
  }

  /** It sets those bits and no others. */
  lemma FlagBits(w: bv32, mask: bv32, on: bool, others: bv32)
    requires mask & others == 0
    ensures WithFlag(w, mask, on) & mask == (if on then mask else 0)
    ensures WithFlag(w, mask, on) & others == w & others
  {
  }

  /** The bits of the prefetcher control word that the driver does not own. */
  const CTL_OTHERS: bv32 := 0xFFFF_FFE4

  predicate RunBit(c: bv32) {
    c & RUN != 0
  }

  /** A status register after a write that clears the bits written as ones. */
  function Cleared(status: bv32, ones: bv32): bv32 {
    status & !ones
  }

  /** The prefetcher control word at the start. */
  function StartWord(c: bv32, intr: bool, park: bool, poll: bool): bv32 {
    WithFlag(WithFlag(WithFlag(WithFlag(c, INTR_EN, intr), PARK_MODE, park), POLL_EN, poll), RUN, true)
  }

  /** Running, with the three options as asked and all other bits as they were. */
  predicate Running(c: bv32, d: bv32, intr: bool, park: bool, poll: bool) {
    && d & RUN == RUN
    && d & POLL_EN == (if poll then POLL_EN else 0)
    && d & PARK_MODE == (if park then PARK_MODE else 0)
    && d & INTR_EN == (if intr then INTR_EN else 0)
    && d & CTL_OTHERS == c & CTL_OTHERS
  }

  /** Bit by bit. */
  lemma RunningInBits(c: bv32, d: bv32, intr: bool, park: bool, poll: bool)
    requires Running(c, d, intr, park, poll)
    ensures
              && d & 0x1 == 0x1 && d & 0x2 == (if poll then 0x2 else 0) && d & 0x8 == (if intr then 0x8 else 0)
              && d & 0x10 == (if park then 0x10 else 0) && d & 0xFFFF_FFE4 == c & 0xFFFF_FFE4
  {
  }

  lemma RunBitIsLowest(c: bv32)
    ensures RunBit(c) <==> c & 0x1 != 0
  {
  }

  lemma StartWordRuns(c: bv32, intr: bool, park: bool, poll: bool)
    ensures Running(c, StartWord(c, intr, park, poll), intr, park, poll)
    ensures RunBit(StartWord(c, intr, park, poll))
    ensures RunBit(WithFlag(c, INTR_EN, intr)) == RunBit(c)
  {
    hide WithFlag, RunBit;
    RunBits(c, intr);
    var c1 := WithFlag(c, INTR_EN, intr);
    var c2 := WithFlag(c1, PARK_MODE, park);
    var c3 := WithFlag(c2, POLL_EN, poll);
    FlagBits(c, INTR_EN, intr, CTL_OTHERS);
    FlagBits(c1, PARK_MODE, park, CTL_OTHERS);
    FlagBits(c1, PARK_MODE, park, INTR_EN);
    FlagBits(c2, POLL_EN, poll, CTL_OTHERS);
    FlagBits(c2, POLL_EN, poll, INTR_EN);
    FlagBits(c2, POLL_EN, poll, PARK_MODE);
    FlagBits(c3, RUN, true, CTL_OTHERS);
    FlagBits(c3, RUN, true, INTR_EN);
    FlagBits(c3, RUN, true, PARK_MODE);
    FlagBits(c3, RUN, true, POLL_EN);
    RunBits(c3, true);
  }

  lemma RunBits(c: bv32, intr: bool)
    ensures RunBit(WithFlag(c, INTR_EN, intr)) == RunBit(c)
    ensures RunBit(WithFlag(c, RUN, true)) && WithFlag(c, RUN, true) & RUN == RUN
  {
  }

  /** The bits of the dispatcher control word that a start does not decide. */
  const CSR_OTHERS: bv32 := 0xFFFF_FFCB

  /** The dispatcher control word at the start. */
  function DispatcherWord(control: bv32, intr: bool): bv32 {
    WithFlag(WithFlag(CSR_STOP_DESCRIPTORS | control | CSR_STOP_ON_ERROR, CSR_GLOBAL_INTERRUPT, intr),
             CSR_STOP_DESCRIPTORS, false)
  }

  /** Dispatching, stopping on errors, with interrupts as asked and all other bits as configured. */
  predicate Dispatching(control: bv32, d: bv32, intr: bool) {
    && d & CSR_STOP_DESCRIPTORS == 0
    && d & CSR_STOP_ON_ERROR == CSR_STOP_ON_ERROR
    && d & CSR_GLOBAL_INTERRUPT == (if intr then CSR_GLOBAL_INTERRUPT else 0)
    && d & CSR_OTHERS == control & CSR_OTHERS
  }

  /** Bit by bit. */
  lemma DispatchingInBits(control: bv32, d: bv32, intr: bool)
    requires Dispatching(control, d, intr)
    ensures
              && d & 0x20 == 0 && d & 0x4 == 0x4 && d & 0x10 == (if intr then 0x10 else 0)
              && d & 0xFFFF_FFCB == control & 0xFFFF_FFCB
  {
  }

  lemma DispatcherWordDispatches(control: bv32, intr: bool)
    ensures Dispatching(control, DispatcherWord(control, intr), intr)
  {
    hide WithFlag;
    var d0 := CSR_STOP_DESCRIPTORS | control | CSR_STOP_ON_ERROR;
    var d1 := WithFlag(d0, CSR_GLOBAL_INTERRUPT, intr);
    FlagBits(d0, CSR_GLOBAL_INTERRUPT, intr, CSR_STOP_ON_ERROR);
    FlagBits(d0, CSR_GLOBAL_INTERRUPT, intr, CSR_OTHERS);
    FlagBits(d1, CSR_STOP_DESCRIPTORS, false, CSR_STOP_ON_ERROR);
    FlagBits(d1, CSR_STOP_DESCRIPTORS, false, CSR_GLOBAL_INTERRUPT);
    FlagBits(d1, CSR_STOP_DESCRIPTORS, false, CSR_OTHERS);
  }

  datatype RegWrite =
    | CsrControl(csr: bv32)
    | CsrStatus(status: bv32)
    | PrefetcherControl(ctl: bv32)
    | NextLow(word: Word)
    | NextHigh(word: Word)
    | PollFreq(freq: nat)

  /** In this order of writes RUN is set exactly once, by the last, after both halves of the root address. */
  ghost predicate RunsLast(writes: seq<RegWrite>, root: nat)
    requires root < WORD * WORD
  {
    && writes != []
    && (forall i :: 0 <= i < |writes| && writes[i].PrefetcherControl? ==>
          (RunBit(writes[i].ctl) <==> i == |writes| - 1))
    && writes[|writes| - 1].PrefetcherControl?
    && NextLow(Low(root)) in writes && NextHigh(High(root)) in writes
    && (forall i :: 0 <= i < |writes| && writes[i].NextLow? ==> writes[i] == NextLow(Low(root)))
    && (forall i :: 0 <= i < |writes| && writes[i].NextHigh? ==> writes[i] == NextHigh(High(root)))
  }

  /** In plain numbers: one write, the last, sets bit 0 of the control register, and before it the two halves of the
      root address went to their registers, and nothing else did. */
  lemma RunsLastInNumbers(writes: seq<RegWrite>, root: nat)
    requires root < WORD * WORD && RunsLast(writes, root)
    ensures writes != [] && writes[|writes| - 1].PrefetcherControl? && writes[|writes| - 1].ctl & 0x1 != 0
    ensures forall i :: 0 <= i < |writes| - 1 ==> (writes[i].PrefetcherControl? ==> writes[i].ctl & 0x1 == 0)
    ensures exists i, j :: 0 <= i < |writes| - 1 && 0 <= j < |writes| - 1 && writes[i].NextLow? && writes[j].NextHigh?
    ensures forall i, j :: 0 <= i < |writes| && 0 <= j < |writes| && writes[i].NextLow? && writes[j].NextHigh? ==>
              writes[i].word + 0x1_0000_0000 * writes[j].word == root
  {
    SplitJoin(root, Low(root), High(root));
    hide Low, High, Join;
    var i :| 0 <= i < |writes| && writes[i] == NextLow(Low(root));
    var j :| 0 <= j < |writes| && writes[j] == NextHigh(High(root));
    forall k | 0 <= k < |writes| - 1
      ensures writes[k].PrefetcherControl? ==> writes[k].ctl & 0x1 == 0
    {
      if writes[k].PrefetcherControl? {
        assert !RunBit(writes[k].ctl);
      }
    }
  }

  /** A poll frequency of zero is replaced before RUN. */
  ghost function PollWrites(zero: bool): seq<RegWrite> {
    if zero then [PollFreq(0xFF)] else []
  }

  lemma StartRunsLast(d1: bv32, status: bv32, d2: bv32, c1: bv32, root: nat, zero: bool, c2: bv32)
    requires root < WORD * WORD
    requires !RunBit(c1) && RunBit(c2)
    ensures RunsLast([CsrControl(d1), CsrStatus(status), CsrControl(d2), PrefetcherControl(c1)]
                     + ([NextLow(Low(root)), NextHigh(High(root))] + PollWrites(zero) + [PrefetcherControl(c2)]), root)
  {
    hide Low, High, RunBit;
    var log := [CsrControl(d1), CsrStatus(status), CsrControl(d2), PrefetcherControl(c1)]
               + ([NextLow(Low(root)), NextHigh(High(root))] + PollWrites(zero) + [PrefetcherControl(c2)]);
    assert log[3] == PrefetcherControl(c1) && log[4] == NextLow(Low(root)) && log[5] == NextHigh(High(root));
    assert zero ==> log[6] == PollFreq(0xFF);
  }

  class Device {
    const control: bv32
    const callback: bool
    const maxByte: nat
    const maxStride: nat
    const enhancedFeatures: nat
    var csrControl: bv32
    var csrStatus: bv32
    var prefetcherControl: bv32
    var nextLow: Word
    var nextHigh: Word
    var pollFreq: nat
    ghost var writes: seq<RegWrite>

    constructor (control: bv32, callback: bool, maxByte: nat, maxStride: nat, enhancedFeatures: nat)
      ensures this.enhancedFeatures == enhancedFeatures && this.maxByte == maxByte && prefetcherControl == 0
    {
      this.control, this.callback := control, callback;
      this.maxByte, this.maxStride, this.enhancedFeatures := maxByte, maxStride, enhancedFeatures;
      csrControl, csrStatus, prefetcherControl := 0, 0, 0;
      nextLow, nextHigh, pollFreq, writes := 0, 0, 0, [];
    }

    /** One register write. Writing the status register clears the bits that are written as ones. */
    method Out(w: RegWrite)
      modifies this
      ensures writes == old(writes) + [w]
      ensures csrControl == (if w.CsrControl? then w.csr else old(csrControl))
      ensures csrStatus == (if w.CsrStatus? then Cleared(old(csrStatus), w.status) else old(csrStatus))
      ensures prefetcherControl == (if w.PrefetcherControl? then w.ctl else old(prefetcherControl))
      ensures nextLow == (if w.NextLow? then w.word else old(nextLow))
      ensures nextHigh == (if w.NextHigh? then w.word else old(nextHigh))
      ensures pollFreq == (if w.PollFreq? then w.freq else old(pollFreq))
    {
      hide Cleared;
      writes := writes + [w];
      match w
      case CsrControl(v) => csrControl := v;
      case CsrStatus(v) => csrStatus := Cleared(csrStatus, v);
      case PrefetcherControl(v) => prefetcherControl := v;
      case NextLow(v) => nextLow := v;
      case NextHigh(v) => nextHigh := v;
      case PollFreq(v) => pollFreq := v;
    }

    /** Stops the dispatcher, clears its status and lets it run again, with interrupts only if a callback is
        registered. The prefetcher is told about interrupts too; `ctl` is what it was told. */
    method Dispatch(was: bv32) returns (ctl: bv32)
      modifies this
      ensures Dispatching(control, csrControl, callback)
      ensures ctl == WithFlag(was, INTR_EN, callback) && prefetcherControl == ctl
      ensures pollFreq == old(pollFreq)
      ensures writes == old(writes) + [CsrControl(CSR_STOP_DESCRIPTORS), CsrStatus(old(csrStatus)),
                                       CsrControl(csrControl), PrefetcherControl(ctl)]
    {
      hide WithFlag, Dispatching, Cleared;
      DispatcherWordDispatches(control, callback);
      var dispatcher := CSR_STOP_DESCRIPTORS;
      Out(CsrControl(dispatcher));
      Out(CsrStatus(csrStatus));
      dispatcher := dispatcher | control | CSR_STOP_ON_ERROR;
      dispatcher := WithFlag(dispatcher, CSR_GLOBAL_INTERRUPT, callback);
      dispatcher := WithFlag(dispatcher, CSR_STOP_DESCRIPTORS, false);
      ctl := WithFlag(was, INTR_EN, callback);
      Out(CsrControl(dispatcher));
      Out(PrefetcherControl(ctl));
    }

    /** Gives the prefetcher the root address and the last of its options, then lets it run. */
    method Launch(was: bv32, listAddr: nat, parkMode: bool, pollEn: bool) returns (ctl: bv32)
      requires listAddr < WORD * WORD
      modifies this
      ensures ctl == WithFlag(WithFlag(WithFlag(was, PARK_MODE, parkMode), POLL_EN, pollEn), RUN, true)
      ensures prefetcherControl == ctl && csrControl == old(csrControl)
      ensures nextLow == Low(listAddr) && nextHigh == High(listAddr)
      ensures pollFreq == (if pollEn && old(pollFreq) == 0 then 0xFF else old(pollFreq))
      ensures writes == old(writes) + ([NextLow(Low(listAddr)), NextHigh(High(listAddr))]
                                       + PollWrites(pollEn && old(pollFreq) == 0) + [PrefetcherControl(ctl)])
    {
      hide WithFlag, Cleared, Low, High;
      Out(NextLow(Low(listAddr)));
      Out(NextHigh(High(listAddr)));
      ctl := WithFlag(was, PARK_MODE, parkMode);
      ctl := WithFlag(ctl, POLL_EN, pollEn);
      if pollEn && pollFreq == 0 {
        Out(PollFreq(0xFF));
      }
      ctl := WithFlag(ctl, RUN, true);
      Out(PrefetcherControl(ctl));
    }

    /** Starts the prefetcher on the list at `listAddr`, unless it is running already. The dispatcher is stopped
        and its status cleared before anything else. */
    method Start(listAddr: nat, parkMode: bool, pollEn: bool) returns (rc: int)
      requires listAddr < WORD * WORD
      modifies this
      ensures rc == if RunBit(old(prefetcherControl)) then -EBUSY else 0
      ensures rc != 0 ==> unchanged(this)
      ensures rc == 0 ==> && nextLow + 0x1_0000_0000 * nextHigh == listAddr
                          && Join(nextLow, nextHigh) == listAddr
                          && old(writes) <= writes && RunsLast(writes[|old(writes)|..], listAddr)
                          && Running(old(prefetcherControl), prefetcherControl, callback, parkMode, pollEn)
                          && writes[|old(writes)|..][..2]
                             == [CsrControl(CSR_STOP_DESCRIPTORS), CsrStatus(old(csrStatus))]
                          && pollFreq == (if pollEn && old(pollFreq) == 0 then 0xFF else old(pollFreq))
                          && Dispatching(control, csrControl, callback)
    {
      hide WithFlag, Dispatching, Running, RunsLast, RunBit, Low, High, Join, PollWrites;
      var ctl := prefetcherControl;
      if RunBit(ctl) {
        return -EBUSY;
      }
      StartWordRuns(ctl, callback, parkMode, pollEn);
      ghost var zero := pollEn && pollFreq == 0;
      ghost var c1 := WithFlag(ctl, INTR_EN, callback);
      ctl := Dispatch(ctl);
      ctl := Launch(ctl, listAddr, parkMode, pollEn);
      StartRunsLast(CSR_STOP_DESCRIPTORS, old(csrStatus), csrControl, c1, listAddr, zero, ctl);
      assert writes[|old(writes)|..] == [CsrControl(CSR_STOP_DESCRIPTORS), CsrStatus(old(csrStatus)),
                                         CsrControl(csrControl), PrefetcherControl(c1)]
               + ([NextLow(Low(listAddr)), NextHigh(High(listAddr))] + PollWrites(zero) + [PrefetcherControl(ctl)]);
      SplitJoin(listAddr, nextLow, nextHigh);
      return 0;
    }
  }
}
