/** The memory-card and buzzer state machines of the Kepler-X firmware: two polled machines that talk through
    a request and an acknowledge flag. */
module ChimeMachine {
  import opened Basics

  /** Unsigned 32-bit subtraction. */
  function Since(now: nat, then_: nat): (d: nat)
    ensures d < WORD
  {
    (now - then_) % WORD
  }

  /** SysTick counts per millisecond and per microsecond. */
  datatype Clock = Clock(ms: nat, us: nat)

  datatype MmcState = Init | Attaching | Attached | Ready | Detaching | Detached
  datatype BuzzerState = Idle | Playing | Stopped

  /** Which chime: the card came or went. */
  datatype Kind = Attach | Detach

  function Other(k: Kind): Kind {
    if k == Attach then Detach else Attach
  }

  function Tune(k: Kind): (notes: seq<nat>)
    ensures |notes| == 3 && forall i :: 0 <= i < 3 ==> (notes[i] == 8 || notes[i] == 10 || notes[i] == 12)
  {
    if k == Attach then [1 + 7, 3 + 7, 5 + 7] else [5 + 7, 3 + 7, 1 + 7]
  }

  const NOTES: nat := 16

  /** The integer part of a note's frequency. */
  function Frequency(note: nat): nat
    requires note < NOTES
  {
    match note
    case 0 => 0
    case 1 => 130
    case 2 => 146
    case 3 => 164
    case 4 => 174
    case 5 => 195
    case 6 => 220
    case 7 => 246
    case 8 => 261
    case 9 => 293
    case 10 => 329
    case 11 => 349
    case 12 => 391
    case 13 => 440
    case 14 => 493
    case _ => 523
  }

  /** What the two machines share: the buzzer request and its acknowledge, the note, and the card bits of the
      status register. */
  datatype Context = Context(req: bool, ack: bool, note: nat, length: nat, det: bool, cs: bool)

  /** The card machine and its MMC_n pin. History: the notes requested so far, which chime came first, and how
      many whole chimes are done. */
  datatype Mmc = Mmc(state: MmcState, soundCount: nat, mmcN: bool, notes: seq<nat>, first: Kind, done: nat)

  /** The buzzer machine and its pin. History: how often PLAYING was entered, and how often the pin has been driven
      since. */
  datatype Buzzer = Buzzer(state: BuzzerState, startTick: nat, lastTick: nat, flag: bool, pin: bool, episodes: nat,
                           edges: nat)

  datatype Sys = Sys(c: Context, m: Mmc, b: Buzzer)

  const Start: Sys :=
    Sys(Context(false, false, 0, 0, false, false), Mmc(Init, 0, true, [], Attach, 0),
        Buzzer(Idle, 0, 0, false, false, 0, 0))

  /** The levels of the two input pins at each of the poll's reads: for the status register, then for the
      state machine. The pins are low-active. */
  datatype Inputs = Inputs(det0: bool, cs0: bool, det: bool, cs: bool)

  // --------------------------------------------------------------------------------- the two polls

  function Duration(clk: Clock, length: nat): nat {
    Shl40(length) * clk.ms
  }

  /** 40 << length */
  function Shl40(length: nat): nat {
    if length == 0 then 40 else 2 * Shl40(length - 1)
  }

  function Interval(clk: Clock, note: nat): nat
    requires note < NOTES && Frequency(note) != 0
  {
    1000000 / Frequency(note) / 2 * clk.us
  }

  function BuzzerPoll(c: Context, b: Buzzer, clk: Clock, tick: nat): (Context, Buzzer)
    requires Playable(c, b)
  {
    match b.state
    case Idle =>
      if c.req
      then (c, b.(state := Playing, startTick := tick, lastTick := tick, flag := false, episodes := b.episodes + 1,
                  edges := 0))
      else (c, b)
    case Playing =>
      if !c.req then (c, b.(state := Stopped))
      else if Since(tick, b.startTick) > Duration(clk, c.length) then (c, b.(state := Stopped))
      else if Since(tick, b.lastTick) > Interval(clk, c.note)
      then (c, b.(lastTick := tick, pin := b.flag, flag := !b.flag, edges := b.edges + 1))
      else (c, b)
    case Stopped =>
      if c.req then (c.(ack := true), b) else (c.(ack := false), b.(state := Idle))
  }

  /** One of the two chime states: requests the next note, or drops the request once it is acknowledged. */
  function ChimePoll(c: Context, m: Mmc, kind: Kind): (Context, Mmc)
    requires !c.req && !c.ack ==> m.soundCount < 3
  {
    if !c.req && !c.ack then
      var note := Tune(kind)[m.soundCount];
      (c.(note := note, length := 1, req := true), m.(soundCount := m.soundCount + 1, notes := m.notes + [note]))
    else if c.ack then
      (c.(req := false),
       if m.soundCount == 3
       then m.(state := if kind == Attach then Attached else Detached, done := m.done + 1)
       else m)
    else (c, m)
  }

  function MmcPoll(c0: Context, m: Mmc, i: Inputs): (Context, Mmc)
    requires ChimeOk(c0, m)
  {
    var c := c0.(det := i.det0, cs := i.cs0);
    match m.state
    case Init =>
      (c, if i.det then m.(state := Detached, first := Attach) else m.(state := Attached, first := Detach))
    case Attaching => ChimePoll(c, m, Attach)
    case Attached =>
      (c, if i.det then m.(mmcN := false, state := Detaching, soundCount := 0)
          else if !i.cs then m.(mmcN := false, state := Ready)
          else m.(mmcN := false))
    case Ready =>
      (c, if i.det then m.(mmcN := false, state := Detaching, soundCount := 0)
          else if i.cs then m.(mmcN := false, state := Attached)
          else m.(mmcN := false))
    case Detaching => ChimePoll(c, m, Detach)
    case Detached =>
      (c, if !i.det then m.(mmcN := true, state := Attaching, soundCount := 0) else m.(mmcN := true))
  }

  // ------------------------------------------------------------------------------------- invariant

  predicate Chiming(m: Mmc) {
    m.state == Attaching || m.state == Detaching
  }

  /** A note that may be playing has a frequency. */
  ghost predicate Playable(c: Context, b: Buzzer) {
    b.state == Playing && c.req ==> c.note < NOTES && Frequency(c.note) != 0
  }

  /** The chime table is read inside its bounds. */
  ghost predicate ChimeOk(c: Context, m: Mmc) {
    Chiming(m) && !c.req && !c.ack ==> m.soundCount < 3
  }

  function KindAt(first: Kind, i: nat): Kind {
    if i % 2 == 0 then first else Other(first)
  }

  /** The notes of n whole chimes, alternating from `first`. */
  function Chimes(first: Kind, n: nat): seq<nat> {
    if n == 0 then [] else Chimes(first, n - 1) + Tune(KindAt(first, n - 1))
  }

  /** The four-phase handshake: where the buzzer can be for each value of (req, ack). */
  ghost predicate Handshake(c: Context, b: Buzzer) {
    if c.ack then b.state == Stopped else c.req || b.state == Idle
  }

  /** Which chime the card machine plays or will play next. */
  ghost predicate KindFits(m: Mmc) {
    var kind := KindAt(m.first, m.done);
    match m.state
    case Init => m.done == 0
    case Attaching => kind == Attach && m.mmcN
    case Detached => kind == Attach
    case Attached => kind == Detach
    case Ready => kind == Detach
    case Detaching => kind == Detach
  }

  /** The notes so far: whole chimes, and the first `soundCount` notes of the one being played. */
  ghost predicate NotesFit(m: Mmc) {
    if Chiming(m)
    then m.soundCount <= 3 && m.notes == Chimes(m.first, m.done) + Tune(KindAt(m.first, m.done))[..m.soundCount]
    else m.notes == Chimes(m.first, m.done)
  }

  /** The request flag belongs to the last note asked for. */
  ghost predicate RequestFits(c: Context, m: Mmc) {
    if c.req
    then && Chiming(m) && 1 <= m.soundCount <= 3 && c.length == 1
         && c.note == Tune(KindAt(m.first, m.done))[m.soundCount - 1]
    else Chiming(m) ==> m.soundCount < 3
  }

  /** How many requests have not led to PLAYING yet. */
  function Waiting(c: Context, b: Buzzer): nat {
    if c.req && !c.ack && b.state == Idle then 1 else 0
  }

  ghost predicate Inv(s: Sys) {
    && Handshake(s.c, s.b)
    && KindFits(s.m) && NotesFit(s.m) && RequestFits(s.c, s.m)
    && s.b.episodes + Waiting(s.c, s.b) == |s.m.notes|
  }

  lemma RequestedIsPlayable(c: Context, m: Mmc, b: Buzzer)
    requires RequestFits(c, m)
    ensures c.req ==> c.note == 8 || c.note == 10 || c.note == 12
    ensures Playable(c, b)
  {
  }

  lemma BuzzerKeepsInv(s: Sys, clk: Clock, tick: nat)
    requires Inv(s)
    ensures Playable(s.c, s.b)
    ensures var (c', b') := BuzzerPoll(s.c, s.b, clk, tick); Inv(Sys(c', s.m, b'))
  {
    hide Interval, Duration, Since, NotesFit, KindFits, KindAt, Tune, Frequency;
    RequestedIsPlayable(s.c, s.m, s.b);
  }

  lemma AfterOneMore(first: Kind, n: nat)
    ensures KindAt(first, n + 1) == Other(KindAt(first, n))
    ensures Chimes(first, n + 1) == Chimes(first, n) + Tune(KindAt(first, n))
    ensures KindAt(first, 0) == first && Chimes(first, 0) == []
  {
  }

  lemma ChimeKeepsInv(s: Sys, kind: Kind)
    requires Inv(s) && s.m.state == (if kind == Attach then Attaching else Detaching)
    ensures var (c', m') := ChimePoll(s.c, s.m, kind); Inv(Sys(c', m', s.b))
  {
    hide KindAt, Chimes;
    var n := s.m.soundCount;
    AfterOneMore(s.m.first, s.m.done);
    if !s.c.req && !s.c.ack {
      assert Tune(kind)[..n + 1] == Tune(kind)[..n] + [Tune(kind)[n]];
    } else if s.c.ack && n == 3 {
      assert Tune(kind)[..3] == Tune(kind);
    }
  }

  lemma MmcKeepsInv(s: Sys, i: Inputs)
    requires Inv(s)
    ensures ChimeOk(s.c, s.m)
    ensures var (c', m') := MmcPoll(s.c, s.m, i); Inv(Sys(c', m', s.b))
  {
    hide KindAt, Chimes, ChimePoll;
    var s' := s.(c := s.c.(det := i.det0, cs := i.cs0));
    if s.m.state == Attaching {
      ChimeKeepsInv(s', Attach);
    } else if s.m.state == Detaching {
      ChimeKeepsInv(s', Detach);
    } else {
      AfterOneMore(s.m.first, 0);
      AfterOneMore(MmcPoll(s.c, s.m, i).1.first, 0);
      assert Tune(KindAt(s.m.first, s.m.done))[..0] == [];
    }
  }

  // ------------------------------------------------------------------------------------------ runs

  /** The two machines may be polled in any order and any number of times. */
  datatype Event = PollBuzzer(tick: nat) | PollMmc(inputs: Inputs)

  ghost function Step(s: Sys, clk: Clock, e: Event): Sys
    requires Inv(s)
    ensures Inv(Step(s, clk, e))
  {
    match e
    case PollBuzzer(tick) =>
      BuzzerKeepsInv(s, clk, tick);
      var (c', b') := BuzzerPoll(s.c, s.b, clk, tick);
      Sys(c', s.m, b')
    case PollMmc(inputs) =>
      MmcKeepsInv(s, inputs);
      var (c', m') := MmcPoll(s.c, s.m, inputs);
      Sys(c', m', s.b)
  }

  ghost function Run(s: Sys, clk: Clock, events: seq<Event>): Sys
    requires Inv(s)
    ensures Inv(Run(s, clk, events))
  {
    if events == [] then s
    else Step(Run(s, clk, events[..|events| - 1]), clk, events[|events| - 1])
  }

  /** In every run: the notes requested are a prefix of whole chimes that alternate; each request has led or
      is about to lead to exactly one PLAYING episode; while one plays, the request stands, unacknowledged, and
      the note is one of 8, 10 and 12, which have a frequency; the next table access is in bounds; and MMC_n
      is high while a card is being attached. */
  lemma EveryRunChimes(clk: Clock, events: seq<Event>)
    ensures Inv(Start)
    ensures var Sys(c, m, b) := Run(Start, clk, events);
            && m.notes <= Chimes(m.first, m.done + 1) && 3 * m.done <= |m.notes|
            && b.episodes + Waiting(c, b) == |m.notes|
            && (b.state == Playing ==> c.req && !c.ack && (c.note == 8 || c.note == 10 || c.note == 12))
            && Playable(c, b) && ChimeOk(c, m)
            && (m.state == Attaching ==> m.mmcN)
  {
    hide KindAt, Chimes, Tune;
    AfterOneMore(Attach, 0);
    assert Inv(Start);
    var Sys(c, m, b) := Run(Start, clk, events);
    hide Run;
    AfterOneMore(m.first, m.done);
    RequestedIsPlayable(c, m, b);
    ChimesLength(m.first, m.done);
  }

  lemma {:induction false} ChimesLength(first: Kind, n: nat)
    ensures |Chimes(first, n)| == 3 * n
  {
    if n > 0 {
      ChimesLength(first, n - 1);
    }
  }

  /** The handshake only moves forward: (req, ack) goes 00, 10, 11, 01, 00. */
  lemma HandshakeMovesForward(s: Sys, clk: Clock, e: Event)
    requires Inv(s)
    ensures var (c, c') := (s.c, Step(s, clk, e).c);
            || (c'.req == c.req && c'.ack == c.ack)
            || (!c.req && !c.ack && c'.req && !c'.ack)
            || (c.req && !c.ack && c'.req && c'.ack)
            || (c.req && c.ack && !c'.req && c'.ack)
            || (!c.req && c.ack && !c'.req && !c'.ack)
  {
    hide KindAt, Chimes, Tune, Interval, Duration, Since, Frequency;
  }

  /** The note and length stand still while the buzzer plays. */
  lemma NoteIsConstantWhilePlaying(s: Sys, clk: Clock, e: Event)
    requires Inv(s) && s.b.state == Playing
    ensures var c' := Step(s, clk, e).c; c'.req && c'.note == s.c.note && c'.length == s.c.length
  {
    hide KindAt, Chimes, Tune, Interval, Duration, Since, Frequency;
  }

  /** Nothing is taken back: notes are only added, and the first look at the slot alone decides which chime
      comes first. */
  lemma HistoryOnlyGrows(s: Sys, clk: Clock, e: Event)
    requires Inv(s)
    ensures var (m, m') := (s.m, Step(s, clk, e).m);
            && m.notes <= m'.notes && m.done <= m'.done
            && (m.state != Init ==> m'.first == m.first && m'.state != Init)
            && (m.state == Init && e.PollMmc? ==> m'.first == if e.inputs.det then Attach else Detach)
  {
    hide KindAt, Chimes, Tune, Interval, Duration, Since, Frequency;
  }

  /** MMC_n is pulled low only when no chime is playing and the last one, if any, was a whole attach chime. */
  lemma MmcGoesLowOnlyAfterAttachChime(s: Sys, clk: Clock, e: Event)
    requires Inv(s) && s.m.mmcN && !Step(s, clk, e).m.mmcN
    ensures s.m.notes == Chimes(s.m.first, s.m.done)
    ensures s.m.done > 0 ==> KindAt(s.m.first, s.m.done - 1) == Attach
    ensures s.m.done == 0 ==> s.m.first == Detach
  {
    hide Tune, Interval, Duration, Since, Frequency, Chimes;
  }
}
