/** Every chime ends: each turn of the main loop brings it nearer, across SysTick wrap-around. */
module ChimeProgress {
  import opened Basics
  import opened ChimeMachine

  /** One turn of the main loop as far as these machines go: the buzzer poll, then the card poll. */
  ghost function Turn(s: Sys, clk: Clock, tick: nat, i: Inputs): (t: Sys)
    requires Inv(s)
    ensures Inv(t)
  {
    Step(Step(s, clk, PollBuzzer(tick)), clk, PollMmc(i))
  }

  /** The tick moved on, but by less than what is left of the 32-bit range after a note. */
  predicate Advances(clk: Clock, now: nat, tick: nat) {
    1 <= Since(tick, now) && Since(tick, now) + Duration(clk, 1) < WORD
  }

  /** The last buzzer poll, at `now`, has seen how long the note has played. */
  ghost predicate SeenAt(s: Sys, clk: Clock, now: nat) {
    s.b.state == Playing ==> now < WORD && s.b.startTick < WORD && Since(now, s.b.startTick) <= Duration(clk, 1)
  }

  /** Notes still to be asked for. */
  function NotesLeft(s: Sys): nat {
    if s.m.soundCount < 3 then 3 - s.m.soundCount else 0
  }

  /** Position in the handshake of one note. */
  function Phase(s: Sys): nat {
    if s.c.req && !s.c.ack then
      (match s.b.state case Idle => 5 case Playing => 4 case Stopped => 3)
    else if s.c.req then 2
    else if s.c.ack then 1
    else 0
  }

  /** Ticks the playing note may still take. */
  function TicksLeft(s: Sys, clk: Clock, now: nat): int {
    if s.b.state == Playing then Duration(clk, 1) - Since(now, s.b.startTick) else 0
  }

  /** The measure after a turn is below the measure before it. */
  ghost predicate Nearer(s: Sys, now: nat, s': Sys, now': nat, clk: Clock) {
    || NotesLeft(s') < NotesLeft(s)
    || (NotesLeft(s') == NotesLeft(s)
        && (Phase(s') < Phase(s)
            || (Phase(s') == Phase(s) && 0 <= TicksLeft(s', clk, now') < TicksLeft(s, clk, now))))
  }

  /** Elapsed time adds up while it does not wrap. */
  lemma ElapsedAdds(start: nat, now: nat, tick: nat)
    requires start < WORD && now < WORD && tick < WORD
    requires Since(now, start) + Since(tick, now) < WORD
    ensures Since(tick, start) == Since(now, start) + Since(tick, now)
  {
  }

  lemma TurnKeepsSeen(s: Sys, clk: Clock, now: nat, tick: nat, i: Inputs)
    requires Inv(s) && SeenAt(s, clk, now) && tick < WORD && Advances(clk, now, tick)
    ensures SeenAt(Turn(s, clk, tick, i), clk, tick)
  {
    assert Since(tick, tick) == 0;
    hide Duration, Interval, Frequency, Tune, KindFits, NotesFit, Since;
  }

  /** A buzzer poll while a note plays ends it once its time is up, and else leaves it playing. */
  lemma BuzzerWhilePlaying(s: Sys, clk: Clock, tick: nat)
    requires Inv(s) && s.b.state == Playing
    ensures var t := Step(s, clk, PollBuzzer(tick));
            && t.m == s.m && t.c == s.c && s.c.req && !s.c.ack
            && (|| t.b.state == Stopped
                || (&& t.b.state == Playing && t.b.startTick == s.b.startTick
                    && Since(tick, s.b.startTick) <= Duration(clk, 1)))
  {
    hide Duration, Interval, Frequency, Tune, KindFits, NotesFit, Since;
  }

  /** A card poll during a chime waits while a request stands unacknowledged. */
  lemma MmcWaits(s: Sys, clk: Clock, i: Inputs)
    requires Inv(s) && Chiming(s.m) && s.c.req && !s.c.ack
    ensures var t := Step(s, clk, PollMmc(i));
            t.m == s.m && t.b == s.b && t.c.req && !t.c.ack
  {
    hide Duration, Interval, Frequency, Tune, KindFits, NotesFit, Since;
  }

  /** While the note plays, the turn only lets time pass or ends the note. */
  lemma PlayingComesNearer(s: Sys, clk: Clock, now: nat, tick: nat, i: Inputs)
    requires Inv(s) && Chiming(s.m) && SeenAt(s, clk, now) && s.b.state == Playing
    requires tick < WORD && Advances(clk, now, tick)
    ensures var t := Turn(s, clk, tick, i); t.m.state == s.m.state && Nearer(s, now, t, tick, clk)
  {
    ElapsedAdds(s.b.startTick, now, tick);
    BuzzerWhilePlaying(s, clk, tick);
    MmcWaits(Step(s, clk, PollBuzzer(tick)), clk, i);
    hide Duration, Inv, Step, Since;
  }

  lemma OtherwiseComesNearer(s: Sys, clk: Clock, now: nat, tick: nat, i: Inputs)
    requires Inv(s) && Chiming(s.m) && s.b.state != Playing
    ensures var t := Turn(s, clk, tick, i);
            Chiming(t.m) ==> t.m.state == s.m.state && Nearer(s, now, t, tick, clk)
  {
    hide Duration, Interval, Frequency, Tune, KindFits, NotesFit, Since;
  }

  lemma TurnComesNearer(s: Sys, clk: Clock, now: nat, tick: nat, i: Inputs)
    requires Inv(s) && Chiming(s.m) && SeenAt(s, clk, now)
    requires tick < WORD && Advances(clk, now, tick)
    ensures var t := Turn(s, clk, tick, i);
            SeenAt(t, clk, tick) && (Chiming(t.m) ==> t.m.state == s.m.state && Nearer(s, now, t, tick, clk))
  {
    hide Inv, Turn, Nearer, SeenAt, Advances;
    TurnKeepsSeen(s, clk, now, tick, i);
    if s.b.state == Playing {
      PlayingComesNearer(s, clk, now, tick, i);
    } else {
      OtherwiseComesNearer(s, clk, now, tick, i);
    }
  }

  /** The inputs of a whole run of the main loop: a tick and pin levels for each turn. */
  type Ticks = nat -> nat
  type Pins = nat -> Inputs

  /** The state after n turns. */
  ghost function Turns(s: Sys, clk: Clock, ticks: Ticks, pins: Pins, n: nat): (t: Sys)
    requires Inv(s)
    ensures Inv(t)
  {
    if n == 0 then s else Turn(Turns(s, clk, ticks, pins, n - 1), clk, ticks(n), pins(n))
  }

  ghost predicate AllAdvance(clk: Clock, ticks: Ticks) {
    forall n: nat :: ticks(n) < WORD && Advances(clk, ticks(n), ticks(n + 1))
  }

  lemma {:induction false} SeenThroughout(s: Sys, clk: Clock, ticks: Ticks, pins: Pins, n: nat)
    requires Inv(s) && SeenAt(s, clk, ticks(0)) && AllAdvance(clk, ticks)
    ensures SeenAt(Turns(s, clk, ticks, pins, n), clk, ticks(n))
  {
    if n > 0 {
      SeenThroughout(s, clk, ticks, pins, n - 1);
      TurnKeepsSeen(Turns(s, clk, ticks, pins, n - 1), clk, ticks(n - 1), ticks(n), pins(n));
    }
  }

  /** Whatever the pins do, a chime that is playing after n turns is over after finitely many more, and the
      machine is then in the state that this chime leads to. */
  lemma {:induction false} EveryChimeEnds(s: Sys, clk: Clock, ticks: Ticks, pins: Pins, n: nat) returns (end: nat)
    requires Inv(s) && SeenAt(s, clk, ticks(0)) && AllAdvance(clk, ticks)
    requires Chiming(Turns(s, clk, ticks, pins, n).m)
    ensures end > n && !Chiming(Turns(s, clk, ticks, pins, end).m)
    ensures forall k :: n <= k < end ==>
              Turns(s, clk, ticks, pins, k).m.state == Turns(s, clk, ticks, pins, n).m.state
    decreases NotesLeft(Turns(s, clk, ticks, pins, n)), Phase(Turns(s, clk, ticks, pins, n)),
              TicksLeft(Turns(s, clk, ticks, pins, n), clk, ticks(n))
  {
    hide Inv, Turn, NotesLeft, Phase, TicksLeft;
    SeenThroughout(s, clk, ticks, pins, n);
    var t := Turns(s, clk, ticks, pins, n);
    TurnComesNearer(t, clk, ticks(n), ticks(n + 1), pins(n + 1));
    if Chiming(Turns(s, clk, ticks, pins, n + 1).m) {
      end := EveryChimeEnds(s, clk, ticks, pins, n + 1);
    } else {
      end := n + 1;
    }
  }
}
