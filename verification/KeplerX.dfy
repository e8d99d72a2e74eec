/** The two polls and the main loop in their own form: fields and pins updated in place. */
module KeplerX {
  import opened ChimeMachine
  import opened ChimeProgress

  class KeplerX {
    const clk: Clock
    // shared context
    var buzzerReq: bool
    var buzzerAck: bool
    var buzzerNote: nat
    var buzzerLength: nat
    var statusDet: bool
    var statusCs: bool
    // card machine and MMC_n
    var mmcState: MmcState
    var soundCount: nat
    var mmcN: bool
    // buzzer machine and its pin
    var buzzerState: BuzzerState
    var startTick: nat
    var lastTick: nat
    var flag: bool
    var pin: bool

    /** The events since start-up, and the history they leave behind. */
    ghost var events: seq<Event>
    ghost var notes: seq<nat>
    ghost var episodes: nat
    ghost var edges: nat
    ghost var first: Kind
    ghost var done: nat

    ghost function View(): Sys
      reads this
    {
      Sys(Context(buzzerReq, buzzerAck, buzzerNote, buzzerLength, statusDet, statusCs),
          Mmc(mmcState, soundCount, mmcN, notes, first, done),
          Buzzer(buzzerState, startTick, lastTick, flag, pin, episodes, edges))
    }

    ghost predicate Valid()
      reads this
    {
      Inv(Start) && View() == Run(Start, clk, events)
    }

    constructor (clk: Clock)
      ensures Valid() && events == [] && View() == Start && this.clk == clk
    {
      this.clk := clk;
      buzzerReq, buzzerAck, buzzerNote, buzzerLength := false, false, 0, 0;
      statusDet, statusCs := false, false;
      mmcState, soundCount, mmcN := Init, 0, true;
      buzzerState, startTick, lastTick, flag, pin := Idle, 0, 0, false, false;
      events, notes, episodes, edges, first, done := [], [], 0, 0, Attach, 0;
      new;
      EveryRunChimes(clk, []);
    }

    /** Records that the event just executed belongs to the run. */
    ghost method Record(e: Event, was: Sys)
      requires Inv(Start) && was == Run(Start, clk, events) && View() == Step(was, clk, e)
      modifies `events
      ensures Valid() && View() == old(View()) && events == old(events) + [e]
    {
      hide Inv, Step;
      assert (events + [e])[..|events|] == events;
      events := events + [e];
    }

    /** `kx_buzzer_poll` */
    method PollBuzzerMachine(tick: nat)
      requires Playable(View().c, View().b)
      modifies `buzzerAck, `buzzerState, `startTick, `lastTick, `flag, `pin, `episodes, `edges
      ensures (View().c, View().b) == BuzzerPoll(old(View().c), old(View().b), clk, tick)
    {
      hide Frequency, Interval, Duration, Since;
      match buzzerState {
        case Idle =>
          if buzzerReq {
            buzzerState := Playing;
            startTick := tick;
            lastTick := tick;
            flag := false;
            episodes, edges := episodes + 1, 0;
          }
        case Playing =>
          if !buzzerReq {
            buzzerState := Stopped;
          } else if Since(tick, startTick) > Duration(clk, buzzerLength) {
            buzzerState := Stopped;
          } else if Since(tick, lastTick) > Interval(clk, buzzerNote) {
            lastTick := tick;
            if flag {
              pin := true;
            } else {
              pin := false;
            }
            flag, edges := !flag, edges + 1;
          }
        case Stopped =>
          buzzerAck := true;
          if !buzzerReq {
            buzzerAck := false;
            buzzerState := Idle;
          }
      }
    }

    /** One of the two chime states of the card poll. */
    method Chime(kind: Kind)
      requires !buzzerReq && !buzzerAck ==> soundCount < 3
      modifies `buzzerReq, `buzzerNote, `buzzerLength, `soundCount, `mmcState, `notes, `done
      ensures (View().c, View().m) == ChimePoll(old(View().c), old(View().m), kind)
    {
      if !buzzerReq && !buzzerAck {
        buzzerNote := Tune(kind)[soundCount];
        buzzerLength := 1;
        buzzerReq := true;
        soundCount := soundCount + 1;
        notes := notes + [buzzerNote];
      } else if buzzerAck {
        buzzerReq := false;
        if soundCount == 3 {
          mmcState := if kind == Attach then Attached else Detached;
          done := done + 1;
        }
      }
    }

    /** The states with a card: MMC_n goes low; a removal starts the detach chime, and CS at `level` leads to
        `next`. */
    method CardInSlot(i: Inputs, level: bool, next: MmcState)
      modifies `mmcN, `mmcState, `soundCount
      ensures View().c == old(View().c)
      ensures View().m == var m := old(View().m).(mmcN := false);
                          if i.det then m.(state := Detaching, soundCount := 0)
                          else if i.cs == level then m.(state := next)
                          else m
    {
      mmcN := false;
      if i.det {
        mmcState := Detaching;
        soundCount := 0;
      } else if i.cs == level {
        mmcState := next;
      }
    }

    method FirstLook(i: Inputs)
      modifies `mmcState, `first
      ensures View().c == old(View().c)
      ensures View().m == if i.det then old(View().m).(state := Detached, first := Attach)
                          else old(View().m).(state := Attached, first := Detach)
    {
      if i.det {
        mmcState, first := Detached, Attach;
      } else {
        mmcState, first := Attached, Detach;
      }
    }

    method EmptySlot(i: Inputs)
      modifies `mmcN, `mmcState, `soundCount
      ensures View().c == old(View().c)
      ensures View().m == if !i.det then old(View().m).(mmcN := true, state := Attaching, soundCount := 0)
                          else old(View().m).(mmcN := true)
    {
      mmcN := true;
      if !i.det {
        mmcState := Attaching;
        soundCount := 0;
      }
    }

    method SetStatus(i: Inputs)
      modifies `statusDet, `statusCs
      ensures View().c == old(View().c).(det := i.det0, cs := i.cs0) && View().m == old(View().m)
    {
      statusDet := i.det0;
      statusCs := i.cs0;
    }

    /** `kx_mmc_poll` */
    method PollMmcMachine(i: Inputs)
      requires ChimeOk(View().c, View().m)
      modifies `buzzerReq, `buzzerNote, `buzzerLength, `statusDet, `statusCs
      modifies `mmcState, `soundCount, `mmcN, `notes, `first, `done
      ensures (View().c, View().m) == MmcPoll(old(View().c), old(View().m), i)
    {
      hide ChimePoll, Tune;
      SetStatus(i);
      assert mmcState == View().m.state;
      match mmcState {
        case Init => FirstLook(i);
        case Attaching => Chime(Attach);
        case Attached => CardInSlot(i, false, Ready);
        case Ready => CardInSlot(i, true, Attached);
        case Detaching => Chime(Detach);
        case Detached => EmptySlot(i);
      }
    }

    method BuzzerTurn(tick: nat)
      requires Valid()
      modifies this
      ensures Valid() && events == old(events) + [PollBuzzer(tick)]
      ensures View() == Step(old(View()), clk, PollBuzzer(tick))
    {
      hide Inv, Run, BuzzerPoll;
      ghost var was := View();
      BuzzerKeepsInv(was, clk, tick);
      PollBuzzerMachine(tick);
      Record(PollBuzzer(tick), was);
    }

    method MmcTurn(i: Inputs)
      requires Valid()
      modifies this
      ensures Valid() && events == old(events) + [PollMmc(i)]
      ensures View() == Step(old(View()), clk, PollMmc(i))
    {
      hide Inv, Run, MmcPoll;
      ghost var was := View();
      MmcKeepsInv(was, i);
      PollMmcMachine(i);
      Record(PollMmc(i), was);
    }

    /** The body of the main loop, with the SysTick value and pin levels it sees. */
    method LoopBody(tick: nat, i: Inputs)
      requires Valid()
      modifies this
      ensures Valid() && View() == Turn(old(View()), clk, tick, i)
      ensures events == old(events) + [PollBuzzer(tick), PollMmc(i)]
    {
      hide Inv, Run, Step;
      BuzzerTurn(tick);
      MmcTurn(i);
    }

    /** The first n turns of the main loop. */
    method MainLoop(n: nat, ticks: Ticks, pins: Pins)
      requires Valid()
      modifies this
      ensures Valid() && View() == Turns(old(View()), clk, ticks, pins, n)
      ensures |events| == old(|events|) + 2 * n && old(events) <= events
      ensures forall k :: 0 <= k < n ==>
                && events[old(|events|) + 2 * k] == PollBuzzer(ticks(k + 1))
                && events[old(|events|) + 2 * k + 1] == PollMmc(pins(k + 1))
    {
      hide Inv, Run, Turn;
      for k := 0 to n
        invariant Valid() && View() == Turns(old(View()), clk, ticks, pins, k)
        invariant |events| == old(|events|) + 2 * k && old(events) <= events
        invariant forall j :: 0 <= j < k ==>
                    && events[old(|events|) + 2 * j] == PollBuzzer(ticks(j + 1))
                    && events[old(|events|) + 2 * j + 1] == PollMmc(pins(j + 1))
      {
        LoopBody(ticks(k + 1), pins(k + 1));
      }
    }

    /** The main loop from a chime to its end, which comes whatever the pins do. */
    method LoopThroughChime(ticks: Ticks, pins: Pins) returns (n: nat)
      requires Valid() && SeenAt(View(), clk, ticks(0)) && AllAdvance(clk, ticks)
      modifies this
      ensures Valid() && View() == Turns(old(View()), clk, ticks, pins, n) && !Chiming(View().m)
      ensures forall k :: 0 <= k < n ==> Turns(old(View()), clk, ticks, pins, k).m.state == old(mmcState)
    {
      hide Inv, Run, Turn, SeenAt, AllAdvance;
      n := 0;
      ghost var end := 0;
      if mmcState == Attaching || mmcState == Detaching {
        end := EveryChimeEnds(View(), clk, ticks, pins, 0);
      }
      while mmcState == Attaching || mmcState == Detaching
        invariant Valid() && View() == Turns(old(View()), clk, ticks, pins, n) && n <= end
        invariant forall k :: 0 <= k < end ==> Turns(old(View()), clk, ticks, pins, k).m.state == old(mmcState)
        invariant !Chiming(Turns(old(View()), clk, ticks, pins, end).m)
        decreases end - n
      {
        assert mmcState == View().m.state;
        LoopBody(ticks(n + 1), pins(n + 1));
        n := n + 1;
      }
      assert mmcState == View().m.state;
    }
  }
}
