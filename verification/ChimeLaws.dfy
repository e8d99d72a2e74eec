/** What the two machines do, in plain terms: the notes, the state the card leads to, and the sound of a note. */
module ChimeLaws {
  import opened Basics
  import opened ChimeMachine
  import opened ChimeProgress

  // ------------------------------------------------------------------------------------- the notes

  lemma {:induction false} ChimesSpelled(first: Kind, n: nat)
    ensures |Chimes(first, n)| == 3 * n
    ensures forall j :: 0 <= j < 3 * n ==>
              Chimes(first, n)[j]
              == if (first == Attach) == (j / 3 % 2 == 0) then 8 + 2 * (j % 3) else 12 - 2 * (j % 3)
  {
    if n > 0 {
      ChimesSpelled(first, n - 1);
      forall j | 3 * (n - 1) <= j < 3 * n
        ensures j / 3 == n - 1 && j % 3 == j - 3 * (n - 1)
      {
      }
    }
  }

  /** Over every run the notes requested are 8, 10, 12 for a card put in and 12, 10, 8 for one taken out, in turn. */
  lemma NotesSpelled(clk: Clock, events: seq<Event>)
    requires Inv(Start)
    ensures var m := Run(Start, clk, events).m;
            forall j :: 0 <= j < |m.notes| ==>
              m.notes[j] == if (m.first == Attach) == (j / 3 % 2 == 0) then 8 + 2 * (j % 3) else 12 - 2 * (j % 3)
  {
    hide Chimes, Step, Inv, Run;
    EveryRunChimes(clk, events);
    var m := Run(Start, clk, events).m;
    ChimesSpelled(m.first, m.done + 1);
  }

  // --------------------------------------------------------------------------------- where a card leads

  /** The card bits of the status register are the pins as the last card poll read them. */
  lemma StatusShowsPins(s: Sys, clk: Clock, e: Event)
    requires Inv(s)
    ensures var c := Step(s, clk, e).c;
            if e.PollMmc? then c.det == e.inputs.det0 && c.cs == e.inputs.cs0
            else c.det == s.c.det && c.cs == s.c.cs
  {
    hide KindAt, Chimes, Tune, Interval, Duration, Since, Frequency;
  }

  /** The machine has followed the pins: no card and MMC_n high, or a card and MMC_n low, ready exactly while it is
      selected. Both pins are low-active. */
  predicate Agrees(m: Mmc, det: bool, cs: bool) {
    if det then m.state == Detached && m.mmcN
    else m.state == (if cs then Attached else Ready) && !m.mmcN
  }

  /** The machine takes the card to be out. */
  predicate TakenOut(m: Mmc) {
    m.state == Detached
  }

  /** A card poll outside a chime, after the first look: a card that has come or gone starts its chime from the first
      note, and nothing else does; without that the machine has followed the pins. */
  lemma CardPollFollows(s: Sys, clk: Clock, i: Inputs)
    requires Inv(s) && !Chiming(s.m) && s.m.state != Init
    ensures var m := Step(s, clk, PollMmc(i)).m;
            if i.det && s.m.state != Detached then m.state == Detaching && m.soundCount == 0
            else if !i.det && s.m.state == Detached then m.state == Attaching && m.soundCount == 0
            else Agrees(m, i.det, i.cs)
  {
    hide KindAt, Chimes, Tune;
  }

  /** The first look only decides whether there is a card. */
  lemma FirstLookDecides(s: Sys, clk: Clock, i: Inputs)
    requires Inv(s) && s.m.state == Init
    ensures Step(s, clk, PollMmc(i)).m.state == if i.det then Detached else Attached
  {
    hide KindAt, Chimes, Tune;
  }

  /** A chime ends with the card taken to be where the chime said. */
  lemma ChimeLeadsTo(s: Sys, clk: Clock, i: Inputs)
    requires Inv(s) && Chiming(s.m) && !Chiming(Step(s, clk, PollMmc(i)).m)
    ensures Step(s, clk, PollMmc(i)).m.state == if s.m.state == Attaching then Attached else Detached
  {
    hide KindAt, Chimes, Tune;
  }

  lemma BuzzerLeavesCard(s: Sys, clk: Clock, tick: nat)
    requires Inv(s)
    ensures Step(s, clk, PollBuzzer(tick)).m == s.m
  {
  }

  lemma {:induction false} BuzzersLeaveCard(clk: Clock, events: seq<Event>, polls: seq<Event>)
    requires Inv(Start) && forall e :: e in polls ==> e.PollBuzzer?
    ensures Run(Start, clk, events + polls).m == Run(Start, clk, events).m
  {
    hide Inv, Step;
    if polls == [] {
      assert events + polls == events;
    } else {
      var front, e := polls[..|polls| - 1], polls[|polls| - 1];
      assert (events + polls)[..|events + polls| - 1] == events + front;
      assert e in polls;
      BuzzersLeaveCard(clk, events, front);
      BuzzerLeavesCard(Run(Start, clk, events + front), clk, e.tick);
    }
  }

  /** Over every run, after the first look: if no chime was under way when the last card poll began, and none is now,
      the state is the one that the pins at that poll call for. */
  lemma EveryRunFollowsPins(clk: Clock, before: seq<Event>, i: Inputs, polls: seq<Event>)
    requires Inv(Start) && forall e :: e in polls ==> e.PollBuzzer?
    requires var m := Run(Start, clk, before).m; !Chiming(m) && m.state != Init
    ensures var m := Run(Start, clk, before + [PollMmc(i)] + polls).m;
            !Chiming(m) ==> Agrees(m, i.det, i.cs)
  {
    hide Inv, Step;
    BuzzersLeaveCard(clk, before + [PollMmc(i)], polls);
    assert (before + [PollMmc(i)])[..|before|] == before;
    CardPollFollows(Run(Start, clk, before), clk, i);
  }

  // ------------------------------------------------------------------------------------ steady pins

  lemma TurnPolls(s: Sys, clk: Clock, tick: nat, i: Inputs) returns (mid: Sys)
    requires Inv(s)
    ensures Inv(mid) && mid.m == s.m && Turn(s, clk, tick, i) == Step(mid, clk, PollMmc(i))
  {
    mid := Step(s, clk, PollBuzzer(tick));
    BuzzerLeavesCard(s, clk, tick);
  }

  /** Once it has followed pins that stay, the machine stays. */
  lemma {:induction false} StaysAgreed(s: Sys, clk: Clock, ticks: Ticks, pins: Pins, n: nat, k: nat,
                                       det: bool, cs: bool)
    requires Inv(s) && n <= k && Agrees(Turns(s, clk, ticks, pins, n).m, det, cs)
    requires forall j: nat :: n < j ==> pins(j).det == det && pins(j).cs == cs
    ensures Agrees(Turns(s, clk, ticks, pins, k).m, det, cs)
    decreases k
  {
    hide Inv, Turn, Step;
    if n < k {
      StaysAgreed(s, clk, ticks, pins, n, k - 1, det, cs);
      var mid := TurnPolls(Turns(s, clk, ticks, pins, k - 1), clk, ticks(k), pins(k));
      CardPollFollows(mid, clk, pins(k));
    }
  }

  /** One turn from a state that takes the card to be where the pins say. */
  lemma FollowsNext(s: Sys, clk: Clock, ticks: Ticks, pins: Pins, n: nat, det: bool, cs: bool)
    requires Inv(s) && pins(n + 1).det == det && pins(n + 1).cs == cs
    requires var m := Turns(s, clk, ticks, pins, n).m; !Chiming(m) && m.state != Init
    ensures var m, m' := Turns(s, clk, ticks, pins, n).m, Turns(s, clk, ticks, pins, n + 1).m;
            if det == TakenOut(m) then Agrees(m', det, cs) else m'.state == if det then Detaching else Attaching
  {
    hide Inv, Turn, Step;
    var mid := TurnPolls(Turns(s, clk, ticks, pins, n), clk, ticks(n + 1), pins(n + 1));
    CardPollFollows(mid, clk, pins(n + 1));
  }

  /** The turn after which a chime is over. */
  lemma ChimeIsOver(s: Sys, clk: Clock, ticks: Ticks, pins: Pins, n: nat) returns (end: nat)
    requires Inv(s) && SeenAt(s, clk, ticks(0)) && AllAdvance(clk, ticks)
    requires Chiming(Turns(s, clk, ticks, pins, n).m)
    ensures n < end
    ensures var m := Turns(s, clk, ticks, pins, n).m;
            Turns(s, clk, ticks, pins, end).m.state == if m.state == Attaching then Attached else Detached
  {
    hide Inv, Turn, Step;
    end := EveryChimeEnds(s, clk, ticks, pins, n);
    var t := Turns(s, clk, ticks, pins, end - 1);
    var mid := TurnPolls(t, clk, ticks(end), pins(end));
    assert t.m.state == Turns(s, clk, ticks, pins, n).m.state;
    ChimeLeadsTo(mid, clk, pins(end));
  }

  lemma LookedAt(s: Sys, clk: Clock, ticks: Ticks, pins: Pins, n: nat)
    requires Inv(s) && Turns(s, clk, ticks, pins, n).m.state == Init
    ensures Turns(s, clk, ticks, pins, n + 1).m.state == if pins(n + 1).det then Detached else Attached
  {
    hide Inv, Turn, Step;
    var mid := TurnPolls(Turns(s, clk, ticks, pins, n), clk, ticks(n + 1), pins(n + 1));
    FirstLookDecides(mid, clk, pins(n + 1));
  }

  /** Pins that stay as they are from turn n on are followed after finitely many turns, for good, through at most the
      chime under way and one more. */
  lemma SteadyPinsAreFollowed(s: Sys, clk: Clock, ticks: Ticks, pins: Pins, n: nat, det: bool, cs: bool)
      returns (end: nat)
    requires Inv(s) && SeenAt(s, clk, ticks(0)) && AllAdvance(clk, ticks)
    requires forall j: nat :: n < j ==> pins(j).det == det && pins(j).cs == cs
    ensures n <= end && forall k :: end <= k ==> Agrees(Turns(s, clk, ticks, pins, k).m, det, cs)
  {
    hide Inv, Turns, Agrees, AllAdvance, SeenAt;
    var a := n;
    if Chiming(Turns(s, clk, ticks, pins, n).m) {
      a := ChimeIsOver(s, clk, ticks, pins, n);
    } else if Turns(s, clk, ticks, pins, n).m.state == Init {
      LookedAt(s, clk, ticks, pins, n);
      a := n + 1;
    }
    FollowsNext(s, clk, ticks, pins, a, det, cs);
    end := a + 1;
    if det != TakenOut(Turns(s, clk, ticks, pins, a).m) {
      var b := ChimeIsOver(s, clk, ticks, pins, a + 1);
      FollowsNext(s, clk, ticks, pins, b, det, cs);
      end := b + 1;
    }
    forall k | end <= k
      ensures Agrees(Turns(s, clk, ticks, pins, k).m, det, cs)
    {
      StaysAgreed(s, clk, ticks, pins, end, k, det, cs);
    }
  }

  // -------------------------------------------------------------------------------- the sound of a note

  /** A note ends with the first poll more than 80 ms after its start. Until then each poll more than half a period
      after the last edge drives the pin: half a period is 1915, 1519 or 1278 microseconds. */
  lemma NoteSounds(s: Sys, clk: Clock, tick: nat)
    requires Inv(s) && s.b.state == Playing
    ensures var b, b' := s.b, Step(s, clk, PollBuzzer(tick)).b;
            var half := if s.c.note == 8 then 1915 else if s.c.note == 10 then 1519 else 1278;
            && (b'.state == if (tick - b.startTick) % 0x1_0000_0000 > 80 * clk.ms then Stopped else Playing)
            && b'.startTick == b.startTick
            && if b'.state == Playing && (tick - b.lastTick) % 0x1_0000_0000 > half * clk.us
               then b'.edges == b.edges + 1 && b'.lastTick == tick
               else b'.edges == b.edges && b'.pin == b.pin && b'.lastTick == b.lastTick
  {
    hide KindAt, Chimes, NotesFit, KindFits;
    RequestedIsPlayable(s.c, s.m, s.b);
    assert Shl40(1) == 80 by { assert Shl40(0) == 40; }
  }

  /** A note starts at the poll that finds its request, with no edge yet. */
  lemma NoteStarts(s: Sys, clk: Clock, tick: nat)
    requires Inv(s) && s.b.state == Idle && s.c.req
    ensures var b := Step(s, clk, PollBuzzer(tick)).b;
            b.state == Playing && b.startTick == tick && b.lastTick == tick && b.edges == 0
  {
  }

  /** The pin alternates: while a note plays, its first edge drives the pin low, the second high, and so on. */
  ghost predicate Alternates(b: Buzzer) {
    b.state == Playing ==> b.flag == (b.edges % 2 == 1) && (b.edges > 0 ==> b.pin == (b.edges % 2 == 0))
  }

  lemma StepAlternates(s: Sys, clk: Clock, e: Event)
    requires Inv(s) && Alternates(s.b)
    ensures Alternates(Step(s, clk, e).b)
  {
    hide KindAt, Chimes, Tune, Interval, Duration, Since, Frequency;
  }

  lemma {:induction false} PinAlternates(clk: Clock, events: seq<Event>)
    requires Inv(Start)
    ensures Alternates(Run(Start, clk, events).b)
    ensures var b := Run(Start, clk, events).b;
            b.state == Playing && b.edges > 0 ==> b.pin == (b.edges % 2 == 0)
  {
    hide Inv, Step;
    if events != [] {
      PinAlternates(clk, events[..|events| - 1]);
      StepAlternates(Run(Start, clk, events[..|events| - 1]), clk, events[|events| - 1]);
    }
  }
}
