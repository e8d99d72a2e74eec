/** The alarm scheduler: alarms threaded on a circular doubly linked list whose head is not an alarm, walked by
    every clock tick while entries whose callbacks return zero are unlinked. */
module AlarmList {
  import opened Basics
  import opened AlarmTimes

  /** A list entry: an alarm, or the head, of which only the links are used. `calls` is the state behind the
      callback's context; `first` and `firings` are history: the tick it was first due, and the ticks of its
      calls since it was started. */
  class Alarm {
    var next: Alarm?
    var previous: Alarm?
    var time: nat
    var callback: Callback
    var calls: nat
    ghost var first: nat
    ghost var firings: seq<nat>

    constructor ()
      ensures next == null && previous == null
    {
      next, previous := null, null;
      callback := _ => 0;
    }

    /** `first`, `callback` and `firings` say that it waits for its next call at `time`. */
    ghost predicate Pending(now: nat)
      reads `time, `callback, `calls, `first, `firings
    {
      Snapshot().Waits(now)
    }

    /** All that a tick may look at or change, but for the links. */
    ghost function Snapshot(): Snapshot
      reads `time, `callback, `calls, `first, `firings
    {
      Snap(time, callback, calls, first, firings)
    }

    predicate SelfLinked()
      reads `next, `previous
    {
      next == this && previous == this
    }
  }

  datatype Snapshot = Snap(time: nat, callback: Callback, calls: nat, first: nat, firings: seq<nat>) {
    ghost predicate Waits(now: nat) {
      calls == |firings| && Waiting(first, callback, firings, now, time)
    }
  }

  ghost function Snapshots(all: seq<Alarm>): (r: seq<Snapshot>)
    reads all
    ensures |r| == |all| && forall i :: 0 <= i < |all| ==> r[i] == all[i].Snapshot()
  {
    seq(|all|, i requires 0 <= i < |all| reads all => all[i].Snapshot())
  }

  /** What the tick that makes the time `now` owes an alarm registered when it began: `s` and `t` are the alarm
      before and after, `listed` whether it is registered after. */
  ghost predicate Ticked(s: Snapshot, t: Snapshot, listed: bool, now: nat) {
    var period := s.callback(s.calls);
    && t.callback == s.callback && t.first == s.first
    && if s.time <= now then
         && t.firings == s.firings + [now]
         && if period == 0
            then !listed && Finished(t.first, t.callback, t.firings, now)
            else listed && t.time == s.time + period
       else t == s && listed
  }

  /** The position after i in a ring of n. */
  function After(i: nat, n: nat): nat {
    if i + 1 == n then 0 else i + 1
  }

  /** `nodes` are the entries of a circular list, in order of `next`, and `previous` is its inverse. */
  ghost predicate Linked(nodes: seq<Alarm>)
    reads nodes`next, nodes`previous
  {
    && (forall i, j :: 0 <= i < j < |nodes| ==> nodes[i] != nodes[j])
    && (forall i :: 0 <= i < |nodes| ==> nodes[i].next == nodes[After(i, |nodes|)])
    && (forall i :: 0 <= i < |nodes| ==> nodes[After(i, |nodes|)].previous == nodes[i])
  }

  lemma LinkedAt(nodes: seq<Alarm>, i: nat)
    requires Linked(nodes) && i < |nodes|
    ensures nodes[i].next == nodes[After(i, |nodes|)]
    ensures forall j :: 0 <= j < |nodes| && j != i ==> nodes[j] != nodes[i]
    ensures forall j, k :: 0 <= j < k < |nodes| ==> nodes[j] != nodes[k]
  {
  }

  /** The entry reached from `a` by following k `next` links. */
  ghost function Walk(a: Alarm?, k: nat): Alarm?
    reads *
  {
    if k == 0 then a
    else
      var b := Walk(a, k - 1);
      if b == null then null else b.next
  }

  /** A walk from `a` ends at the head. */
  ghost predicate Reaches(a: Alarm?, head: Alarm)
    reads *
  {
    exists k: nat :: Walk(a, k) == head
  }

  lemma {:induction false} WalkInRing(nodes: seq<Alarm>, p: nat, k: nat)
    requires Linked(nodes) && p < |nodes| && p + k <= |nodes|
    ensures Walk(nodes[p], k) == if p + k < |nodes| then nodes[p + k] else nodes[0]
  {
    if k > 0 {
      WalkInRing(nodes, p, k - 1);
    }
  }

  /** From every entry of a ring a walk ends at its first. */
  lemma RingReaches(nodes: seq<Alarm>, p: nat)
    requires Linked(nodes) && p < |nodes|
    ensures Reaches(nodes[p], nodes[0])
  {
    WalkInRing(nodes, p, |nodes| - p);
    assert Walk(nodes[p], |nodes| - p) == nodes[0];
  }

  lemma {:induction false} WalkStays(caught: set<Alarm>, a: Alarm, k: nat)
    requires a in caught && forall b :: b in caught ==> b.next in caught
    ensures Walk(a, k) in caught
  {
    if k > 0 {
      WalkStays(caught, a, k - 1);
    }
  }

  /** From a set of entries that `next` does not leave, a walk never ends at a head outside. */
  lemma NeverReaches(caught: set<Alarm>, a: Alarm, head: Alarm)
    requires a in caught && head !in caught && forall b :: b in caught ==> b.next in caught
    ensures !Reaches(a, head)
  {
    forall k: nat
      ensures Walk(a, k) != head
    {
      WalkStays(caught, a, k);
    }
  }

  /** `alt_llist_insert`: puts `entry` right after the head. Walks from the head come back to it exactly if the
      entry was not in the list before. */
  method Insert(head: Alarm, entry: Alarm, ghost nodes: seq<Alarm>)
    requires Linked(nodes) && nodes != [] && nodes[0] == head && entry != head
    modifies nodes`next, nodes`previous, entry`next, entry`previous
    ensures entry !in nodes ==> Linked([head, entry] + nodes[1..])
    ensures Reaches(head.next, head) <==> entry !in nodes
  {
    ghost var n := |nodes|;
    assert nodes[0].next == nodes[After(0, n)];
    entry.previous := head;
    entry.next := head.next;
    head.next.previous := entry;
    head.next := entry;
    assert forall p :: 1 <= p < n ==> After(p, n) != After(0, n);
    if entry !in nodes {
      InsertedIsLinked(nodes, entry);
      RingReaches([head, entry] + nodes[1..], 1);
    } else {
      ghost var i :| 0 < i < n && nodes[i] == entry;
      InsertedTwice(nodes, i);
    }
  }

  lemma TwiceIsNoRing(nodes: seq<Alarm>)
    requires 1 < |nodes| && nodes[1] in nodes[2..]
    ensures !Linked(nodes)
  {
    var i :| 0 <= i < |nodes[2..]| && nodes[2..][i] == nodes[1];
    assert nodes[i + 2] == nodes[1];
  }

  /** Inserting entry i again closes a ring that leaves out the head. */
  lemma InsertedTwice(nodes: seq<Alarm>, i: nat)
    requires 0 < i < |nodes| && forall j, k :: 0 <= j < k < |nodes| ==> nodes[j] != nodes[k]
    requires forall p :: 1 <= p < i ==> nodes[p].next == nodes[p + 1]
    requires nodes[i].next == nodes[1]
    ensures !Reaches(nodes[i], nodes[0])
  {
    var caught := set p | 1 <= p <= i :: nodes[p];
    forall b | b in caught
      ensures b.next in caught
    {
      var p :| 1 <= p <= i && nodes[p] == b;
      assert nodes[p].next == nodes[if p < i then p + 1 else 1];
    }
    NeverReaches(caught, nodes[i], nodes[0]);
  }

  /** Putting an entry between the head and what followed it leaves a ring. */
  lemma InsertedIsLinked(nodes: seq<Alarm>, entry: Alarm)
    requires nodes != [] && entry !in nodes && forall j, k :: 0 <= j < k < |nodes| ==> nodes[j] != nodes[k]
    requires forall p :: 1 <= p < |nodes| ==>
               && nodes[p].next == nodes[After(p, |nodes|)]
               && nodes[After(p, |nodes|)].previous == nodes[p]
    requires nodes[0].next == entry && entry.previous == nodes[0]
    requires entry.next == nodes[After(0, |nodes|)] && nodes[After(0, |nodes|)].previous == entry
    ensures Linked([nodes[0], entry] + nodes[1..])
  {
    var n, t := |nodes|, [nodes[0], entry] + nodes[1..];
    InsertedDistinct(nodes, entry);
    forall j | 0 <= j <= n
      ensures t[j].next == t[After(j, n + 1)] && t[After(j, n + 1)].previous == t[j]
    {
      if j > 0 {
        InsertedAt(nodes, entry, j);
      }
    }
  }

  lemma InsertedDistinct(nodes: seq<Alarm>, entry: Alarm)
    requires nodes != [] && entry !in nodes && forall j, k :: 0 <= j < k < |nodes| ==> nodes[j] != nodes[k]
    ensures var t := [nodes[0], entry] + nodes[1..]; forall j, k :: 0 <= j < k < |t| ==> t[j] != t[k]
  {
    var t := [nodes[0], entry] + nodes[1..];
    assert forall j :: 2 <= j < |t| ==> t[j] == nodes[j - 1];
  }

  lemma InsertedAt(nodes: seq<Alarm>, entry: Alarm, j: nat)
    requires 0 < j <= |nodes|
    ensures var t := [nodes[0], entry] + nodes[1..];
            && t[j] == (if j == 1 then entry else nodes[j - 1])
            && t[After(j, |nodes| + 1)] == nodes[After(j - 1, |nodes|)]
  {
  }

  /** The ring `nodes` with position i, if it is not the head's, cut out. */
  ghost function Cut(nodes: seq<Alarm>, i: nat): seq<Alarm>
    requires i < |nodes|
  {
    if i == 0 then nodes else nodes[..i] + nodes[i + 1..]
  }

  lemma CutElements(nodes: seq<Alarm>, i: nat)
    requires i < |nodes|
    ensures |Cut(nodes, i)| == if i == 0 then |nodes| else |nodes| - 1
    ensures Cut(nodes, 0) == nodes && Cut(nodes, i) != [] && (i > 0 ==> Cut(nodes, i)[0] == nodes[0])
    ensures forall j :: 1 <= j < |Cut(nodes, i)| ==>
              Cut(nodes, i)[j] == nodes[if i == 0 || j < i then j else j + 1]
  {
  }

  /** Bridging position i leaves the rest a ring. */
  lemma BridgedIsLinked(nodes: seq<Alarm>, i: nat)
    requires 0 < i < |nodes| && forall j, k :: 0 <= j < k < |nodes| ==> nodes[j] != nodes[k]
    requires forall p :: 0 <= p < |nodes| && p != i && p != i - 1 ==>
               && nodes[p].next == nodes[After(p, |nodes|)]
               && nodes[After(p, |nodes|)].previous == nodes[p]
    requires nodes[i - 1].next == nodes[After(i, |nodes|)] && nodes[After(i, |nodes|)].previous == nodes[i - 1]
    ensures Linked(Cut(nodes, i))
  {
    var n, rest := |nodes|, Cut(nodes, i);
    forall j | 0 <= j < n - 1
      ensures rest[j].next == rest[After(j, n - 1)] && rest[After(j, n - 1)].previous == rest[j]
    {
      var p := if j < i then j else j + 1;
      assert rest[j] == nodes[p];
      assert rest[After(j, n - 1)] == nodes[After(if p == i - 1 then i else p, n)];
    }
  }

  /** `alt_llist_remove`: unlinks `entry`, which is at position i or (i = 0) outside and pointing to itself, and
      leaves it pointing to itself, so removing it again is harmless. A walk that was going on to entry p still
      ends at the head, unless it is `entry` that it was going on to. */
  method Remove(entry: Alarm, ghost nodes: seq<Alarm>, ghost i: nat)
    requires Linked(nodes) && i < |nodes|
    requires if i > 0 then nodes[i] == entry else entry !in nodes && entry.SelfLinked()
    modifies nodes`next, nodes`previous, entry`next, entry`previous
    ensures entry.SelfLinked() && Linked(Cut(nodes, i))
    ensures i > 0 ==> forall p :: 0 <= p < |nodes| ==> (Reaches(nodes[p], nodes[0]) <==> p != i)
  {
    ghost var n := |nodes|;
    if i > 0 {
      assert nodes[After(i, n)].previous == entry && entry.next == nodes[After(i, n)];
      assert nodes[After(i - 1, n)].previous == nodes[i - 1];
    }
    entry.next.previous := entry.previous;
    entry.previous.next := entry.next;
    entry.previous := entry;
    entry.next := entry;
    if i > 0 {
      assert nodes[i - 1].next == nodes[After(i, n)] && nodes[After(i, n)].previous == nodes[i - 1];
      assert forall p :: 0 <= p < n && p != i && p != i - 1 ==> After(p, n) != After(i, n) && After(p, n) != i;
      BridgedIsLinked(nodes, i);
      CutReaches(nodes, i);
    } else {
      assert forall j :: 0 <= j < n ==> nodes[j] != entry;
    }
  }

  lemma CutReaches(nodes: seq<Alarm>, i: nat)
    requires 0 < i < |nodes| && forall j, k :: 0 <= j < k < |nodes| ==> nodes[j] != nodes[k]
    requires Linked(Cut(nodes, i)) && nodes[i].next == nodes[i]
    ensures forall p :: 0 <= p < |nodes| ==> (Reaches(nodes[p], nodes[0]) <==> p != i)
  {
    hide Linked;
    forall p | 0 <= p < |nodes|
      ensures Reaches(nodes[p], nodes[0]) <==> p != i
    {
      if p == i {
        NeverReaches({nodes[i]}, nodes[i], nodes[0]);
      } else {
        RingReaches(Cut(nodes, i), if p < i then p else p - 1);
      }
    }
  }

  /** The entries of s that are not in `gone`, in order. */
  ghost function Without(s: seq<Alarm>, gone: set<Alarm>): seq<Alarm> {
    if s == [] then []
    else
      var front, a := s[..|s| - 1], s[|s| - 1];
      Without(front, gone) + (if a in gone then [] else [a])
  }

  lemma {:induction false} WithoutElement(s: seq<Alarm>, gone: set<Alarm>, a: Alarm)
    ensures a in Without(s, gone) <==> a in s && a !in gone
  {
    if s != [] {
      var front := s[..|s| - 1];
      WithoutElement(front, gone, a);
      assert s == front + [s[|s| - 1]];
    }
  }

  lemma {:induction false} WithoutMore(s: seq<Alarm>, gone: set<Alarm>, a: Alarm)
    requires a !in s
    ensures Without(s, gone + {a}) == Without(s, gone)
  {
    if s != [] {
      WithoutMore(s[..|s| - 1], gone, a);
    }
  }

  /** The list while a tick has visited the first i entries of `all`. */
  ghost function Midway(all: seq<Alarm>, gone: set<Alarm>, i: nat): seq<Alarm>
    requires i <= |all|
  {
    Without(all[..i], gone) + all[i..]
  }

  /** Visiting entry i, which is at position m, and unlinking it or not; the saved `next` is entry i + 1. */
  lemma MidwayStep(all: seq<Alarm>, gone: set<Alarm>, i: nat) returns (m: nat)
    requires 0 < i < |all| && all[i] !in all[..i] && all[i] !in gone && all[0] !in gone
    ensures var nodes := Midway(all, gone, i);
            && 0 < m < |nodes| && nodes[m] == all[i] && nodes[0] == all[0]
            && nodes[After(m, |nodes|)] == (if i + 1 < |all| then all[i + 1] else all[0])
            && Midway(all, gone, i + 1) == nodes
            && Midway(all, gone + {all[i]}, i + 1) == Cut(nodes, m)
  {
    m := |Without(all[..i], gone)|;
    WithoutMore(all[..i], gone, all[i]);
    assert all[..i + 1][..i] == all[..i];
    WithoutFirst(all[..i], gone);
    assert Midway(all, gone, i)[0] == all[0];
  }

  lemma MidwayElements(all: seq<Alarm>, gone: set<Alarm>, i: nat)
    requires i <= |all| && forall k :: i <= k < |all| ==> all[k] !in gone
    ensures forall a :: a in Midway(all, gone, i) ==> a in all && a !in gone
    ensures forall k :: 0 <= k < |all| && all[k] !in gone ==> all[k] in Midway(all, gone, i)
  {
    forall a | a in Midway(all, gone, i)
      ensures a in all && a !in gone
    {
      var kept := Without(all[..i], gone);
      var j :| 0 <= j < |Midway(all, gone, i)| && Midway(all, gone, i)[j] == a;
      if j < |kept| {
        assert a in kept;
        WithoutElement(all[..i], gone, a);
        assert a in all[..i];
      } else {
        assert a == all[i + (j - |kept|)];
      }
    }
    forall k | 0 <= k < |all| && all[k] !in gone
      ensures all[k] in Midway(all, gone, i)
    {
      if k < i {
        assert all[k] == all[..i][k];
        WithoutElement(all[..i], gone, all[k]);
      } else {
        assert all[k] == all[i..][k - i];
      }
    }
  }

  lemma {:induction false} WithoutFirst(s: seq<Alarm>, gone: set<Alarm>)
    requires s != [] && s[0] !in gone
    ensures Without(s, gone) != [] && Without(s, gone)[0] == s[0]
  {
    if |s| > 1 {
      WithoutFirst(s[..|s| - 1], gone);
    }
  }

  lemma MidwayHead(all: seq<Alarm>)
    requires all != []
    ensures Midway(all, {}, 1) == all
    ensures all[After(0, |all|)] == if 1 < |all| then all[1] else all[0]
  {
    assert all[..1][..0] == [] && all[..1] == [all[0]];
    assert Without(all[..1], {}) == Without([], {}) + [all[0]];
  }

  lemma {:induction false} WithoutNothing(s: seq<Alarm>, a: Alarm)
    requires a !in s
    ensures Without(s, {a}) == s
  {
    if s != [] {
      WithoutNothing(s[..|s| - 1], a);
    }
  }

  lemma {:induction false} WithoutIsCut(s: seq<Alarm>, a: Alarm, i: nat)
    requires 0 < i < |s| && s[i] == a && forall j :: 0 <= j < |s| && j != i ==> s[j] != a
    ensures Without(s, {a}) == Cut(s, i)
  {
    var n := |s| - 1;
    if i == n {
      WithoutNothing(s[..n], a);
    } else {
      WithoutIsCut(s[..n], a, i);
      assert s[..n][..i] + s[..n][i + 1..] + [s[n]] == s[..i] + s[i + 1..];
    }
  }

  class Scheduler {
    const head: Alarm
    const tickRate: nat
    var nticks: nat
    ghost var nodes: seq<Alarm>

    /** The list is well linked from the head, and every registered alarm waits for a tick still to come. */
    ghost predicate Valid()
      reads this, nodes
    {
      && nodes != [] && nodes[0] == head && Linked(nodes)
      && forall i :: 1 <= i < |nodes| ==> nodes[i].Pending(nticks)
    }

    constructor (rate: nat)
      ensures Valid() && nodes == [head] && fresh(head) && nticks == 0 && tickRate == rate
    {
      head := new Alarm();
      tickRate, nticks := rate, 0;
      new;
      head.next, head.previous := head, head;
      nodes := [head];
    }

    /** Registers an alarm: it is first due `delay` + 1 ticks from now. Starting one that is registered already
        destroys the list: no walk from its head comes back. */
    method Start(alarm: Alarm?, delay: nat, callback: Callback) returns (rc: int)
      requires Valid() && alarm != head
      modifies this`nodes, nodes`next, nodes`previous, alarm
      ensures rc == if tickRate == 0 then -ENOTSUP else if alarm == null then -EINVAL else 0
      ensures rc != 0 ==> Valid() && nodes == old(nodes) && unchanged(nodes) && (alarm != null ==> unchanged(alarm))
      ensures rc == 0 ==> && nodes == [head, alarm] + old(nodes)[1..]
                          && alarm.first == nticks + delay + 1
                          && alarm.callback == callback && alarm.firings == []
                          && (Valid() <==> alarm !in old(nodes))
                          && (Reaches(head.next, head) <==> alarm !in old(nodes))
    {
      hide Linked, Waiting, Reaches;
      if tickRate != 0 {
        if alarm != null {
          alarm.callback, alarm.calls := callback, 0;
          alarm.time := delay + nticks + 1;
          alarm.first, alarm.firings := alarm.time, [];
          ghost var all := nodes;
          nodes := [head, alarm] + nodes[1..];
          LinkedAt(all, 0);
          Insert(head, alarm, all);
          FirstWait(alarm.first, callback, nticks);
          if alarm in all {
            TwiceIsNoRing(nodes);
          } else {
            assert Linked(nodes);
            forall j | 1 <= j < |nodes|
              ensures nodes[j].Pending(nticks)
            {
              assert j > 1 ==> nodes[j] == all[j - 1];
            }
          }
          return 0;
        } else {
          return -EINVAL;
        }
      } else {
        return -ENOTSUP;
      }
    }

    /** Unregisters an alarm; one that is already out is left alone. */
    method Stop(alarm: Alarm)
      requires Valid() && alarm != head && (alarm in nodes || alarm.SelfLinked())
      modifies this`nodes, nodes`next, nodes`previous, alarm`next, alarm`previous
      ensures Valid() && nodes == Without(old(nodes), {alarm}) && alarm.SelfLinked()
    {
      hide Linked, Waiting, Without, After, Cut;
      ghost var i: nat := 0;
      if alarm in nodes {
        i :| i < |nodes| && nodes[i] == alarm;
        LinkedAt(nodes, i);
        WithoutIsCut(nodes, alarm, i);
      } else {
        WithoutNothing(nodes, alarm);
      }
      CutElements(nodes, i);
      Remove(alarm, nodes, i);
      ghost var all := nodes;
      nodes := Cut(nodes, i);
      forall j | 1 <= j < |nodes|
        ensures nodes[j].Pending(nticks)
      {
        assert all[if i == 0 || j < i then j else j + 1].Pending(nticks);
      }
    }

    /** Runs the callback of a due alarm and, if it goes on, moves its time. */
    method Fire(alarm: Alarm) returns (period: nat)
      requires 0 < nticks && alarm.Pending(nticks - 1) && alarm.time <= nticks
      modifies alarm`time, alarm`calls, alarm`firings
      ensures period == alarm.callback(old(alarm.calls)) && alarm.firings == old(alarm.firings) + [nticks]
      ensures period == 0 ==> Finished(alarm.first, alarm.callback, alarm.firings, nticks)
      ensures period > 0 ==> alarm.Pending(nticks) && alarm.time == old(alarm.time) + period
    {
      period := alarm.callback(alarm.calls);
      alarm.calls, alarm.firings := alarm.calls + 1, alarm.firings + [nticks];
      if period != 0 {
        alarm.time := alarm.time + period;
      }
    }

    /** The visit of entry i of the list `all` with which the tick began, of which `gone` are unlinked. The next
        entry is read before the callback runs. */
    method Visit(alarm: Alarm, ghost all: seq<Alarm>, ghost gone: set<Alarm>, ghost i: nat)
        returns (next: Alarm, ghost left: set<Alarm>)
      requires 0 < i < |all| && all[i] == alarm && all[0] == head && head !in gone
      requires all[i] !in all[..i] && forall k :: i <= k < |all| ==> all[k] !in gone
      requires nodes == Midway(all, gone, i) && Linked(nodes)
      requires 0 < nticks && alarm.Pending(nticks - 1)
      modifies this`nodes, nodes`next, nodes`previous, alarm
      ensures next == if i + 1 < |all| then all[i + 1] else head
      ensures left == gone || left == gone + {alarm}
      ensures nodes == Midway(all, left, i + 1) && Linked(nodes)
      ensures nodes != [] && nodes[0] == head
      ensures Done(old(alarm.Snapshot()), alarm, alarm !in left)
    {
      hide Linked, Finished, Midway, Without;
      left := gone;
      ghost var m := MidwayStep(all, gone, i);
      LinkedAt(nodes, m);
      next := alarm.next;
      CutElements(nodes, m);
      if alarm.time <= nticks {
        var period := Fire(alarm);
        if period == 0 {
          Remove(alarm, nodes, m);
          nodes := Cut(nodes, m);
          left := gone + {alarm};
        }
      }
    }

    /** The alarms before entry i of `all` have been dealt with by this tick; `was` is what they all were. */
    ghost predicate Visited(all: seq<Alarm>, was: seq<Snapshot>, gone: set<Alarm>, i: nat)
      requires i <= |all| == |was|
      reads `nticks, all
    {
      forall k :: 1 <= k < i ==> Done(was[k], all[k], all[k] !in gone)
    }

    /** The alarms from entry i on are as they were. */
    ghost predicate Unvisited(all: seq<Alarm>, was: seq<Snapshot>, i: nat)
      requires |all| == |was|
      reads all
    {
      forall k :: i <= k < |all| ==> all[k].Snapshot() == was[k]
    }

    lemma NothingVisited(all: seq<Alarm>)
      requires all != []
      ensures Visited(all, Snapshots(all), {}, 1) && Unvisited(all, Snapshots(all), 1)
    {
    }

    /** The visit of entry i, and what it leaves of the others. */
    method VisitNext(alarm: Alarm, ghost all: seq<Alarm>, ghost was: seq<Snapshot>, ghost gone: set<Alarm>,
                     ghost i: nat)
        returns (next: Alarm, ghost left: set<Alarm>)
      requires 0 < i < |all| == |was| && all[i] == alarm && all[0] == head && head !in gone
      requires forall j, k :: 0 <= j < k < |all| ==> all[j] != all[k]
      requires forall k :: i <= k < |all| ==> all[k] !in gone
      requires nodes == Midway(all, gone, i) && Linked(nodes)
      requires 0 < nticks && was[i].Waits(nticks - 1) && Visited(all, was, gone, i) && Unvisited(all, was, i)
      modifies this`nodes, nodes, alarm
      ensures next == if i + 1 < |all| then all[i + 1] else head
      ensures left == gone || left == gone + {alarm}
      ensures nodes == Midway(all, left, i + 1) && Linked(nodes)
      ensures nodes != [] && nodes[0] == head
      ensures Visited(all, was, left, i + 1) && Unvisited(all, was, i + 1)
    {
      hide Linked, Waiting, Finished, Midway, Without, Ticked;
      MidwayElements(all, gone, i);
      next, left := Visit(alarm, all, gone, i);
      forall k | 1 <= k < i + 1
        ensures Done(was[k], all[k], all[k] !in left)
      {
        if k < i {
          assert old(all[k].Snapshot()) == all[k].Snapshot();
        }
      }
    }

    /** One clock tick: every alarm registered at its start is visited exactly once, in order, whatever the
        earlier visits unlinked. */
    method Tick()
      requires Valid()
      modifies this, nodes
      ensures Valid() && nticks == old(nticks) + 1
      ensures forall i :: 1 <= i < |old(nodes)| ==>
                var a := old(nodes)[i];
                && Ticked(old(nodes[i].Snapshot()), a.Snapshot(), a in nodes, nticks)
                && (a in nodes || a.SelfLinked())
      ensures exists gone :: head !in gone && nodes == Without(old(nodes), gone)
    {
      hide Linked, Waiting, Finished, Without, Midway, After, Cut, Ticked, Visited, Unvisited;
      var alarm := head.next;
      LinkedAt(nodes, 0);
      nticks := nticks + 1;
      ghost var all := nodes;
      ghost var was := Snapshots(all);
      ghost var gone: set<Alarm> := {};
      ghost var i := 1;
      MidwayHead(all);
      NothingVisited(all);
      while alarm != head
        invariant 1 <= i <= |all| && head !in gone && (forall k :: i <= k < |all| ==> all[k] !in gone)
        invariant nodes == Midway(all, gone, i) && Linked(nodes) && nodes != [] && nodes[0] == head
        invariant nticks == old(nticks) + 1 && alarm == if i < |all| then all[i] else head
        invariant Visited(all, was, gone, i) && Unvisited(all, was, i)
        invariant forall k :: 1 <= k < |all| ==> was[k].Waits(nticks - 1)
        decreases |all| - i
      {
        MidwayElements(all, gone, i);
        assert forall j :: 0 <= j < |nodes| ==> nodes[j] in all;
        alarm, gone := VisitNext(alarm, all, was, gone, i);
        i := i + 1;
      }
      MidwayElements(all, gone, |all|);
      TickIsValid(all, was, gone);
    }

    lemma TickIsValid(all: seq<Alarm>, was: seq<Snapshot>, gone: set<Alarm>)
      requires nodes == Midway(all, gone, |all|) && nodes != [] && nodes[0] == head && Linked(nodes)
      requires all != [] && |was| == |all| && all[0] == head && Visited(all, was, gone, |all|)
      ensures Valid() && nodes == Without(all, gone)
      ensures forall k :: 1 <= k < |all| ==>
                && Ticked(was[k], all[k].Snapshot(), all[k] in nodes, nticks)
                && (all[k] in nodes || all[k].SelfLinked())
    {
      hide Linked, Waiting, Without, Ticked;
      assert all[..|all|] == all && all[|all|..] == [];
      assert nodes == Without(all, gone);
      forall k | 1 <= k < |all|
        ensures all[k] in nodes <==> all[k] !in gone
      {
        WithoutElement(all, gone, all[k]);
      }
      forall j | 1 <= j < |nodes|
        ensures nodes[j].Pending(nticks)
      {
        LinkedAt(nodes, j);
        assert nodes[j] in nodes;
        WithoutElement(all, gone, nodes[j]);
        var k :| 0 <= k < |all| && all[k] == nodes[j];
      }
    }

    /** The tick has dealt with this alarm, which is still listed or not. */
    ghost predicate Done(was: Snapshot, a: Alarm, listed: bool)
      reads `nticks, a
    {
      && Ticked(was, a.Snapshot(), listed, nticks)
      && (if listed then a.Pending(nticks) else a.SelfLinked())
    }

    // ------------------------------------------------------------------------------------------ runs

    /** The alarm waits in the list, or has finished and is out of it. */
    ghost predicate Settled(a: Alarm)
      reads this, a
    {
      if a in nodes then a.Pending(nticks) else Finished(a.first, a.callback, a.firings, nticks)
    }

    /** What an alarm has come to since it was as in `was`, in the list or not. */
    ghost predicate Followed(a: Alarm, listed: bool, was: Snapshot)
      reads this, a
    {
      && a.first == was.first && a.callback == was.callback
      && (if listed then Settled(a) else a !in nodes && a.Snapshot() == was)
    }

    /** Each alarm is in the list, or was never started, or is out again and linked to itself. */
    ghost predicate Known(alarms: set<Alarm>)
      reads this, alarms
    {
      head !in alarms && forall b :: b in alarms ==> b in nodes || b.next == null || b.SelfLinked()
    }

    lemma Registered(a: Alarm)
      requires Valid() && a != head && a in nodes
      ensures a.Pending(nticks) && a.next != null && a.next != a
    {
      hide Waiting;
      var i :| 0 <= i < |nodes| && nodes[i] == a;
      assert nodes[i].next == nodes[After(i, |nodes|)];
    }

    /** A tick as one alarm sees it, be it in the list or not. */
    method TickSeenBy(ghost a: Alarm, ghost others: set<Alarm>)
      requires Valid() && a != head && Known(others)
      modifies this, nodes
      ensures Valid() && nticks == old(nticks) + 1 && Known(others) && Followed(a, old(a in nodes), old(a.Snapshot()))
      ensures forall b :: b in nodes ==> b in old(nodes)
    {
      hide Linked, Waiting, Without;
      ghost var all := nodes;
      ghost var was := a.Snapshot();
      Tick();
      ghost var gone :| nodes == Without(all, gone);
      forall b | b in nodes
        ensures b in all
      {
        WithoutElement(all, gone, b);
      }
      if a in all {
        ghost var i :| 0 <= i < |all| && all[i] == a;
        assert Ticked(was, a.Snapshot(), a in nodes, nticks);
        if a in nodes {
          Registered(a);
        }
      }
    }

    /** One call, or a tick, as one alarm sees it that the call is not for. A caller starts an alarm only if it is
        out of the list, and stops it only if it has been started. */
    method Apply(op: Op, ghost a: Alarm, ghost others: set<Alarm>)
      requires Valid() && a != head && Known(others) && a !in others
      requires op.DoTick? || op.alarm in others
      modifies this, nodes, others
      ensures Valid() && nticks == old(nticks) + (if op.DoTick? then 1 else 0) && Known(others)
      ensures Followed(a, old(a in nodes), old(a.Snapshot()))
      ensures forall b :: b in nodes ==> b in old(nodes) || b in others
    {
      hide Linked, Waiting, Finished, Without, Reaches, After;
      if a in nodes {
        Registered(a);
      }
      match op {
        case DoTick => TickSeenBy(a, others);
        case DoStart(alarm, delay, callback) =>
          if alarm in nodes {
            Registered(alarm);
          }
          if alarm.next == null || alarm.next == alarm {
            ghost var all := nodes;
            var rc := Start(alarm, delay, callback);
            if rc == 0 {
              StartedAmong(all, alarm);
            }
          }
        case DoStop(alarm) =>
          if alarm.next != null {
            ghost var all := nodes;
            Stop(alarm);
            StoppedAmong(all, alarm);
          }
      }
    }

    lemma StartedAmong(all: seq<Alarm>, alarm: Alarm)
      requires all != [] && all[0] == head && nodes == [head, alarm] + all[1..]
      ensures forall b :: b in nodes <==> b in all || b == alarm
    {
      assert all == [head] + all[1..];
    }

    lemma StoppedAmong(all: seq<Alarm>, alarm: Alarm)
      requires nodes == Without(all, {alarm})
      ensures forall b :: b in nodes <==> b in all && b != alarm
    {
      forall b: Alarm
        ensures b in nodes <==> b in all && b != alarm
      {
        WithoutElement(all, {alarm}, b);
      }
    }

    /** Any run of ticks and of calls for other alarms. Whichever registered alarm is looked at, it has been called
        at precisely those ticks that its schedule names; one that is not registered has not been touched. */
    method Run(ops: seq<Op>, ghost a: Alarm, ghost others: set<Alarm>)
      requires Valid() && a != head && Known(others) && a !in others
      requires forall op :: op in ops ==> op.DoTick? || op.alarm in others
      modifies this, nodes, others
      ensures Valid() && nticks == old(nticks) + TicksIn(ops) && Known(others)
      ensures Followed(a, old(a in nodes), old(a.Snapshot()))
      ensures old(a in nodes) ==> forall t: nat :: t in a.firings <==>
                t <= nticks && exists k: nat :: AllGoOn(a.callback, k) && FireTime(a.first, a.callback, k) == t
    {
      hide Linked, Waiting, Finished, AllGoOn, FireTime;
      ghost var all := nodes;
      if a in nodes {
        Registered(a);
      }
      for k := 0 to |ops|
        invariant Valid() && nticks == old(nticks) + TicksIn(ops[..k]) && Known(others)
        invariant Followed(a, old(a in nodes), old(a.Snapshot()))
        invariant forall b :: b in nodes ==> b in all || b in others
      {
        assert ops[k] in ops;
        assert ops[..k + 1][..k] == ops[..k];
        assert forall j :: 0 <= j < |nodes| ==> nodes[j] in all || nodes[j] in others;
        ghost var now := nticks;
        Apply(ops[k], a, others);
        FinishedForGood(a.first, a.callback, a.firings, now, nticks);
      }
      assert ops[..|ops|] == ops;
      if a in all {
        forall t: nat
          ensures t in a.firings <==>
                    t <= nticks && exists k: nat :: AllGoOn(a.callback, k) && FireTime(a.first, a.callback, k) == t
        {
          FiredExactlyOnSchedule(a.first, a.callback, a.firings, nticks, a.time, t);
        }
      }
    }

    /** An alarm started at tick n0 with delay d whose callback returns p1, p2, ... is called at n0 + d + 1,
        n0 + d + 1 + p1, and so on, until a zero, and at no other tick, whatever is started and stopped beside
        it. */
    method StartThenRun(alarm: Alarm, delay: nat, callback: Callback, ops: seq<Op>, ghost others: set<Alarm>)
      requires Valid() && alarm != head && alarm !in nodes && tickRate != 0
      requires Known(others) && alarm !in others && forall op :: op in ops ==> op.DoTick? || op.alarm in others
      modifies this, nodes, others, alarm
      ensures Valid() && nticks == old(nticks) + TicksIn(ops) && Settled(alarm)
      ensures forall t: nat :: t in alarm.firings <==>
                t <= nticks
                && exists k: nat :: AllGoOn(callback, k) && FireTime(old(nticks) + delay + 1, callback, k) == t
    {
      hide Linked, Waiting, Finished, AllGoOn, FireTime, Reaches;
      ghost var all := nodes;
      var rc := Start(alarm, delay, callback);
      StartedAmong(all, alarm);
      Run(ops, alarm, others);
    }

    /** A registered alarm that is stopped is not called again by whatever happens to the others. */
    method StopThenRun(alarm: Alarm, ops: seq<Op>, ghost others: set<Alarm>)
      requires Valid() && alarm != head && alarm in nodes && Known(others) && alarm !in others
      requires forall op :: op in ops ==> op.DoTick? || op.alarm in others
      modifies this, nodes, others, alarm
      ensures Valid() && alarm.firings == old(alarm.firings) && alarm !in nodes
    {
      hide Linked, Waiting, Finished;
      ghost var all := nodes;
      Stop(alarm);
      StoppedAmong(all, alarm);
      assert forall j :: 0 <= j < |nodes| ==> nodes[j] in all;
      Run(ops, alarm, others);
    }
  }

  /** A tick, or a call between two. */
  datatype Op =
    | DoTick
    | DoStart(alarm: Alarm, delay: nat, callback: Callback)
    | DoStop(alarm: Alarm)

  function TicksIn(ops: seq<Op>): nat {
    if ops == [] then 0 else TicksIn(ops[..|ops| - 1]) + (if ops[|ops| - 1].DoTick? then 1 else 0)
  }
}
