/** When an alarm must fire, as values: first at `first`, then after each non-zero period its callback returns,
    and never again after a zero one. */
module AlarmTimes {

  /** What an alarm's callback returns, call by call. */
  type Callback = nat -> nat

  /** The tick of call k, if there is one. */
  function FireTime(first: nat, callback: Callback, k: nat): (t: nat)
    ensures first <= t
  {
    if k == 0 then first else FireTime(first, callback, k - 1) + callback(k - 1)
  }

  /** The first k calls all asked for another. */
  ghost predicate AllGoOn(callback: Callback, k: nat) {
    forall i :: 0 <= i < k ==> callback(i) > 0
  }

  function Total(periods: seq<nat>): nat {
    if periods == [] then 0 else periods[0] + Total(periods[1..])
  }

  lemma {:induction false} TotalOneMore(periods: seq<nat>, p: nat)
    ensures Total(periods + [p]) == Total(periods) + p
  {
    if periods == [] {
      assert [] + [p] == [p] && Total([p][1..]) == 0;
    } else {
      assert (periods + [p])[1..] == periods[1..] + [p];
      TotalOneMore(periods[1..], p);
    }
  }

  /** Call k is due after the sum of the first k periods, and there is one exactly if none of them was zero. */
  lemma {:induction false} FireTimeIsSum(first: nat, callback: Callback, periods: seq<nat>)
    requires forall i :: 0 <= i < |periods| ==> periods[i] == callback(i)
    ensures FireTime(first, callback, |periods|) == first + Total(periods)
    ensures AllGoOn(callback, |periods|) <==> 0 !in periods
  {
    if periods != [] {
      var front, p := periods[..|periods| - 1], periods[|periods| - 1];
      assert periods == front + [p];
      FireTimeIsSum(first, callback, front);
      TotalOneMore(front, p);
    }
  }

  lemma {:induction false} FireTimesGrow(first: nat, callback: Callback, i: nat, k: nat)
    requires i < k && AllGoOn(callback, k)
    ensures FireTime(first, callback, i) < FireTime(first, callback, k)
  {
    if i + 1 < k {
      FireTimesGrow(first, callback, i, k - 1);
    }
  }

  /** The calls made so far, by tick, of an alarm that has not been stopped from outside. */
  ghost predicate OnTime(first: nat, callback: Callback, firings: seq<nat>, now: nat) {
    var k := |firings|;
    && (forall i :: 0 <= i < k ==> firings[i] == FireTime(first, callback, i) <= now)
    && (k > 0 ==> AllGoOn(callback, k - 1))
  }

  /** It is still waiting for its next call, which lies in the future. */
  ghost predicate Waiting(first: nat, callback: Callback, firings: seq<nat>, now: nat, time: nat) {
    && OnTime(first, callback, firings, now)
    && AllGoOn(callback, |firings|)
    && time == FireTime(first, callback, |firings|) > now
  }

  /** A fresh alarm waits for its first tick. */
  lemma FirstWait(first: nat, callback: Callback, now: nat)
    requires now < first
    ensures Waiting(first, callback, [], now, first)
  {
  }

  /** Its last call returned zero. */
  ghost predicate Finished(first: nat, callback: Callback, firings: seq<nat>, now: nat) {
    && OnTime(first, callback, firings, now)
    && firings != [] && callback(|firings| - 1) == 0
  }

  lemma FinishedForGood(first: nat, callback: Callback, firings: seq<nat>, now: nat, later: nat)
    requires now <= later
    ensures Finished(first, callback, firings, now) ==> Finished(first, callback, firings, later)
  {
  }

  /** Exactness: an alarm that waits or has finished has fired at precisely those ticks up to now that its
      schedule names, once each. */
  lemma FiredExactlyOnSchedule(first: nat, callback: Callback, firings: seq<nat>, now: nat, time: nat, t: nat)
    requires Waiting(first, callback, firings, now, time) || Finished(first, callback, firings, now)
    ensures t in firings <==> t <= now && exists k: nat :: AllGoOn(callback, k) && FireTime(first, callback, k) == t
    ensures forall i, j :: 0 <= i < j < |firings| ==> firings[i] < firings[j]
  {
    var n := |firings|;
    if t in firings {
      var i :| 0 <= i < n && firings[i] == t;
      assert AllGoOn(callback, i);
    }
    forall k: nat | AllGoOn(callback, k) && FireTime(first, callback, k) <= now
      ensures k < n
    {
      if n < k && Waiting(first, callback, firings, now, time) {
        FireTimesGrow(first, callback, n, k);
      }
    }
    forall i, j | 0 <= i < j < n
      ensures firings[i] < firings[j]
    {
      FireTimesGrow(first, callback, i, j);
    }
  }
}
