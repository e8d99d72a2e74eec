/** The bus-speed arithmetic of the I2C master: setting a speed gives clock counts, and the counts give a speed
    back. */
module I2cSpeed {
  import opened Basics
  import opened Arithmetic

  const FS_MAX_HZ: nat := 400000
  const FS_MIN_HZ: nat := 100000
  const SS_MIN_HZ: nat := 1
  const DIFF: nat := 60

  datatype Status = Success | Range | BadArg

  /** The master configuration: fast or standard mode, and the clock counts as unsigned 32-bit words. */
  class Config {
    var fast: bool
    var sclLow: nat
    var sclHigh: nat
    var sdaHold: nat

    constructor ()
      ensures sclLow == sclHigh == sdaHold == 0
    {
      fast, sclLow, sclHigh, sdaHold := false, 0, 0, 0;
    }

    /** In plain numbers: with l clock ticks in half a period, the counts are l - 60 and l + 60 in 32 bits, and the
        data is held for half the low count, rounded up. */
    ghost predicate HasCounts(freq: nat, speed: nat)
      requires 0 < speed
      reads this
    {
      exists l: nat ::
        && l * (2 * speed) <= freq < l * (2 * speed) + 2 * speed
        && sclLow == (l - 60) % 0x1_0000_0000 && sclHigh == (l + 60) % 0x1_0000_0000
        && sdaHold == (sclLow + 1) / 2
    }

    /** `master_config_speed_set` */
    method SpeedSet(freq: nat, speed: nat) returns (status: Status)
      requires freq < WORD && speed < WORD
      modifies this
      ensures status == if 1 <= speed <= 400000 then Success else Range
      ensures status != Success ==> unchanged(this)
      ensures status == Success ==>
                && (sclLow, sclHigh, sdaHold) == Counts(HalfPeriod(freq, speed))
                && fast == (speed > 100000)
                && HasCounts(freq, speed)
    {
      hide Quot;
      if speed > FS_MAX_HZ || speed < SS_MIN_HZ || speed == 0 {
        return Range;
      }
      var lcnt := Quot(freq, speed * 2 % WORD);
      var hcnt := (lcnt + DIFF) % WORD;
      lcnt := (lcnt - DIFF) % WORD;
      fast := speed > FS_MIN_HZ;
      sclLow := lcnt;
      sclHigh := hcnt;
      sdaHold := lcnt - lcnt / 2;
      TicksOfHalf(freq, speed);
      return Success;
    }

    /** `master_config_speed_get`. It divides by the 32-bit sum of the counts. */
    method SpeedGet(freq: nat) returns (status: Status, speed: nat)
      requires sclLow == 0 || sclHigh == 0 || (sclLow + sclHigh) % WORD != 0
      ensures status == if sclLow == 0 || sclHigh == 0 then BadArg else Success
      ensures status == Success ==> speed == Quot(freq, (sclLow + sclHigh) % WORD)
    {
      speed := 0;
      if sclLow == 0 || sclHigh == 0 {
        return BadArg, speed;
      }
      return Success, Quot(freq, (sclLow + sclHigh) % WORD);
    }
  }

  predicate InRange(speed: nat) {
    SS_MIN_HZ <= speed <= FS_MAX_HZ
  }

  lemma TicksOfHalf(freq: nat, speed: nat)
    requires 0 < speed
    ensures var l := HalfPeriod(freq, speed); l * (2 * speed) <= freq < l * (2 * speed) + 2 * speed
  {
    hide Quot, Rem;
    Split(freq, 2 * speed);
  }

  /** The hold count is half the low count, rounded up. */
  lemma HoldIsHalf(l: nat)
    ensures var (low, high, hold) := Counts(l);
            && low == (l - 60) % 0x1_0000_0000 && high == (l + 60) % 0x1_0000_0000 && hold == (low + 1) / 2
  {
  }

  /** Clock ticks in half a period. */
  function HalfPeriod(freq: nat, speed: nat): nat
    requires 0 < speed
  {
    Quot(freq, 2 * speed)
  }

  /** The low, high and hold counts for l ticks per half period. */
  function Counts(l: nat): (nat, nat, nat) {
    var low := (l - DIFF) % WORD;
    (low, (l + DIFF) % WORD, low - low / 2)
  }

  /** The speed read back from those counts. */
  function SpeedOf(freq: nat, l: nat): nat
    requires 0 < l
  {
    Quot(freq, 2 * l)
  }

  /** Reading back really divides by 2l, even if the adjustment wraps: the two adjustments cancel. */
  lemma CountsAddUp(l: nat)
    requires 2 * l < WORD
    ensures var (low, high, _) := Counts(l);
            (low + high) % WORD == 2 * l && 0 < high && (low == 0 <==> l == DIFF)
  {
  }

  /** So the speed can be read back after it was set exactly if it is no more than half the clock; above that the
      division is by zero. */
  lemma ReadBackDivides(freq: nat, speed: nat)
    requires freq < WORD && 0 < speed
    ensures var (low, high, _) := Counts(HalfPeriod(freq, speed));
            (low + high) % WORD != 0 <==> 2 * speed <= freq
  {
    hide Quot;
    TwiceHalfPeriod(freq, speed);
    CountsAddUp(HalfPeriod(freq, speed));
    AtMostQuot(freq, 2 * speed, 1);
  }

  /** Setting and reading back are adjoint: l ticks per half period are no more than a speed gives exactly when
      that speed is no more than what l ticks read back as. */
  lemma Adjoint(freq: nat, speed: nat, l: nat)
    requires 0 < speed && 0 < l
    ensures l <= HalfPeriod(freq, speed) <==> speed <= SpeedOf(freq, l)
  {
    hide Quot;
    AtMostQuot(freq, 2 * speed, l);
    AtMostQuot(freq, 2 * l, speed);
    assert l * (2 * speed) == speed * (2 * l);
  }

  /** The speed read back is at least the one set, and the greatest of those that give the same counts; setting
      it again gives them too. */
  lemma ReadBackIsGreatest(freq: nat, speed: nat)
    requires 0 < speed && 0 < HalfPeriod(freq, speed)
    ensures var l := HalfPeriod(freq, speed);
            var back := SpeedOf(freq, l);
            && speed <= back
            && HalfPeriod(freq, back) == l
            && forall other: nat :: 0 < other && HalfPeriod(freq, other) == l ==> other <= back
  {
    var l := HalfPeriod(freq, speed);
    var back := SpeedOf(freq, l);
    Adjoint(freq, speed, l);
    Adjoint(freq, back, l);
    Adjoint(freq, back, l + 1);
    Adjoint(freq, speed, l + 1);
    assert SpeedOf(freq, l + 1) < speed <= back;
    forall other: nat | 0 < other && HalfPeriod(freq, other) == l
      ensures other <= back
    {
      Adjoint(freq, other, l);
    }
  }

  /** Different half periods within the range give different counts. */
  lemma CountsDetermineHalfPeriod(l: nat, m: nat)
    requires l < WORD && m < WORD && Counts(l) == Counts(m)
    ensures l == m
  {
  }

  lemma TwiceHalfPeriod(freq: nat, speed: nat)
    requires 0 < speed
    ensures 2 * HalfPeriod(freq, speed) <= freq
    ensures 0 < HalfPeriod(freq, speed) ==> SpeedOf(freq, HalfPeriod(freq, speed)) <= freq
  {
    hide Quot;
    var l := HalfPeriod(freq, speed);
    AtMostQuot(freq, 2 * speed, l);
    MulAtLeast(speed, 1, 2 * l);
    assert l * (2 * speed) == speed * (2 * l);
    if 0 < l {
      var back := SpeedOf(freq, l);
      AtMostQuot(freq, 2 * l, back);
      MulAtLeast(2 * l, 1, back);
      assert back * (2 * l) == 2 * l * back;
    }
  }

  /** Setting, reading back and setting again is accepted, with the same counts, exactly when the speed read
      back is itself in range. */
  method SetGetSet(freq: nat, speed: nat, cfg: Config) returns (status: Status)
    requires freq < WORD && InRange(speed) && 0 < HalfPeriod(freq, speed) != DIFF
    modifies cfg
    ensures (cfg.sclLow, cfg.sclHigh, cfg.sdaHold) == Counts(HalfPeriod(freq, speed))
    ensures status == Success <==> SpeedOf(freq, HalfPeriod(freq, speed)) <= FS_MAX_HZ
  {
    hide Quot;
    ghost var l := HalfPeriod(freq, speed);
    TwiceHalfPeriod(freq, speed);
    CountsAddUp(l);
    ReadBackIsGreatest(freq, speed);
    status := cfg.SpeedSet(freq, speed);
    var back;
    status, back := cfg.SpeedGet(freq);
    status := cfg.SpeedSet(freq, back);
  }

  /** It can be refused: a 50.3 MHz core asked for 400 kHz reads back 405645 Hz. */
  lemma ReadBackMayBeOutOfRange()
    ensures InRange(400000) && HalfPeriod(50_300_000, 400000) == 62
    ensures SpeedOf(50_300_000, 62) == 405645 && !InRange(405645)
  {
  }

  /** The count registers hold 16 bits; what is read from them is what was written exactly when the half period
      leaves room for the adjustment. */
  lemma RegistersKeepCounts(l: nat)
    requires l < WORD
    ensures var (low, high, hold) := Counts(l);
            low % 0x1_0000 == low && high % 0x1_0000 == high && hold % 0x1_0000 == hold <==> DIFF <= l <= 65475
  {
  }
}
