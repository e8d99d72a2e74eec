/** Positional notation: what an integer printer must print. */
module Numerals {
  import opened Arithmetic

  lemma QuotShrinks(v: nat, base: nat)
    requires 2 <= base <= v
    ensures 0 < Quot(v, base) < v
  {
    hide Quot, Rem;
    var q := Quot(v, base);
    Split(v, base);
    assert q != 0;
    MulAtLeast(base, 2, q);
    assert base * q == q * base;
  }

  /** The digits of v in a base, most significant first. */
  function Digits(v: nat, base: nat): (ds: seq<nat>)
    requires 2 <= base
    ensures ds != [] && forall i :: 0 <= i < |ds| ==> ds[i] < base
  {
    if v < base then [v]
    else
      QuotShrinks(v, base);
      Split(v, base);
      Digits(Quot(v, base), base) + [Rem(v, base)]
  }

  /** What digits stand for. */
  function Value(ds: seq<nat>, base: nat): nat {
    if ds == [] then 0 else Value(ds[..|ds| - 1], base) * base + ds[|ds| - 1]
  }

  lemma ValueOfOne(d: nat, base: nat)
    ensures Value([d], base) == d
  {
    assert [d][..0] == [] && Value([], base) == 0;
  }

  lemma ValueOneMore(ds: seq<nat>, d: nat, base: nat)
    ensures Value(ds + [d], base) == Value(ds, base) * base + d
  {
    assert (ds + [d])[..|ds|] == ds;
  }

  /** Reading the digits back gives the number. */
  lemma {:induction false} ValueOfDigits(v: nat, base: nat)
    requires 2 <= base
    ensures Value(Digits(v, base), base) == v
  {
    hide Quot, Rem, Value;
    if v < base {
      ValueOfOne(v, base);
    } else {
      QuotShrinks(v, base);
      ValueOfDigits(Quot(v, base), base);
      ValueOneMore(Digits(Quot(v, base), base), Rem(v, base), base);
      Split(v, base);
    }
  }

  /** Digits without a superfluous leading zero. */
  ghost predicate Canonical(ds: seq<nat>, base: nat) {
    ds != [] && (forall i :: 0 <= i < |ds| ==> ds[i] < base) && (|ds| > 1 ==> ds[0] != 0)
  }

  lemma {:induction false} DigitsAreCanonical(v: nat, base: nat)
    requires 2 <= base
    ensures Canonical(Digits(v, base), base)
    ensures v > 0 ==> Digits(v, base)[0] != 0
  {
    hide Quot, Rem;
    if v >= base {
      QuotShrinks(v, base);
      DigitsAreCanonical(Quot(v, base), base);
    }
  }

  lemma {:induction false} CanonicalIsPositive(ds: seq<nat>, base: nat)
    requires 2 <= base && Canonical(ds, base) && ds[0] != 0
    ensures 0 < Value(ds, base)
  {
    hide Value;
    var n := |ds| - 1;
    assert ds == ds[..n] + [ds[n]];
    if n > 0 {
      CanonicalIsPositive(ds[..n], base);
      MulAtLeast(Value(ds[..n], base), 1, base);
      ValueOneMore(ds[..n], ds[n], base);
    } else {
      ValueOfOne(ds[0], base);
    }
  }

  /** And the digits are the only ones: the two directions are inverse. */
  lemma {:induction false} DigitsOfValue(ds: seq<nat>, base: nat)
    requires 2 <= base && Canonical(ds, base)
    ensures Digits(Value(ds, base), base) == ds
  {
    hide Quot, Rem, Value;
    var n := |ds| - 1;
    assert ds == ds[..n] + [ds[n]];
    if n == 0 {
      ValueOfOne(ds[0], base);
    } else {
      var q := Value(ds[..n], base);
      CanonicalIsPositive(ds[..n], base);
      DigitsOfValue(ds[..n], base);
      ValueOneMore(ds[..n], ds[n], base);
      QuotRemOfSum(q, ds[n], base);
      MulAtLeast(q, 1, base);
    }
  }

  // ------------------------------------------------------------------------------- places of a number

  function Power(base: nat, k: nat): nat {
    if k == 0 then 1 else base * Power(base, k - 1)
  }

  lemma {:induction false} PowerPositive(base: nat, k: nat)
    requires 2 <= base
    ensures 0 < Power(base, k)
    ensures Quot(Power(base, k), base) == if k > 0 then Power(base, k - 1) else 0
  {
    hide Quot, Rem;
    if k > 0 {
      var p := Power(base, k - 1);
      PowerPositive(base, k - 1);
      MulAtLeast(base, 2, p);
      assert base * p == p * base + 0;
      QuotRemOfSum(p, 0, base);
    } else {
      SmallQuotient(1, base);
    }
  }

  lemma SmallQuotient(v: nat, n: nat)
    requires v < n
    ensures Quot(v, n) == 0
  {
  }

  lemma PlaceSum(a: nat, d: nat, e: nat, base: nat, p: nat)
    ensures a * (base * p) + (d * p + e) == (a * base + d) * p + e
  {
    Associate(a, base, p);
    assert (a * base + d) * p == a * base * p + d * p;
  }

  lemma DigitInBase(b: nat, p: nat, base: nat)
    requires 0 < p && b < base * p
    ensures Quot(b, p) < base
  {
    hide Quot, Rem;
    Split(b, p);
    if Quot(b, p) >= base {
      MulAtLeast(Quot(b, p), base, p);
    }
  }

  /** Moving one place to the right: p stands for a place value, base * p for the one to its left. */
  lemma NextPlace(v: nat, p: nat, base: nat)
    requires 2 <= base && 0 < p
    ensures 0 < base * p
    ensures var a, b := Quot(v, base * p), Rem(v, base * p);
            && Quot(b, p) < base
            && Quot(v, p) == a * base + Quot(b, p)
            && Rem(v, p) == Rem(b, p)
  {
    hide Quot, Rem;
    MulAtLeast(base, 1, p);
    var q := base * p;
    var a, b := Quot(v, q), Rem(v, q);
    Split(v, q);
    Split(b, p);
    PlaceSum(a, Quot(b, p), Rem(b, p), base, p);
    QuotRemOfSum(a * base + Quot(b, p), Rem(b, p), p);
    DigitInBase(b, p, base);
  }

  /** From place p to the one on its left: what is left of v there, and how many digits that takes off. */
  lemma PlaceAbove(v: nat, p: nat, base: nat)
    requires 0 < p && 2 <= base
    ensures 0 < base * p
    ensures Quot(Quot(v, p), base) == Quot(v, base * p)
    ensures Quot(v, base * p) > 0 ==>
              && base * p <= v && Quot(v, base * p) < Quot(v, p)
              && |Digits(Quot(v, p), base)| == 1 + |Digits(Quot(v, base * p), base)|
    ensures Quot(v, base * p) == 0 ==> Quot(v, p) < base && |Digits(Quot(v, p), base)| == 1
  {
    hide Quot, Rem;
    NextPlace(v, p, base);
    var q := base * p;
    var a, d := Quot(v, q), Quot(Rem(v, q), p);
    QuotRemOfSum(a, d, base);
    Split(v, q);
    if a > 0 {
      MulAtLeast(a, 1, q);
      MulAtLeast(a, 1, base);
      QuotShrinks(Quot(v, p), base);
    }
  }

  /** Printing the digit at place p after those to its left. */
  lemma PrintAtPlace(v: nat, p: nat, base: nat)
    requires 2 <= base && 0 < p
    ensures 0 < base * p
    ensures Quot(Rem(v, base * p), p) < base
    ensures Rem(Rem(v, base * p), p) == Rem(v, p)
    ensures Digits(Quot(v, p), base)
            == (if Quot(v, base * p) > 0 then Digits(Quot(v, base * p), base) else []) + [Quot(Rem(v, base * p), p)]
  {
    hide Quot, Rem;
    NextPlace(v, p, base);
    var q := base * p;
    var a, d := Quot(v, q), Quot(Rem(v, q), p);
    QuotRemOfSum(a, d, base);
    if a > 0 {
      MulAtLeast(a, 1, base);
    }
  }

  lemma SmallRemainder(v: nat, n: nat)
    requires 0 < n && Quot(v, n) == 0
    ensures Rem(v, n) == v
  {
    Split(v, n);
  }
}
