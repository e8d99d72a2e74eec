/** Quotients and remainders, under names that a proof may leave uninterpreted. */
module Arithmetic {

  function Quot(v: nat, n: nat): nat
    requires 0 < n
  {
    v / n
  }

  function Rem(v: nat, n: nat): nat
    requires 0 < n
  {
    v % n
  }

  lemma Split(v: nat, n: nat)
    requires 0 < n
    ensures Quot(v, n) * n + Rem(v, n) == v && Rem(v, n) < n
  {
  }

  lemma MulAtLeast(a: nat, b: nat, q: nat)
    requires b <= a
    ensures b * q <= a * q
  {
  }

  lemma Associate(a: nat, b: nat, c: nat)
    ensures a * (b * c) == (a * b) * c
  {
  }

  lemma QuotRemOfSum(q: nat, r: nat, n: nat)
    requires r < n
    ensures Quot(q * n + r, n) == q && Rem(q * n + r, n) == r
  {
    hide Quot, Rem;
    var v := q * n + r;
    Split(v, n);
    if Quot(v, n) < q {
      MulAtLeast(q, Quot(v, n) + 1, n);
    } else if Quot(v, n) > q {
      MulAtLeast(Quot(v, n), q + 1, n);
    }
  }

  lemma AtMostQuot(v: nat, n: nat, q: nat)
    requires 0 < n
    ensures q <= Quot(v, n) <==> q * n <= v
  {
    hide Quot, Rem;
    Split(v, n);
    if q <= Quot(v, n) {
      MulAtLeast(Quot(v, n), q, n);
    } else {
      MulAtLeast(q, Quot(v, n) + 1, n);
    }
  }
}
