/** Unsigned words as rows of bits, lowest first: what masks and shifts do to the numbers they stand for. */
module BitWords {
  import opened Arithmetic
  import opened Numerals

  type Bits = seq<bool>

  /** The number that bits stand for. */
  function Number(b: Bits): nat {
    if b == [] then 0 else (if b[0] then 1 else 0) + 2 * Number(b[1..])
  }

  /** The lowest n bits of v. */
  function BitsOf(v: nat, n: nat): (b: Bits)
    ensures |b| == n
  {
    if n == 0 then [] else [v % 2 == 1] + BitsOf(v / 2, n - 1)
  }

  lemma {:induction false} NumberOfBits(v: nat, n: nat)
    requires v < Power(2, n)
    ensures Number(BitsOf(v, n)) == v
  {
    if n > 0 {
      NumberOfBits(v / 2, n - 1);
    }
  }

  /** The bitwise operators of unsigned words. */
  function And(a: Bits, b: Bits): (r: Bits)
    requires |a| == |b|
    ensures |r| == |a|
  {
    seq(|a|, i requires 0 <= i < |a| => a[i] && b[i])
  }

  function ShiftLeft(a: Bits, s: nat): (r: Bits)
    ensures |r| == |a|
  {
    seq(|a|, i requires 0 <= i < |a| => s <= i && a[i - s])
  }

  function ShiftRight(a: Bits, s: nat): (r: Bits)
    ensures |r| == |a|
  {
    seq(|a|, i requires 0 <= i < |a| => i + s < |a| && a[i + s])
  }

  lemma {:induction false} NumberSplits(b: Bits, s: nat)
    requires s <= |b|
    ensures Number(b) == Number(b[s..]) * Power(2, s) + Number(b[..s])
    ensures Number(b[..s]) < Power(2, s)
  {
    if s > 0 {
      var low, p := b[1..], Power(2, s - 1);
      NumberSplits(low, s - 1);
      assert b[..s][1..] == low[..s - 1] && b[s..] == low[s - 1..];
      Associate(Number(b[s..]), 2, p);
      Associate(2, Number(b[s..]), p);
    } else {
      assert b[0..] == b && Number([]) == 0;
    }
  }

  lemma {:induction false} Zeros(n: nat)
    ensures Number(seq(n, _ => false)) == 0
  {
    if n > 0 {
      var z: Bits := seq(n, _ => false);
      assert z[1..] == seq(n - 1, _ => false);
      Zeros(n - 1);
    }
  }

  /** Shifting right divides by a power of two, and the low four bits are the remainder by 16. */
  lemma PartOfNumber(b: Bits, s: nat)
    requires s + 4 <= |b|
    ensures 0 < Power(2, s)
    ensures Number(b[s..s + 4]) == Rem(Quot(Number(b), Power(2, s)), 16)
  {
    hide Quot, Rem, Number;
    PowerPositive(2, s);
    NumberSplits(b, s);
    QuotRemOfSum(Number(b[s..]), Number(b[..s]), Power(2, s));
    NumberSplits(b[s..], 4);
    assert b[s..][..4] == b[s..s + 4];
    assert Power(2, 4) == 16 by { assert Power(2, 2) == 4; }
    QuotRemOfSum(Number(b[s..][4..]), Number(b[s..s + 4]), 16);
  }

  /** Four bits of a word, moved to its low end. */
  lemma FourBits(b: Bits, f: Bits, s: nat)
    requires |f| == |b| && s + 4 <= |b| && forall i :: 0 <= i < |b| ==> (f[i] <==> i < 4)
    ensures Number(ShiftRight(And(b, ShiftLeft(f, s)), s)) == Number(b[s..s + 4])
  {
    var m := ShiftRight(And(b, ShiftLeft(f, s)), s);
    assert m[..4] == b[s..s + 4];
    assert m[4..] == seq(|b| - 4, _ => false);
    NumberSplits(m, 4);
    Zeros(|b| - 4);
  }

  const LENGTH: nat := 32

  /** (v & (0xF << s)) >> s, on 32-bit words. */
  function MaskedNibble(v: nat, s: nat): nat {
    Number(ShiftRight(And(BitsOf(v, LENGTH), ShiftLeft(BitsOf(0xF, LENGTH), s)), s))
  }

  lemma {:induction false} FifteenBits(n: nat)
    requires 4 <= n
    ensures forall i :: 0 <= i < n ==> (BitsOf(0xF, n)[i] <==> i < 4)
  {
    ZeroBits(n - 4);
    var z := BitsOf(0, n - 4);
    assert BitsOf(1, n - 3) == [true] + z;
    assert BitsOf(3, n - 2) == [true] + ([true] + z);
    assert BitsOf(7, n - 1) == [true] + ([true] + ([true] + z));
    assert BitsOf(0xF, n) == [true] + ([true] + ([true] + ([true] + z)));
  }

  lemma {:induction false} ZeroBits(n: nat)
    ensures forall i :: 0 <= i < n ==> !BitsOf(0, n)[i]
  {
    if n > 0 {
      ZeroBits(n - 1);
    }
  }

  /** Masking and shifting a word gives one hexadecimal digit of its number. */
  lemma MaskedNibbleIsDigit(v: nat, s: nat)
    requires v < Power(2, LENGTH) && s + 4 <= LENGTH
    ensures 0 < Power(2, s)
    ensures MaskedNibble(v, s) == Rem(Quot(v, Power(2, s)), 16)
  {
    hide Quot, Rem, Number, Power, BitsOf;
    var b, f := BitsOf(v, LENGTH), BitsOf(0xF, LENGTH);
    FifteenBits(LENGTH);
    FourBits(b, f, s);
    PartOfNumber(b, s);
    NumberOfBits(v, LENGTH);
  }
}
