/** The two integer printers: the division-based one of the log `printf`, with sign, width and padding, and the
    shift-based `%x` of the small `printf`. */
module Printers {
  import opened Basics
  import opened Arithmetic
  import opened Numerals
  import opened BitWords

  const SIGN_BIT: nat := 0x8000_0000

  function DigitChar(d: nat, upper: bool): char
    requires d < 16
  {
    if d <= 9 then '0' + d as char else if upper then 'A' + (d - 10) as char else 'a' + (d - 10) as char
  }

  function Rendered(ds: seq<nat>, upper: bool): (s: string)
    requires forall i :: 0 <= i < |ds| ==> ds[i] < 16
    ensures |s| == |ds|
  {
    seq(|ds|, i requires 0 <= i < |ds| => DigitChar(ds[i], upper))
  }

  function Repeated(c: char, n: int): (s: string)
    ensures |s| == if n > 0 then n else 0
  {
    if n > 0 then seq(n, _ => c) else []
  }

  /** What goes before a number of `digits` digits: the sign, and zeros after it or blanks before it. */
  function Lead(digits: nat, negative: bool, leadingZero: bool, width: int): string {
    var sign := if negative then "-" else "";
    var pad := width - digits - |sign|;
    if leadingZero then sign + Repeated('0', pad) else Repeated(' ', pad) + sign
  }

  /** The field for a magnitude and a sign, right-justified in `width`. */
  function Field(magnitude: nat, negative: bool, base: nat, upper: bool, leadingZero: bool, width: int): string
    requires 2 <= base <= 16
  {
    var number := Rendered(Digits(magnitude, base), upper);
    Lead(|number|, negative, leadingZero, width) + number
  }

  /** The field is as wide as asked for, or as wide as its text. */
  lemma FieldWidth(magnitude: nat, negative: bool, base: nat, upper: bool, leadingZero: bool, width: int)
    requires 2 <= base <= 16
    ensures var text := |Digits(magnitude, base)| + (if negative then 1 else 0);
            |Field(magnitude, negative, base, upper, leadingZero, width)| == if width > text then width else text
  {
  }

  /** What a digit character stands for. */
  function CharDigit(c: char): nat {
    if '0' <= c <= '9' then (c - '0') as nat
    else if 'A' <= c <= 'F' then (c - 'A') as nat + 10
    else if 'a' <= c <= 'f' then (c - 'a') as nat + 10
    else 0
  }

  function Parsed(s: string): (ds: seq<nat>)
    ensures |ds| == |s|
  {
    seq(|s|, i requires 0 <= i < |s| => CharDigit(s[i]))
  }

  /** Reading a printed number back gives the number, so no two numbers print alike. */
  lemma PrintedNumberReadsBack(v: nat, base: nat, upper: bool)
    requires 2 <= base <= 16
    ensures Value(Parsed(Rendered(Digits(v, base), upper)), base) == v
  {
    var ds := Digits(v, base);
    forall i | 0 <= i < |ds|
      ensures CharDigit(DigitChar(ds[i], upper)) == ds[i]
    {
    }
    assert Parsed(Rendered(ds, upper)) == ds;
    ValueOfDigits(v, base);
  }

  /** The characters of a number. */
  lemma RenderedSpelled(ds: seq<nat>, upper: bool)
    requires forall i :: 0 <= i < |ds| ==> ds[i] < 16
    ensures forall i :: 0 <= i < |ds| ==>
              Rendered(ds, upper)[i] == (if upper then "0123456789ABCDEF" else "0123456789abcdef")[ds[i]]
  {
  }

  /** The characters of a field: zeros between the sign and the number, or blanks before the sign. */
  lemma FieldSpelled(magnitude: nat, negative: bool, base: nat, upper: bool, leadingZero: bool, width: int)
    requires 2 <= base <= 16
    ensures var field := Field(magnitude, negative, base, upper, leadingZero, width);
            var number := Rendered(Digits(magnitude, base), upper);
            var sign := if negative then 1 else 0;
            var pad := if width > |number| + sign then width - |number| - sign else 0;
            && |field| == pad + sign + |number|
            && field[pad + sign..] == number
            && (negative ==> field[if leadingZero then 0 else pad] == '-')
            && forall k :: 0 <= k < pad ==>
                 if leadingZero then field[sign + k] == '0' else field[k] == ' '
  {
    hide Digits, Rendered;
  }

  /** The number that a field shows: after any blanks, a sign and the digits. */
  function ReadsAs(s: string, base: nat): int {
    if s != "" && s[0] == ' ' then ReadsAs(s[1..], base)
    else if s != "" && s[0] == '-' then -(Value(Parsed(s[1..]), base) as int)
    else Value(Parsed(s), base)
  }

  lemma {:induction false} BlanksAreSkipped(n: nat, s: string, base: nat)
    ensures ReadsAs(Repeated(' ', n) + s, base) == ReadsAs(s, base)
  {
    var t := Repeated(' ', n) + s;
    if n > 0 {
      assert t[0] == ' ' && t[1..] == Repeated(' ', n - 1) + s;
      BlanksAreSkipped(n - 1, s, base);
    } else {
      assert t == s;
    }
  }

  /** Zeros in front do not count. */
  lemma {:induction false} ZerosDoNotCount(n: nat, ds: seq<nat>, base: nat)
    ensures Value(seq(n, _ => 0) + ds, base) == Value(ds, base)
  {
    var zeros: seq<nat> := seq(n, _ => 0);
    if ds != [] {
      var front, d := ds[..|ds| - 1], ds[|ds| - 1];
      assert zeros + ds == (zeros + front) + [d];
      ValueOneMore(zeros + front, d, base);
      ZerosDoNotCount(n, front, base);
    } else if n > 0 {
      assert zeros + [] == (seq(n - 1, _ => 0) + []) + [0];
      ValueOneMore(seq(n - 1, _ => 0) + [], 0, base);
      ZerosDoNotCount(n - 1, [], base);
    }
  }

  lemma NumberReadsBack(v: nat, base: nat, upper: bool, zeros: nat)
    requires 2 <= base <= 16
    ensures var s := Repeated('0', zeros) + Rendered(Digits(v, base), upper);
            s != "" && s[0] != ' ' && s[0] != '-' && Value(Parsed(s), base) == v
  {
    hide Digits, Value, Rendered, Parsed, Repeated;
    var ds := Digits(v, base);
    PrintedNumberReadsBack(v, base, upper);
    StartsWithDigit(ds, upper, zeros);
    ParsedParts(zeros, Rendered(ds, upper));
    ZerosDoNotCount(zeros, Parsed(Rendered(ds, upper)), base);
  }

  lemma StartsWithDigit(ds: seq<nat>, upper: bool, zeros: nat)
    requires ds != [] && forall i :: 0 <= i < |ds| ==> ds[i] < 16
    ensures var s := Repeated('0', zeros) + Rendered(ds, upper); s != "" && s[0] != ' ' && s[0] != '-'
  {
  }

  lemma ParsedParts(zeros: nat, s: string)
    ensures Parsed(Repeated('0', zeros) + s) == seq(zeros, _ => 0) + Parsed(s)
  {
  }

  /** A field reads back as its sign and magnitude, whatever the width and the padding. */
  lemma FieldReadsBack(magnitude: nat, negative: bool, base: nat, upper: bool, leadingZero: bool, width: int)
    requires 2 <= base <= 16
    ensures ReadsAs(Field(magnitude, negative, base, upper, leadingZero, width), base)
            == if negative then -(magnitude as int) else magnitude
  {
    hide Digits, Rendered, Value, Parsed, Field, Repeated;
    var sign := if negative then "-" else "";
    var blanks, zeros := FieldParts(magnitude, negative, base, upper, leadingZero, width);
    var body := Repeated('0', zeros) + Rendered(Digits(magnitude, base), upper);
    NumberReadsBack(magnitude, base, upper, zeros);
    BlanksAreSkipped(blanks, sign + body, base);
    if negative {
      assert (sign + body)[0] == '-' && (sign + body)[1..] == body;
    } else {
      assert sign + body == body;
    }
  }

  lemma FieldParts(magnitude: nat, negative: bool, base: nat, upper: bool, leadingZero: bool, width: int)
      returns (blanks: nat, zeros: nat)
    requires 2 <= base <= 16
    ensures Field(magnitude, negative, base, upper, leadingZero, width)
            == Repeated(' ', blanks)
               + ((if negative then "-" else "") + (Repeated('0', zeros) + Rendered(Digits(magnitude, base), upper)))
  {
    hide Digits, Rendered;
    var number := Rendered(Digits(magnitude, base), upper);
    var pad := width - |number| - (if negative then 1 else 0);
    var n: nat := if pad > 0 then pad else 0;
    blanks, zeros := if leadingZero then 0 else n, if leadingZero then n else 0;
  }

  // ------------------------------------------------------------------------------ the log printf

  /** The output device: the characters printed so far. */
  class Uart {
    var out: string

    constructor ()
      ensures out == ""
    {
      out := "";
    }

    method TxChar(c: char)
      modifies this
      ensures out == old(out) + [c]
    {
      out := out + [c];
    }

    method RepChar(c: char, r: int)
      modifies this
      ensures out == old(out) + Repeated(c, r)
    {
      var left := r;
      while left > 0
        invariant left <= r
        invariant out == old(out) + Repeated(c, r - (if left > 0 then left else 0)) || r <= 0
        invariant r <= 0 ==> out == old(out)
      {
        TxChar(c);
        left := left - 1;
      }
    }
  }

  /** Counts the digits of v and finds its largest place value, in unsigned 32-bit arithmetic that never
      wraps. */
  method LargestPlace(v: nat, base: nat) returns (p: nat, digitCount: nat)
    requires v < WORD && 2 <= base <= 16
    ensures digitCount == |Digits(v, base)| && p == Power(base, digitCount - 1)
    ensures 0 < p < WORD && Quot(v, base * p) == 0 && (Quot(v, p) == 0 ==> v == 0 && digitCount == 1)
  {
    hide Digits, Quot, Power;
    PlaceOne(v, base);
    var shrink := v;
    p, digitCount := 1, 1;
    while true
      invariant 0 < p < WORD && p == Power(base, digitCount - 1)
      invariant 1 <= digitCount && shrink == Quot(v, p) && (shrink == 0 ==> v == 0 && digitCount == 1)
      invariant |Digits(v, base)| == digitCount - 1 + |Digits(shrink, base)|
      decreases shrink
    {
      PlaceAbove(v, p, base);
      shrink := Quot(shrink, base);
      if shrink == 0 {
        break;
      }
      assert Power(base, digitCount) == base * Power(base, digitCount - 1) by { NextPower(base, digitCount); }
      digitCount := digitCount + 1;
      p := p * base % WORD;
    }
  }

  lemma PlaceOne(v: nat, base: nat)
    ensures Quot(v, 1) == v && Power(base, 0) == 1
  {
  }

  lemma NextPower(base: nat, k: nat)
    requires 0 < k
    ensures Power(base, k) == base * Power(base, k - 1)
  {
  }

  /** The digit loop: prints every place from the largest down to 1. */
  method PrintPlaces(uart: Uart, v0: nat, p0: nat, base: nat, upper: bool, ghost k0: nat)
    requires v0 < WORD && 2 <= base <= 16 && p0 == Power(base, k0)
    requires 0 < p0 && Quot(v0, base * p0) == 0 && (Quot(v0, p0) == 0 ==> v0 == 0 && k0 == 0)
    modifies uart
    ensures uart.out == old(uart.out) + Rendered(Digits(v0, base), upper)
  {
    hide Digits, Quot, Rem, Power, DigitChar;
    PlaceOne(v0, base);
    var v, p := v0, p0;
    ghost var k, ds: seq<nat> := k0, [];
    SmallRemainder(v0, base * p0);
    while p != 0
      invariant p != 0 ==> p == Power(base, k) && 0 < base * p && v == Rem(v0, base * p)
      invariant p != 0 ==> ds == if Quot(v0, base * p) == 0 then [] else Digits(Quot(v0, base * p), base)
      invariant p != 0 && Quot(v0, base * p) == 0 ==> Quot(v0, p) > 0 || k == 0
      invariant p == 0 ==> ds == Digits(v0, base)
      invariant forall i :: 0 <= i < |ds| ==> ds[i] < base
      invariant uart.out == old(uart.out) + Rendered(ds, upper)
      decreases p
    {
      PrintAtPlace(v0, p, base);
      PlaceAbove(v0, p, base);
      PowerPositive(base, k);
      var d := Quot(v, p);
      uart.TxChar(DigitChar(d, upper));
      assert Rendered(ds + [d], upper) == Rendered(ds, upper) + [DigitChar(d, upper)];
      ds := ds + [d];
      v := Rem(v, p);
      p := Quot(p, base);
      if k > 0 {
        NextPower(base, k);
        k := k - 1;
      }
    }
  }

  /** A 32-bit word read as a signed number. */
  function AsSigned(word: nat): int
    requires word < WORD
  {
    if word >= SIGN_BIT then word - WORD else word
  }

  function Abs(x: int): nat {
    if x < 0 then -x else x
  }

  /** The leading characters and the sign. */
  method PrintLead(uart: Uart, digitCount: nat, sign: bool, leadingZero: bool, width: int)
    modifies uart
    ensures uart.out == old(uart.out) + Lead(digitCount, sign, leadingZero, width)
  {
    var before := width - digitCount;
    if leadingZero {
      if sign {
        uart.TxChar('-');
        before := before - 1;
      }
      uart.RepChar('0', before);
    } else {
      if sign {
        before := before - 1;
      }
      uart.RepChar(' ', before);
      if sign {
        uart.TxChar('-');
      }
    }
  }

  /** The integer path of the log printf. `width` is what stood before the decimal point, -1 for none. */
  method PrintInteger(uart: Uart, arg: nat, signed: bool, base: nat, upper: bool, leadingZero: bool, width: int)
    requires arg < WORD && 2 <= base <= 16
    modifies uart
    ensures var x := if signed then AsSigned(arg) else arg;
            uart.out == old(uart.out) + Field(Abs(x), x < 0, base, upper, leadingZero, width)
    ensures exists text :: uart.out == old(uart.out) + text
              && ReadsAs(text, base) == if signed && arg >= 0x8000_0000 then arg - 0x1_0000_0000 else arg
  {
    hide Digits, Rendered, DigitChar, Quot, Power, Lead, ReadsAs;
    var v, sign := arg, false;
    if signed && v >= SIGN_BIT {
      v := (WORD - 1 - v + 1) % WORD;
      sign := true;
    }
    var p, digitCount := LargestPlace(v, base);
    PrintLead(uart, digitCount, sign, leadingZero, width);
    PrintPlaces(uart, v, p, base, upper, digitCount - 1);
    FieldReadsBack(v, sign, base, upper, leadingZero, width);
  }

  // ---------------------------------------------------------------------------- the small printf

  lemma {:induction false} PowersOf16(i: nat)
    ensures Power(2, 4 * i) == Power(16, i)
  {
    if i > 0 {
      PowersOf16(i - 1);
      var k := 4 * i;
      NextPower(2, k);
      NextPower(2, k - 1);
      NextPower(2, k - 2);
      NextPower(2, k - 3);
    }
  }

  /** v without its last i hexadecimal digits. */
  function Top(v: nat, i: nat): nat {
    PowerPositive(16, i);
    Quot(v, Power(16, i))
  }

  /** The nibble that the mask and shift at 4i cut out is a hexadecimal digit, the next one after those above
      it. */
  lemma NibbleIsDigit(v: nat, i: nat)
    requires v < WORD && i < 8
    ensures MaskedNibble(v, 4 * i) < 16
    ensures Digits(Top(v, i), 16)
            == (if Top(v, i + 1) > 0 then Digits(Top(v, i + 1), 16) else []) + [MaskedNibble(v, 4 * i)]
    ensures Top(v, i + 1) == 0 ==> MaskedNibble(v, 4 * i) == Top(v, i)
    ensures Top(v, i + 1) > 0 ==> Top(v, i) > 0
  {
    hide Rem, Quot, Digits, Power, MaskedNibble;
    PowerPositive(16, i);
    var p := Power(16, i);
    NextPower(16, i + 1);
    NibbleAt(v, i);
    NextPlace(v, p, 16);
    QuotRemOfSum(Quot(v, 16 * p), Quot(Rem(v, 16 * p), p), 16);
    PrintAtPlace(v, p, 16);
    PlaceAbove(v, p, 16);
  }

  lemma NibbleAt(v: nat, i: nat)
    requires v < WORD && i < 8
    ensures 0 < Power(16, i) && MaskedNibble(v, 4 * i) == Rem(Quot(v, Power(16, i)), 16)
  {
    hide Rem, Quot, Power, MaskedNibble;
    PowerPositive(16, i);
    PowersOf16(i);
    PowersOf16(8);
    EightNibbles(v);
    MaskedNibbleIsDigit(v, 4 * i);
  }

  lemma EightNibbles(v: nat)
    requires v < WORD
    ensures Top(v, 8) == 0 && Top(v, 0) == v
    ensures Power(16, 8) == WORD
  {
    assert Power(16, 2) == 256;
    assert Power(16, 4) == 0x1_0000 by { assert Power(16, 4) == 16 * (16 * Power(16, 2)); }
    assert Power(16, 6) == 0x100_0000 by { assert Power(16, 6) == 16 * (16 * Power(16, 4)); }
    assert Power(16, 8) == WORD by { assert Power(16, 8) == 16 * (16 * Power(16, 6)); }
  }

  /** Finds the first non-zero digit of v, which is not 0. */
  method FirstDigit(v: nat) returns (shift: nat)
    requires 0 < v < WORD
    ensures shift <= 28 && shift % 4 == 0
    ensures Top(v, shift / 4 + 1) == 0 && MaskedNibble(v, shift) != 0
  {
    hide Top, MaskedNibble, Digits;
    EightNibbles(v);
    shift := 28;
    ghost var i := 7;
    while MaskedNibble(v, shift) == 0
      invariant 0 <= i <= 7 && shift == 4 * i && Top(v, i + 1) == 0
      decreases i
    {
      NibbleIsDigit(v, i);
      shift := shift - 4;
      i := i - 1;
    }
    assert shift / 4 == i;
  }

  /** The `%x` path of the small printf. */
  method PrintHex(uart: Uart, v: nat)
    requires v < WORD
    modifies uart
    ensures uart.out == old(uart.out) + Rendered(Digits(v, 16), false)
  {
    if v == 0 {
      assert Rendered([0], false) == "0";
      uart.TxChar('0');
      return;
    }
    PrintNibbles(uart, v);
  }

  /** Prints the digits of v, which is not 0. */
  method PrintNibbles(uart: Uart, v: nat)
    requires 0 < v < WORD
    modifies uart
    ensures uart.out == old(uart.out) + Rendered(Digits(v, 16), false)
  {
    hide Digits, DigitChar, MaskedNibble, Top, Rendered, Power, Quot, Rem;
    EightNibbles(v);
    var shift: int := FirstDigit(v);
    ghost var i: int := shift / 4;
    ghost var ds: seq<nat> := [];
    RenderedOneMore(ds, 0, false);
    while shift >= 0
      invariant -1 <= i <= 7 && shift == 4 * i
      invariant ds == if Top(v, i + 1) == 0 then [] else Digits(Top(v, i + 1), 16)
      invariant Top(v, i + 1) == 0 ==> i >= 0 && MaskedNibble(v, 4 * i) != 0
      invariant forall j :: 0 <= j < |ds| ==> ds[j] < 16
      invariant uart.out == old(uart.out) + Rendered(ds, false)
    {
      NibbleIsDigit(v, i);
      var digit := MaskedNibble(v, shift);
      uart.TxChar(DigitChar(digit, false));
      RenderedOneMore(ds, digit, false);
      ds := ds + [digit];
      shift := shift - 4;
      i := i - 1;
    }
  }

  lemma RenderedOneMore(ds: seq<nat>, d: nat, upper: bool)
    requires d < 16 && forall j :: 0 <= j < |ds| ==> ds[j] < 16
    ensures Rendered(ds + [d], upper) == Rendered(ds, upper) + [DigitChar(d, upper)]
    ensures Rendered([], upper) == ""
  {
  }

  /** The two printers emit the same characters for `%x` without a width. */
  method PrintersAgree(a: Uart, b: Uart, v: nat)
    requires v < WORD && a != b && a.out == b.out
    modifies a, b
    ensures a.out == b.out
  {
    hide Digits;
    PrintInteger(a, v, false, 16, false, false, -1);
    PrintHex(b, v);
    assert Field(v, false, 16, false, false, -1) == Rendered(Digits(v, 16), false);
  }
}
