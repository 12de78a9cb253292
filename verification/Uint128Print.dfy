/** googletest's decimal printing of 128-bit integers by long division over two 64-bit limbs. */
module Uint128Print {

  /** The values of a uint64_t. */
  const WORD := 0x1_0000_0000_0000_0000

  newtype Uint64 = x: int | 0 <= x < WORD

  const TWO_128 := WORD * WORD

  // ----- Decimal numerals -----

  predicate IsDigit(c: char) {
    '0' <= c <= '9'
  }

  ghost predicate AllDigits(s: string) {
    forall i :: 0 <= i < |s| ==> IsDigit(s[i])
  }

  function DigitValue(c: char): nat
    requires IsDigit(c)
  {
    c as nat - '0' as nat
  }

  /** The number a string of digits denotes. */
  ghost function Value(s: string): nat
    requires AllDigits(s)
  {
    if s == [] then 0 else 10 * Value(s[..|s| - 1]) + DigitValue(s[|s| - 1])
  }

  /** Digits, without a leading zero unless the numeral is just "0". */
  ghost predicate IsNumeral(s: string) {
    s != [] && AllDigits(s) && (s[0] == '0' ==> |s| == 1)
  }

  /** The digits of n, none for zero. */
  ghost function Digits(n: nat): (s: string)
    ensures AllDigits(s)
    ensures Value(s) == n && (s == [] <==> n == 0) && (s != [] ==> s[0] != '0')
  {
    if n == 0 then [] else
      var front := Digits(n / 10);
      var s := front + [Digit(n % 10)];
      assert s[..|s| - 1] == front;
      s
  }

  function Digit(d: nat): (c: char)
    requires d < 10
    ensures IsDigit(c) && DigitValue(c) == d
  {
    '0' + d as char
  }

  ghost function Numeral(n: nat): (s: string)
    ensures IsNumeral(s) && Value(s) == n
  {
    if n == 0 then "0" else Digits(n)
  }

  function Pow10(k: nat): (p: nat)
    ensures p >= 1
  {
    if k == 0 then 1 else 10 * Pow10(k - 1)
  }

  /** A numeral of k digits without a leading zero lies between two powers of ten. */
  lemma {:induction false} ValueBounds(s: string)
    requires AllDigits(s)
    ensures Value(s) < Pow10(|s|)
    ensures s != [] && s[0] != '0' ==> Value(s) >= Pow10(|s| - 1)
  {
    if |s| > 0 {
      ValueBounds(s[..|s| - 1]);
    }
  }

  /** Every number has one numeral. */
  lemma {:induction false} NumeralUnique(a: string, b: string)
    requires IsNumeral(a) && IsNumeral(b) && Value(a) == Value(b)
    ensures a == b
    decreases |a|
  {
    var fa, fb := a[..|a| - 1], b[..|b| - 1];
    assert Value(a) / 10 == Value(fa) && Value(a) % 10 == DigitValue(a[|a| - 1]);
    assert Value(b) / 10 == Value(fb) && Value(b) % 10 == DigitValue(b[|b| - 1]);
    assert a == fa + [a[|a| - 1]] && b == fb + [b[|b| - 1]];
    ValueBounds(fa);
    ValueBounds(fb);
    if fa != [] && fb != [] {
      NumeralUnique(fa, fb);
    }
  }

  lemma {:induction false} Pow10Monotone(j: nat, k: nat)
    requires j <= k
    ensures Pow10(j) <= Pow10(k)
  {
    if j < k {
      Pow10Monotone(j, k - 1);
    }
  }

  lemma Pow10Of39()
    ensures Pow10(38) < TWO_128 <= Pow10(39)
  {
    assert Pow10(5) == 100000;
    assert Pow10(10) == 100000 * 100000;
    assert Pow10(15) == 1_000_000_000_000_000;
    assert Pow10(20) == 100_000_000_000_000_000_000;
    assert Pow10(25) == 10_000_000_000_000_000_000_000_000;
    assert Pow10(30) == 1_000_000_000_000_000_000_000_000_000_000;
    assert Pow10(35) == 100_000_000_000_000_000_000_000_000_000_000_000;
    assert Pow10(38) == 100_000_000_000_000_000_000_000_000_000_000_000_000;
  }

  lemma LongIsLarge(s: string)
    requires AllDigits(s) && |s| >= 40 && s[0] != '0'
    ensures Value(s) >= TWO_128
  {
    ValueBounds(s);
    Pow10Of39();
    Pow10Monotone(39, |s| - 1);
  }

  /** No 128-bit number takes more than 39 digits. */
  lemma DigitsFit(n: nat)
    requires n < TWO_128
    ensures |Digits(n)| <= 39
  {
    if |Digits(n)| >= 40 {
      LongIsLarge(Digits(n));
    }
  }

  // ----- One step of the long division -----

  function Join(high: Uint64, low: Uint64): int {
    high as int * WORD + low as int
  }

  /** The sum that becomes the low limb reaches the largest 64-bit value but never passes it. */
  lemma DivisionStep(high: nat, low: nat)
    requires high < WORD && low < WORD
    ensures var highMod := high % 10;
            var carry := 6 * highMod + low % 10;
            var nextLow := low / 10 + highMod * 1844674407370955161 + carry / 10;
            && nextLow < WORD
            && (high / 10) * WORD + nextLow == (high * WORD + low) / 10
            && carry % 10 == (high * WORD + low) % 10
  {
    var highMod := high % 10;
    var carry := 6 * highMod + low % 10;
    var nextLow := low / 10 + highMod * 1844674407370955161 + carry / 10;
    assert high * WORD + low == 10 * ((high / 10) * WORD + nextLow) + carry % 10;
  }

  /** The bound is reached. */
  lemma DivisionStepIsTight()
    ensures var high, low := 9, WORD - 1;
            low / 10 + (high % 10) * 1844674407370955161 + (6 * (high % 10) + low % 10) / 10 == WORD - 1
  {
  }

  // ----- The printer -----

  /** What the stream prints of a buffer: the characters up to the NUL. */
  function CString(buf: seq<char>): string {
    if buf == [] || buf[0] == '\0' then [] else [buf[0]] + CString(buf[1..])
  }

  lemma {:induction false} CStringOfDigits(s: string)
    requires AllDigits(s)
    ensures CString(s + ['\0']) == s
  {
    if s != [] {
      CStringOfDigits(s[1..]);
      assert (s + ['\0'])[1..] == s[1..] + ['\0'];
    }
  }

  /** Part way through, the digits still to come, followed by the printed ones, are those of n. */
  ghost predicate Printing(n: nat, rest: int, printed: string) {
    rest >= 0 && AllDigits(printed) && Digits(n) == Digits(rest) + printed && |Digits(n)| <= 39
  }

  lemma PrintingNext(n: nat, rest: int, printed: string)
    requires Printing(n, rest, printed) && rest > 0
    ensures Printing(n, rest / 10, [Digit(rest % 10)] + printed) && |printed| < 39
  {
    assert Digits(rest) == Digits(rest / 10) + [Digit(rest % 10)];
    assert Digits(rest) + printed == Digits(rest / 10) + ([Digit(rest % 10)] + printed);
  }

  /** The loop's long division by ten; every intermediate value is checked to fit 64 bits. */
  method DivideByTen(high: Uint64, low: Uint64) returns (nextHigh: Uint64, nextLow: Uint64, digit: Uint64)
    ensures Join(nextHigh, nextLow) == Join(high, low) / 10 && digit as int == Join(high, low) % 10
  {
    DivisionStep(high as nat, low as nat);
    var highMod := high % 10;
    nextHigh := high / 10;
    var carry := 6 * highMod + low % 10;
    nextLow := low / 10 + highMod * 1844674407370955161 + carry / 10;
    digit := carry % 10;
  }

  /** The source's *--p = c. */
  method PutBefore(buf: array<char>, p: nat, c: char) returns (p': nat)
    requires 0 < p <= buf.Length
    modifies buf
    ensures p' == p - 1 && buf[p'..] == [c] + old(buf[p..])
  {
    p' := p - 1;
    buf[p'] := c;
  }

  method PrintUint128(high: Uint64, low: Uint64) returns (s: string)
    ensures Join(high, low) >= 0 && s == Numeral(Join(high, low))
  {
    if high == 0 && low == 0 {
      return "0";
    }
    var buf := new char[40];
    var p: nat := 40;
    var high, low := high, low;
    ghost var n := Join(high, low);
    ghost var printed: string := [];
    DigitsFit(n);
    p := PutBefore(buf, p, '\0');
    while high != 0 || low != 0
      invariant Printing(n, Join(high, low), printed)
      invariant 0 <= p == 39 - |printed| && buf[p..] == printed + ['\0']
      decreases Join(high, low)
    {
      PrintingNext(n, Join(high, low), printed);
      printed := [Digit(Join(high, low) % 10)] + printed;
      var digit;
      high, low, digit := DivideByTen(high, low);
      p := PutBefore(buf, p, Digit(digit as nat));
    }
    CStringOfDigits(printed);
    s := CString(buf[p..]);
  }

  /** The two limbs of an unsigned 128-bit number. */
  function Limbs(u: int): (r: (Uint64, Uint64))
    requires 0 <= u < TWO_128
    ensures Join(r.0, r.1) == u
  {
    ((u / WORD) as Uint64, (u % WORD) as Uint64)
  }

  lemma TwosComplement(v: int)
    requires -(TWO_128 / 2) <= v < TWO_128 / 2
    ensures if v < 0 then (-(v % TWO_128)) % TWO_128 == -v else v % TWO_128 == v
  {
  }

  /** Right even for the least value, which has no positive counterpart among the signed ones. */
  method PrintInt128(v: int) returns (s: string)
    requires -(TWO_128 / 2) <= v < TWO_128 / 2
    ensures s == if v < 0 then "-" + Numeral(-v) else Numeral(v)
  {
    TwosComplement(v);
    var u := v % TWO_128;
    s := "";
    if v < 0 {
      s := "-";
      u := (-u) % TWO_128;
    }
    var limbs := Limbs(u);
    var digits := PrintUint128(limbs.0, limbs.1);
    s := s + digits;
  }
}
