/**
 Positional notation: the digits of a number in a base, and the value of a run of digits.
 */
module Digits {
  import opened Bits

  /** The value of a digit character; 36 if it is none. */
  function DigitVal(c: char): (d: nat)
    ensures d <= 36
  {
    if '0' <= c <= '9' then c as int - '0' as int
    else if 'A' <= c <= 'Z' then 10 + c as int - 'A' as int
    else if 'a' <= c <= 'z' then 10 + c as int - 'a' as int
    else 36
  }

  ghost function DigitChar(d: nat, uppercase: bool): (c: char)
    requires d < 36
    ensures DigitVal(c) == d
  {
    if d < 10 then ('0' as int + d) as char
    else if uppercase then ('A' as int + d - 10) as char
    else ('a' as int + d - 10) as char
  }

  lemma DigitOff(x: nat, d: nat)
    requires x >= d >= 2
    ensures 0 < x / d < x && x % d < d
  {
    assert x == x / d * d + x % d;
  }

  /** A number in a base, without leading zeros; zero is a single digit. */
  ghost function Text(x: nat, base: nat, uppercase: bool): (t: string)
    requires 2 <= base <= 36
    ensures |t| > 0
  {
    if x < base then [DigitChar(x, uppercase)]
    else
      DigitOff(x, base);
      Text(x / base, base, uppercase) + [DigitChar(x % base, uppercase)]
  }

  /** The value of s[lo..hi] in a base. */
  ghost function Value(s: string, lo: nat, hi: nat, base: nat): nat
    requires lo <= hi <= |s|
    decreases hi
  {
    if lo == hi then 0 else Value(s, lo, hi - 1, base) * base + DigitVal(s[hi - 1])
  }

  lemma {:induction false} ValueAgrees(s: string, t: string, lo: nat, off: nat, n: nat, base: nat)
    requires lo + n <= |s| && off + n <= |t|
    requires forall i :: lo <= i < lo + n ==> s[i] == t[i - lo + off]
    ensures Value(s, lo, lo + n, base) == Value(t, off, off + n, base)
    decreases n
  {
    if n > 0 {
      ValueAgrees(s, t, lo, off, n - 1, base);
      assert s[lo + n - 1] == t[off + n - 1];
    }
  }

  lemma ValueSnoc(u: string, v: nat, d: nat, base: nat, uppercase: bool)
    requires d < 36 && Value(u, 0, |u|, base) == v
    ensures var t := u + [DigitChar(d, uppercase)]; Value(t, 0, |t|, base) == v * base + d
  {
    var t := u + [DigitChar(d, uppercase)];
    ValueAgrees(t, u, 0, 0, |u|, base);
  }

  lemma DivMod(x: nat, d: nat)
    requires d > 0
    ensures x / d * d + x % d == x
  {
  }

  lemma TextStep(x: nat, base: nat, uppercase: bool)
    requires 2 <= base <= 36 && x >= base
    requires var u := Text(x / base, base, uppercase); Value(u, 0, |u|, base) == x / base
    ensures var t := Text(x, base, uppercase); Value(t, 0, |t|, base) == x
  {
    var q, r := x / base, x % base;
    ValueSnoc(Text(q, base, uppercase), q, r, base, uppercase);
    DivMod(x, base);
  }

  /** Reading back what was written gives the number. */
  lemma {:induction false} TextValue(x: nat, base: nat, uppercase: bool)
    requires 2 <= base <= 36
    ensures var t := Text(x, base, uppercase); Value(t, 0, |t|, base) == x
    decreases x
  {
    if x >= base {
      DigitOff(x, base);
      TextValue(x / base, base, uppercase);
      TextStep(x, base, uppercase);
    } else {
      ValueSnoc("", 0, x, base, uppercase);
    }
  }

  lemma {:induction false} TextDigits(x: nat, base: nat, uppercase: bool)
    requires 2 <= base <= 36
    ensures forall i :: 0 <= i < |Text(x, base, uppercase)| ==> DigitVal(Text(x, base, uppercase)[i]) < base
    decreases x
  {
    if x >= base {
      DigitOff(x, base);
      TextDigits(x / base, base, uppercase);
      SnocDigits(Text(x / base, base, uppercase), x % base, base, uppercase);
    } else {
      SnocDigits("", x, base, uppercase);
      assert Text(x, base, uppercase) == "" + [DigitChar(x, uppercase)];
    }
  }

  lemma SnocDigits(u: string, d: nat, base: nat, uppercase: bool)
    requires d < base <= 36 && forall i :: 0 <= i < |u| ==> DigitVal(u[i]) < base
    ensures var t := u + [DigitChar(d, uppercase)]; forall i :: 0 <= i < |t| ==> DigitVal(t[i]) < base
  {
  }

  /** Only zero is written with a leading zero. */
  lemma {:induction false} LeadingDigit(x: nat, base: nat, uppercase: bool)
    requires 2 <= base <= 36
    ensures Text(x, base, uppercase)[0] == '0' <==> x == 0
    ensures x == 0 ==> Text(x, base, uppercase) == "0"
    decreases x
  {
    if x >= base {
      DigitOff(x, base);
      LeadingDigit(x / base, base, uppercase);
      var u := Text(x / base, base, uppercase);
      assert Text(x, base, uppercase) == u + [DigitChar(x % base, uppercase)];
      assert (u + [DigitChar(x % base, uppercase)])[0] == u[0];
    }
  }

  lemma TimesGrow(p: nat, q: nat, c: nat, d: nat)
    requires p <= q && c <= d
    ensures p * c <= q * d
  {
    assert q * d == p * c + p * (d - c) + (q - p) * d;
  }

  lemma QuotientHalves(x: nat, d: nat, c: nat, p: nat)
    requires d >= c > 0 && x < c * p
    ensures x / d < p
  {
    var q := x / d;
    assert x == q * d + x % d;
    if q >= p {
      TimesGrow(p, q, c, d);
    }
  }

  /** A number of n bits has at most n digits, whatever the base. */
  lemma {:induction false} TextFits(x: nat, base: nat, uppercase: bool, n: nat)
    requires 2 <= base <= 36 && n > 0 && x < Power(n)
    ensures |Text(x, base, uppercase)| <= n
    decreases n
  {
    assert Power(1) == 2;
    if x >= base {
      QuotientHalves(x, base, 2, Power(n - 1));
      TextFits(x / base, base, uppercase, n - 1);
    }
  }

  /** In base four or above, half as many digits suffice. */
  lemma {:induction false} TextFitsHalf(x: nat, base: nat, uppercase: bool, n: nat)
    requires 4 <= base <= 36 && n > 0 && x < Power(2 * n)
    ensures |Text(x, base, uppercase)| <= n
    decreases n
  {
    assert Power(2) == 4;
    if x >= base {
      assert Power(2 * n) == 4 * Power(2 * (n - 1));
      QuotientHalves(x, base, 4, Power(2 * (n - 1)));
      TextFitsHalf(x / base, base, uppercase, n - 1);
    }
  }

  /** Values only grow along a run of digits. */
  lemma {:induction false} ValueGrows(s: string, lo: nat, mid: nat, hi: nat, base: nat)
    requires lo <= mid <= hi <= |s| && base > 0
    ensures Value(s, lo, mid, base) <= Value(s, lo, hi, base)
    decreases hi
  {
    if mid < hi {
      ValueGrows(s, lo, mid, hi - 1, base);
      TimesGrow(Value(s, lo, hi - 1, base), Value(s, lo, hi - 1, base), 1, base);
    }
  }

  // ---------------------------------------------------------------- signs and prefixes

  /** A signed decimal: the sign asked for is shown only on numbers that are not negative. */
  ghost function DecimalText(x: int, sign: char): string {
    var t := Text(if x < 0 then -x else x, 10, false);
    if x < 0 then "-" + t else if sign == '-' then t else [sign] + t
  }

  /** The alternate form of zero is zero itself. */
  ghost function OctalText(x: nat, altForm: bool): string {
    var t := Text(x, 8, false);
    if altForm && x != 0 then "0" + t else t
  }

  ghost function HexText(x: nat, altForm: bool, uppercase: bool): string {
    var t := Text(x, 16, uppercase);
    if altForm then (if uppercase then "0X" else "0x") + t else t
  }
}
