/**
 Every digit of a number's text, told from the number and its place alone.
 */
module DigitsExactly {
  import opened Bits
  import opened Digits

  /** The digits in order, in either case. */
  ghost function Numeral(d: nat, uppercase: bool): char
    requires d < 36
  {
    if uppercase then "0123456789ABCDEFGHIJKLMNOPQRSTUVWXYZ"[d] else "0123456789abcdefghijklmnopqrstuvwxyz"[d]
  }

  lemma NumeralIs(d: nat, uppercase: bool)
    requires d < 36
    ensures DigitChar(d, uppercase) == Numeral(d, uppercase)
  {
  }

  /** A character has a value as a digit exactly if it is the numeral of that value in one of the cases. */
  lemma DigitValExactly(c: char, d: nat)
    requires d < 36
    ensures DigitVal(c) == d <==> c == Numeral(d, false) || c == Numeral(d, true)
  {
    NumeralIs(d, false);
    NumeralIs(d, true);
  }

  ghost function PowerOf(b: nat, k: nat): nat {
    if k == 0 then 1 else b * PowerOf(b, k - 1)
  }

  lemma {:induction false} PowerPositive(b: nat, k: nat)
    requires b > 0
    ensures PowerOf(b, k) > 0
  {
    if k > 0 {
      PowerPositive(b, k - 1);
      ProductPositive(b, PowerOf(b, k - 1));
    }
  }

  lemma ProductPositive(a: nat, b: nat)
    requires a > 0 && b > 0
    ensures a * b > 0
  {
  }

  lemma DivDiv(x: nat, b: nat, p: nat)
    requires b > 0 && p > 0
    ensures b * p > 0 && x / b / p == x / (b * p)
  {
    var y, m := x / b, x % b;
    var q, r := y / p, y % p;
    ProductPositive(b, p);
    Parts(x, b);
    Parts(y, p);
    TwoSteps(x, b, p, y, m, q, r);
    QuotientIs(x, b * p, q, b * r + m);
  }

  lemma Parts(x: nat, d: nat)
    requires d > 0
    ensures x == d * (x / d) + x % d && x % d < d
  {
  }

  lemma TwoSteps(x: nat, b: nat, p: nat, y: nat, m: nat, q: nat, r: nat)
    requires x == b * y + m && y == p * q + r && m < b && r < p
    ensures x == q * (b * p) + (b * r + m) && b * r + m < b * p
  {
    Regroup(b, p, q, r, m);
    Monotone(b, r + 1, p);
  }

  lemma Regroup(b: nat, p: nat, q: nat, r: nat, m: nat)
    ensures b * (p * q + r) + m == q * (b * p) + (b * r + m)
  {
    assert b * (p * q + r) == b * (p * q) + b * r;
    assert b * (p * q) == q * (b * p);
  }

  lemma Monotone(b: nat, r: nat, p: nat)
    requires r <= p
    ensures b * r <= b * p
  {
    assert b * p == b * r + b * (p - r);
  }

  /** The digit k places in front of the last one. */
  ghost function DigitAt(x: nat, base: nat, k: nat): (d: nat)
    requires base > 1
    ensures d < base
  {
    PowerPositive(base, k);
    RemainderBelow(x / PowerOf(base, k), base);
    x / PowerOf(base, k) % base
  }

  lemma RemainderBelow(x: nat, d: nat)
    requires d > 0
    ensures x % d < d
  {
  }

  lemma DigitShift(x: nat, base: nat, k: nat)
    requires base > 1
    ensures DigitAt(x, base, k + 1) == DigitAt(x / base, base, k)
  {
    PowerPositive(base, k);
    DivDiv(x, base, PowerOf(base, k));
  }

  lemma LastDigit(x: nat, base: nat)
    requires base > 1
    ensures DigitAt(x, base, 0) == x % base
  {
    assert PowerOf(base, 0) == 1;
  }

  lemma {:induction false} TextPlaces(x: nat, base: nat, uppercase: bool, k: nat)
    requires 2 <= base <= 36
    ensures var t := Text(x, base, uppercase);
      k < |t| ==> t[|t| - 1 - k] == DigitChar(DigitAt(x, base, k), uppercase)
    decreases x
  {
    LastDigit(x, base);
    if x >= base {
      DigitOff(x, base);
      if k > 0 {
        TextPlaces(x / base, base, uppercase, k - 1);
        DigitShift(x, base, k - 1);
      }
    } else {
      SmallMod(x, base);
    }
  }

  /** Every place of a number's text holds the numeral of the digit there, in the case asked for. */
  lemma TextExactly(x: nat, base: nat, uppercase: bool, k: nat)
    requires 2 <= base <= 36
    ensures var t := Text(x, base, uppercase);
      k < |t| ==> t[|t| - 1 - k] == Numeral(DigitAt(x, base, k), uppercase)
  {
    TextPlaces(x, base, uppercase, k);
    NumeralIs(DigitAt(x, base, k), uppercase);
  }

  /** There are as many places as the number needs, and at least one. */
  lemma {:induction false} TextLengthExactly(x: nat, base: nat, uppercase: bool)
    requires 2 <= base <= 36
    ensures var n := |Text(x, base, uppercase)|;
      n > 0 && x < PowerOf(base, n) && (n > 1 ==> PowerOf(base, n - 1) <= x)
    decreases x
  {
    if x >= base {
      DigitOff(x, base);
      TextLengthExactly(x / base, base, uppercase);
      var m := |Text(x / base, base, uppercase)|;
      assert |Text(x, base, uppercase)| == m + 1;
      Scale(x, base, PowerOf(base, m), if m > 1 then PowerOf(base, m - 1) else 1);
    } else {
      assert PowerOf(base, 0) == 1 && PowerOf(base, 1) == base;
    }
  }

  lemma Scale(x: nat, b: nat, p: nat, q: nat)
    requires b > 0 && x / b < p && q <= x / b
    ensures x < b * p && b * q <= x
  {
    var y, m := x / b, x % b;
    assert x == b * y + m;
    Monotone(b, y + 1, p);
    Monotone(b, q, y);
  }

  predicate InCase(c: char, uppercase: bool) {
    '0' <= c <= '9' || if uppercase then 'A' <= c <= 'Z' else 'a' <= c <= 'z'
  }

  /** A number's text keeps to its case. */
  lemma TextCase(x: nat, base: nat, uppercase: bool)
    requires 2 <= base <= 36
    ensures forall i :: 0 <= i < |Text(x, base, uppercase)| ==> InCase(Text(x, base, uppercase)[i], uppercase)
  {
    var t := Text(x, base, uppercase);
    forall i | 0 <= i < |t| ensures InCase(t[i], uppercase) {
      var k := |t| - 1 - i;
      TextPlaces(x, base, uppercase, k);
      CharCase(DigitAt(x, base, k), uppercase);
    }
  }

  lemma CharCase(d: nat, uppercase: bool)
    requires d < 36
    ensures InCase(DigitChar(d, uppercase), uppercase)
  {
  }
}
