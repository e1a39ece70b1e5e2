/**
 The fields that section 7.19.6.1 of ISO/IEC 9899:1999 asks for, and exactly when the
 program's own are the same. A field is the text of one argument, padded to its width.
 */
module PrintfStandard {
  import opened AddressSpace
  import opened Digits
  import opened PrintfModel

  /** A text filled up with blanks to at least w characters. */
  ghost function Fill(t: string, w: nat, left: bool): string {
    var pad := Blanks(if |t| < w then w - |t| else 0);
    if left then t + pad else pad + t
  }

  /** What the program fills up to: -1 is no width at all, and the other negative ones are huge. */
  ghost function FillWidth(width: int): nat
    requires INT_MIN <= width <= INT_MAX
  {
    if width == -1 then 0 else ToSize(width)
  }

  lemma PaddedIs(t: string, width: int, left: bool)
    requires INT_MIN <= width <= INT_MAX
    ensures Padded(t, width, left) == Fill(t, FillWidth(width), left)
  {
  }

  ghost function Zeros(n: nat): (t: string)
    ensures |t| == n
  {
    if n == 0 then "" else "0" + Zeros(n - 1)
  }

  /** At least prec digits, and none for a zero with precision zero. */
  ghost function StdDigits(x: nat, base: nat, uppercase: bool, prec: int): string
    requires 2 <= base <= 36
  {
    var t := Text(x, base, uppercase);
    if prec == 0 && x == 0 then "" else if |t| < prec then Zeros(prec - |t|) + t else t
  }

  /** A prefix and digits, filled up to the width: with zeros behind the prefix if there is a zero flag,
      which the left flag and a precision each cancel, and else with blanks. */
  ghost function StdNumber(prefix: string, digits: string, zero: bool, left: bool, w: nat, prec: int): string
  {
    var n := |prefix| + |digits|;
    if zero && !left && prec < 0 then prefix + Zeros(if n < w then w - n else 0) + digits
    else Fill(prefix + digits, w, left)
  }

  ghost function StdSign(x: int, fl: Flags): string {
    if x < 0 then "-" else if fl.plus then "+" else if fl.space then " " else ""
  }

  ghost function StdDecimal(x: int, fl: Flags, zero: bool, w: nat, prec: int): string
  {
    StdNumber(StdSign(x, fl), StdDigits(if x < 0 then -x else x, 10, false, prec), zero, fl.left, w, prec)
  }

  ghost function StdUnsigned(x: nat, fl: Flags, zero: bool, w: nat, prec: int): string
  {
    StdNumber("", StdDigits(x, 10, false, prec), zero, fl.left, w, prec)
  }

  /** The alternate form makes the first digit a zero. */
  ghost function StdOctalDigits(x: nat, alt: bool, prec: int): string {
    var d := StdDigits(x, 8, false, prec);
    if alt && (d == "" || d[0] != '0') then "0" + d else d
  }

  ghost function StdOctal(x: nat, fl: Flags, zero: bool, w: nat, prec: int): string
  {
    StdNumber("", StdOctalDigits(x, fl.alt, prec), zero, fl.left, w, prec)
  }

  ghost function HexPrefixText(uppercase: bool): string {
    if uppercase then "0X" else "0x"
  }

  /** The alternate form prefixes numbers other than zero. */
  ghost function StdHex(x: nat, fl: Flags, uppercase: bool, zero: bool, w: nat, prec: int): string
  {
    var prefix := if fl.alt && x != 0 then HexPrefixText(uppercase) else "";
    StdNumber(prefix, StdDigits(x, 16, uppercase, prec), zero, fl.left, w, prec)
  }

  ghost function StdString(s: string, prec: int): string {
    if prec < 0 || |s| <= prec then s else s[..prec]
  }

  /** The digits written are those asked for. */
  ghost predicate EnoughDigits(x: nat, base: nat, prec: int)
    requires 2 <= base <= 36
  {
    prec <= |Text(x, base, false)| && !(prec == 0 && x == 0)
  }

  /** A zero flag that is in force has nothing to fill. */
  ghost predicate ZeroIdle(length: nat, zero: bool, left: bool, w: nat, prec: int) {
    zero && !left && prec < 0 ==> w <= length
  }

  // ---------------------------------------------------------------- zeros and blanks

  lemma {:induction false} CaseLength(x: nat, base: nat, uppercase: bool)
    requires 2 <= base <= 36
    ensures |Text(x, base, uppercase)| == |Text(x, base, false)|
    decreases x
  {
    if x >= base {
      CaseLength(x / base, base, uppercase);
    }
  }

  lemma {:induction false} ZerosAt(n: nat, k: nat)
    ensures k < n ==> Zeros(n)[k] == '0'
  {
    if 0 < k < n {
      ZerosAt(n - 1, k - 1);
    }
  }

  lemma ZerosAll(n: nat)
    ensures forall k :: 0 <= k < n ==> Zeros(n)[k] == '0'
  {
    forall k | 0 <= k < n ensures Zeros(n)[k] == '0' {
      ZerosAt(n, k);
    }
  }

  lemma {:induction false} BlanksAre(n: nat)
    ensures |Blanks(n)| == n && forall k :: 0 <= k < n ==> Blanks(n)[k] == ' '
  {
    if n > 0 {
      BlanksAre(n - 1);
    }
  }

  lemma FillIs(t: string, w: nat, left: bool)
    ensures var u := Fill(t, w, left);
      && |u| == Max(|t|, w)
      && if left then t <= u && (forall k :: |t| <= k < |u| ==> u[k] == ' ')
         else u[|u| - |t|..] == t && forall k :: 0 <= k < |u| - |t| ==> u[k] == ' '
  {
    BlanksAre(if |t| < w then w - |t| else 0);
  }

  /** A width is a minimum: shorter texts are filled up with blanks on one side, longer ones are left alone. */
  lemma WidthIsMinimum(t: string, width: int, left: bool)
    requires INT_MIN <= width <= INT_MAX
    ensures var u := Padded(t, width, left);
      && |u| == Max(|t|, FillWidth(width))
      && if left then t <= u && (forall k :: |t| <= k < |u| ==> u[k] == ' ')
         else u[|u| - |t|..] == t && forall k :: 0 <= k < |u| - |t| ==> u[k] == ' '
  {
    PaddedIs(t, width, left);
    FillIs(t, FillWidth(width), left);
  }

  /** The character n places in front of the last one, if there is one. */
  ghost predicate FromEnd(u: string, n: nat, c: char) {
    n < |u| && u[|u| - 1 - n] == c
  }

  /** A sign or a hexadecimal prefix: it does not end in a zero. */
  ghost predicate PrefixOk(prefix: string) {
    prefix == "" || prefix[|prefix| - 1] != '0'
  }

  ghost predicate NoBlanks(t: string) {
    forall k :: 0 <= k < |t| ==> t[k] != ' '
  }

  /** In front of digits that are not padded with zeros there is no zero. */
  lemma NoZeroInFront(prefix: string, t: string, w: nat)
    requires PrefixOk(prefix)
    ensures !FromEnd(Fill(prefix + t, w, false), |t|, '0')
  {
    var u := Fill(prefix + t, w, false);
    FillIs(prefix + t, w, false);
    if |t| < |u| && prefix != "" {
      var j := |u| - |prefix + t|;
      assert u[j..][|prefix| - 1] == (prefix + t)[|prefix| - 1];
    }
  }

  /** Zeros are seen in front of the digits they fill up. */
  lemma ZeroInFront(a: string, n: nat, t: string)
    requires n > 0
    ensures FromEnd(a + Zeros(n) + t, |t|, '0')
  {
    ZerosAt(n, n - 1);
    var u := a + Zeros(n) + t;
    assert u[|u| - 1 - |t|] == Zeros(n)[n - 1];
  }

  /** Filling with blanks on the left, more digits are told from fewer. */
  lemma MoreZerosShow(prefix: string, n: nat, t: string, w: nat)
    requires PrefixOk(prefix) && n > 0
    ensures Fill(prefix + t, w, false) != Fill(prefix + (Zeros(n) + t), w, false)
  {
    NoZeroInFront(prefix, t, w);
    var pad := Blanks(if |prefix + (Zeros(n) + t)| < w then w - |prefix + (Zeros(n) + t)| else 0);
    assert Fill(prefix + (Zeros(n) + t), w, false) == (pad + prefix) + Zeros(n) + t;
    ZeroInFront(pad + prefix, n, t);
  }

  /** So are they filling with blanks on the right. */
  lemma MoreZerosShowLeft(prefix: string, n: nat, t: string, w: nat)
    requires n > 0 && NoBlanks(t)
    ensures Fill(prefix + t, w, true) != Fill(prefix + (Zeros(n) + t), w, true)
  {
    var a, b := prefix + t, prefix + (Zeros(n) + t);
    FillIs(a, w, true);
    FillIs(b, w, true);
    var d := Zeros(n) + t;
    ZerosAll(n);
    assert d[|t|] != ' ';
    assert b[|a|] == d[|t|];
    if |Fill(a, w, true)| == |Fill(b, w, true)| {
      assert Fill(b, w, true)[|a|] == b[|a|];
    }
  }

  /** A zero is told from no digit at all. */
  lemma NoDigitShows(prefix: string, w: nat, left: bool)
    requires PrefixOk(prefix)
    ensures Fill(prefix + "0", w, left) != Fill(prefix + "", w, left)
  {
    var a := prefix + "0";
    assert prefix + "" == prefix && a[|prefix|] == '0';
    var u, v := Fill(a, w, left), Fill(prefix, w, left);
    FillIs(a, w, left);
    FillIs(prefix, w, left);
    if |u| == |v| {
      if left {
        assert u[|prefix|] == '0';
      } else {
        assert u[|u| - |a|..][|prefix|] == '0';
        if prefix != "" {
          assert v[|v| - |prefix|..][|prefix| - 1] == prefix[|prefix| - 1];
        }
      }
    }
  }

  /** How the digits asked for and those written are related. */
  ghost predicate Longer(t: string, d: string, n: nat) {
    (n > 0 && d == Zeros(n) + t) || (n == 0 && t == "0" && d == "")
  }

  lemma FillsDiffer(prefix: string, t: string, d: string, n: nat, w: nat, left: bool)
    requires PrefixOk(prefix) && NoBlanks(t) && Longer(t, d, n)
    ensures Fill(prefix + t, w, left) != Fill(prefix + d, w, left)
  {
    if n == 0 {
      NoDigitShows(prefix, w, left);
    } else if left {
      MoreZerosShowLeft(prefix, n, t, w);
    } else {
      MoreZerosShow(prefix, n, t, w);
    }
  }

  /** Blanks and zeros are the same filling exactly if there is nothing to fill. */
  lemma FillingExactly(prefix: string, t: string, w: nat)
    requires PrefixOk(prefix)
    ensures Fill(prefix + t, w, false) == StdNumber(prefix, t, true, false, w, -1) <==> w <= |prefix + t|
  {
    if w <= |prefix + t| {
      assert prefix + Zeros(0) + t == prefix + t;
      assert Blanks(0) + (prefix + t) == prefix + t;
    } else {
      NoZeroInFront(prefix, t, w);
      ZeroInFront(prefix, w - |prefix + t|, t);
    }
  }

  /** At one width, text t behind a prefix is the standard's field for digits d exactly if they agree
      and no zeros are to be filled in. */
  lemma SameWidthExactly(prefix: string, t: string, d: string, n: nat, zero: bool, left: bool, w: nat, prec: int)
    requires PrefixOk(prefix) && NoBlanks(t)
    requires t == d || Longer(t, d, n)
    requires prec < 0 ==> t == d
    ensures Fill(prefix + t, w, left) == StdNumber(prefix, d, zero, left, w, prec)
      <==> t == d && ZeroIdle(|prefix + t|, zero, left, w, prec)
  {
    if zero && !left && prec < 0 {
      FillingExactly(prefix, t, w);
    } else if t != d {
      FillsDiffer(prefix, t, d, n, w, left);
    }
  }

  /** What is filled up to w is as long as what is filled up to width. */
  ghost predicate SameFill(length: nat, w: nat, width: nat) {
    Max(length, w) == Max(length, width)
  }

  lemma NumberLength(prefix: string, d: string, zero: bool, left: bool, width: nat, prec: int)
    ensures var u := StdNumber(prefix, d, zero, left, width, prec);
      |u| == Max(|prefix + d|, width) && u == StdNumber(prefix, d, zero, left, |u|, prec)
  {
    FillIs(prefix + d, width, left);
  }

  /** Text t behind a prefix, filled up to w, is the standard's field of a given width for digits d exactly if
      they agree, the lengths do, and no zeros are to be filled in. */
  lemma FieldExactly(prefix: string, t: string, d: string, n: nat, zero: bool, left: bool, w: nat, width: nat,
                     prec: int)
    requires PrefixOk(prefix) && NoBlanks(t)
    requires t == d || Longer(t, d, n)
    requires prec < 0 ==> t == d
    ensures Fill(prefix + t, w, left) == StdNumber(prefix, d, zero, left, width, prec)
      <==> t == d && SameFill(|prefix + t|, w, width) && ZeroIdle(|prefix + t|, zero, left, width, prec)
  {
    var u, v := Fill(prefix + t, w, left), StdNumber(prefix, d, zero, left, width, prec);
    FillIs(prefix + t, w, left);
    NumberLength(prefix, d, zero, left, width, prec);
    if |u| == |v| {
      assert u == Fill(prefix + t, |u|, left);
      SameWidthExactly(prefix, t, d, n, zero, left, |u|, prec);
    }
  }

  lemma TextHasNoBlanks(x: nat, base: nat, uppercase: bool)
    requires 2 <= base <= 36
    ensures NoBlanks(Text(x, base, uppercase))
  {
    TextDigits(x, base, uppercase);
    forall k | 0 <= k < |Text(x, base, uppercase)| ensures Text(x, base, uppercase)[k] != ' ' {
      assert DigitVal(Text(x, base, uppercase)[k]) < base;
    }
  }

  /** The digits asked for are those written, or more, or none. */
  lemma DigitsCompare(x: nat, base: nat, uppercase: bool, prec: int) returns (n: nat)
    requires 2 <= base <= 36
    ensures var t, d := Text(x, base, uppercase), StdDigits(x, base, uppercase, prec);
      && NoBlanks(t) && (prec < 0 ==> t == d)
      && (t == d || Longer(t, d, n)) && (t == d <==> EnoughDigits(x, base, prec))
  {
    var t := Text(x, base, uppercase);
    TextHasNoBlanks(x, base, uppercase);
    CaseLength(x, base, uppercase);
    LeadingDigit(x, base, uppercase);
    n := if |t| < prec then prec - |t| else 0;
  }

  // ---------------------------------------------------------------- the conversions

  lemma DecimalParts(x: int, fl: Flags)
    ensures DecimalText(x, SignOf(fl)) == StdSign(x, fl) + Text(if x < 0 then -x else x, 10, false)
  {
    var t := Text(if x < 0 then -x else x, 10, false);
    assert "" + t == t;
  }

  /** A signed decimal is the standard's exactly if the precision asks for no other digits
      and no zeros are to be filled in. */
  lemma DecimalStandardExactly(x: int, fl: Flags, zero: bool, w: nat, width: nat, prec: int)
    ensures var t := DecimalText(x, SignOf(fl));
      Fill(t, w, fl.left) == StdDecimal(x, fl, zero, width, prec)
      <==> EnoughDigits(if x < 0 then -x else x, 10, prec)
           && SameFill(|t|, w, width) && ZeroIdle(|t|, zero, fl.left, width, prec)
  {
    var y := if x < 0 then -x else x;
    DecimalParts(x, fl);
    var n := DigitsCompare(y, 10, false, prec);
    FieldExactly(StdSign(x, fl), Text(y, 10, false), StdDigits(y, 10, false, prec), n, zero, fl.left, w, width, prec);
  }

  /** The same for an unsigned decimal. */
  lemma UnsignedStandardExactly(x: nat, fl: Flags, zero: bool, w: nat, width: nat, prec: int)
    ensures var t := Text(x, 10, false);
      Fill(t, w, fl.left) == StdUnsigned(x, fl, zero, width, prec)
      <==> EnoughDigits(x, 10, prec)
           && SameFill(|t|, w, width) && ZeroIdle(|t|, zero, fl.left, width, prec)
  {
    var n := DigitsCompare(x, 10, false, prec);
    assert "" + Text(x, 10, false) == Text(x, 10, false);
    FieldExactly("", Text(x, 10, false), StdDigits(x, 10, false, prec), n, zero, fl.left, w, width, prec);
  }

  lemma {:induction false} ZerosEnd(n: nat)
    ensures Zeros(n) + "0" == "0" + Zeros(n)
  {
    if n > 0 {
      ZerosEnd(n - 1);
      assert Zeros(n) + "0" == "0" + (Zeros(n - 1) + "0");
    }
  }

  lemma OctalCompare(x: nat, alt: bool, prec: int) returns (n: nat)
    ensures var t, d := OctalText(x, alt), StdOctalDigits(x, alt, prec);
      && NoBlanks(t) && (prec < 0 ==> t == d) && (t == d || Longer(t, d, n))
      && (t == d <==> if alt then prec <= |t| else EnoughDigits(x, 8, prec))
  {
    var u, d := Text(x, 8, false), StdDigits(x, 8, false, prec);
    n := DigitsCompare(x, 8, false, prec);
    LeadingDigit(x, 8, false);
    if alt && |u| < prec {
      assert d[0] == '0';
      if x > 0 {
        ZerosEnd(n - 1);
        assert d == Zeros(n - 1) + ("0" + u);
        n := n - 1;
        assert n == 0 ==> Zeros(n) + ("0" + u) == "0" + u;
      }
    }
  }

  /** The same for an octal; the alternate form needs one digit less to reach the precision. */
  lemma OctalStandardExactly(x: nat, fl: Flags, zero: bool, w: nat, width: nat, prec: int)
    ensures var t := OctalText(x, fl.alt);
      Fill(t, w, fl.left) == StdOctal(x, fl, zero, width, prec)
      <==> (if fl.alt then prec <= |t| else EnoughDigits(x, 8, prec))
           && SameFill(|t|, w, width) && ZeroIdle(|t|, zero, fl.left, width, prec)
  {
    var t := OctalText(x, fl.alt);
    var n := OctalCompare(x, fl.alt, prec);
    assert "" + t == t;
    FieldExactly("", t, StdOctalDigits(x, fl.alt, prec), n, zero, fl.left, w, width, prec);
  }

  /** The letter of a prefixed zero is in no field of the standard for zero. */
  lemma PrefixedZero(fl: Flags, uppercase: bool, zero: bool, w: nat, width: nat, prec: int)
    ensures Fill(HexPrefixText(uppercase) + "0", w, fl.left)
      != StdNumber("", StdDigits(0, 16, uppercase, prec), zero, fl.left, width, prec)
  {
    var t := HexPrefixText(uppercase) + "0";
    var u, v := Fill(t, w, fl.left), StdNumber("", StdDigits(0, 16, uppercase, prec), zero, fl.left, width, prec);
    FillIs(t, w, fl.left);
    var k := if fl.left then 1 else |u| - 2;
    assert u[k] == t[1] by {
      if !fl.left {
        assert u[|u| - |t|..][1] == t[1];
      }
    }
    if u == v {
      StdZero(uppercase, zero, fl.left, width, prec, k);
    }
  }

  lemma StdZero(uppercase: bool, zero: bool, left: bool, w: nat, prec: int, k: nat)
    requires k < |StdNumber("", StdDigits(0, 16, uppercase, prec), zero, left, w, prec)|
    ensures StdNumber("", StdDigits(0, 16, uppercase, prec), zero, left, w, prec)[k] in {'0', ' '}
  {
    var d := StdDigits(0, 16, uppercase, prec);
    LeadingDigit(0, 16, uppercase);
    if prec > 1 {
      ZerosAll(prec - 1);
      assert d == Zeros(prec - 1) + "0";
    }
    assert forall j :: 0 <= j < |d| ==> d[j] == '0';
    assert "" + d == d;
    NumberLength("", d, zero, left, w, prec);
    ZeroField(d, zero && !left && prec < 0, left, w, k);
  }

  /** A field of zeros holds zeros and blanks. */
  lemma ZeroField(d: string, zeros: bool, left: bool, w: nat, k: nat)
    requires forall j :: 0 <= j < |d| ==> d[j] == '0'
    requires k < Max(|d|, w)
    ensures var u := if zeros then "" + Zeros(if |d| < w then w - |d| else 0) + d else Fill("" + d, w, left);
      |u| == Max(|d|, w) && u[k] in {'0', ' '}
  {
    assert "" + d == d;
    if zeros {
      ZerosAll(if |d| < w then w - |d| else 0);
    } else {
      var u := Fill(d, w, left);
      FillIs(d, w, left);
      if !left && k >= |u| - |d| {
        assert u[|u| - |d|..][k - (|u| - |d|)] == d[k - (|u| - |d|)];
      }
    }
  }

  /** The same for a hexadecimal; in the alternate form a zero never is. */
  lemma HexStandardExactly(x: nat, fl: Flags, uppercase: bool, zero: bool, w: nat, width: nat, prec: int)
    ensures var t := HexText(x, fl.alt, uppercase);
      Fill(t, w, fl.left) == StdHex(x, fl, uppercase, zero, width, prec)
      <==> EnoughDigits(x, 16, prec) && !(fl.alt && x == 0)
           && SameFill(|t|, w, width) && ZeroIdle(|t|, zero, fl.left, width, prec)
  {
    var t, d := Text(x, 16, uppercase), StdDigits(x, 16, uppercase, prec);
    if fl.alt && x == 0 {
      LeadingDigit(0, 16, uppercase);
      PrefixedZero(fl, uppercase, zero, w, width, prec);
    } else {
      var prefix := if fl.alt then HexPrefixText(uppercase) else "";
      var n := DigitsCompare(x, 16, uppercase, prec);
      assert "" + t == t;
      FieldExactly(prefix, t, d, n, zero, fl.left, w, width, prec);
    }
  }

  /** Filling hides the characters between i and j of s: they are blanks, and so is all in front of them
      if the filling is. */
  ghost predicate Hidden(s: string, i: nat, j: nat, left: bool)
    requires i <= |s| && j <= |s|
  {
    forall k :: (if left then Min(i, j) else 0) <= k < Max(i, j) ==> s[k] == ' '
  }

  /** A text that a shorter part of it, behind blanks, looks like is blank. */
  lemma {:induction false} AllBlank(s: string, d: nat, j: nat, k: nat)
    requires 0 < d <= j <= |s| && k < j
    requires forall m :: 0 <= m < d ==> s[m] == ' '
    requires forall l, m :: 0 <= l < m < j && m == l + d ==> s[m] == s[l]
    ensures s[k] == ' '
  {
    if k >= d {
      AllBlank(s, d, j, k - d);
      assert s[k] == s[k - d];
    }
  }

  /** Two parts of a string fill the same field exactly if the lengths agree, and the parts do
      or what tells them apart is hidden. */
  lemma StringFieldExactly(s: string, i: nat, j: nat, w: nat, width: nat, left: bool)
    requires i <= |s| && j <= |s|
    ensures Fill(s[..i], w, left) == Fill(s[..j], width, left)
      <==> Max(i, w) == Max(j, width) && (i == j || Hidden(s, i, j, left))
  {
    FillIs(s[..i], w, left);
    FillIs(s[..j], width, left);
    if Max(i, w) == Max(j, width) && i != j {
      if i < j {
        PartsExactly(s, i, j, Max(i, w), left);
      } else {
        PartsExactly(s, j, i, Max(i, w), left);
      }
    }
  }

  lemma PartsExactly(s: string, i: nat, j: nat, n: nat, left: bool)
    requires i < j <= |s| && j <= n
    ensures Fill(s[..i], n, left) == Fill(s[..j], n, left) <==> Hidden(s, i, j, left)
  {
    var u, v := Fill(s[..i], n, left), Fill(s[..j], n, left);
    FillIs(s[..i], n, left);
    FillIs(s[..j], n, left);
    if left {
      assert forall k :: i <= k < j ==> v[k] == s[k] && u[k] == ' ';
      assert forall k :: 0 <= k < i ==> v[k] == s[k] == u[k];
      if Hidden(s, i, j, left) {
        assert forall k :: 0 <= k < n ==> u[k] == v[k];
      }
    } else {
      RightParts(s, i, j, n);
    }
  }

  lemma RightParts(s: string, i: nat, j: nat, n: nat)
    requires i < j <= |s| && j <= n
    ensures Fill(s[..i], n, false) == Fill(s[..j], n, false) <==> Hidden(s, i, j, false)
  {
    var u, v := Fill(s[..i], n, false), Fill(s[..j], n, false);
    RightAre(s, i, n);
    RightAre(s, j, n);
    if u == v {
      forall m | 0 <= m < j - i ensures s[m] == ' ' {
        assert v[n - j + m] == u[n - j + m];
      }
      forall l, m | 0 <= l < m < j && m == l + (j - i) ensures s[m] == s[l] {
        assert v[n - j + m] == u[n - i + l];
      }
      forall k | 0 <= k < j ensures s[k] == ' ' {
        AllBlank(s, j - i, j, k);
      }
    }
    if Hidden(s, i, j, false) {
      RightBlanks(s, i, n);
      RightBlanks(s, j, n);
    }
  }

  /** Filled up to n, the first i characters of s stand at the end. */
  lemma RightAre(s: string, i: nat, n: nat)
    requires i <= |s| && i <= n
    ensures var u := Fill(s[..i], n, false);
      && |u| == n && (forall k :: 0 <= k < n - i ==> u[k] == ' ')
      && forall k, l :: 0 <= l < i && k == n - i + l ==> u[k] == s[l]
  {
    var u := Fill(s[..i], n, false);
    FillIs(s[..i], n, false);
    forall k, l | 0 <= l < i && k == n - i + l ensures u[k] == s[l] {
      assert u[n - i..][l] == s[..i][l];
    }
  }

  lemma RightBlanks(s: string, i: nat, n: nat)
    requires i <= |s| && i <= n && forall k :: 0 <= k < i ==> s[k] == ' '
    ensures Fill(s[..i], n, false) == Blanks(n)
  {
    var u := Fill(s[..i], n, false);
    RightAre(s, i, n);
    BlanksAre(n);
    forall k | 0 <= k < n ensures u[k] == ' ' {
      assert k >= n - i ==> u[k] == s[k - (n - i)];
    }
  }

  /** A precision longer than its string is a fault here; the standard prints the string. */
  lemma StringFaultsExactly(s: string, fl: Flags, prec: int, len: Length)
    requires TextLength(len)
    ensures ConvText('s', fl, prec, len, Str(s)).Fault? <==> prec > |s|
    ensures prec <= |s| ==> ConvText('s', fl, prec, len, Str(s)) == Output(StdString(s, prec))
  {
    if prec == |s| {
      assert s[..prec] == s;
    }
  }

  /** A format without directives prints itself. */
  lemma {:induction false} PlainFormat(f: string, p: nat, args: seq<Arg>, a: nat)
    requires p <= |f| && '%' !in f && '\0' !in f
    ensures Render(f, p, args, a) == Output(f[p..])
    decreases |f| - p
  {
    if p < |f| {
      PlainFormat(f, p + 1, args, a);
      assert f[p..] == [f[p]] + f[p + 1..];
    } else {
      assert f[p..] == "";
    }
  }
}
