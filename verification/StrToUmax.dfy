/**
 Reading a number: white space, a sign, a prefix, and a run of digits. The number is a
 uintmax_t. A string is read up to and including the terminator behind its last character.
 */
module StrToUmax {
  import opened Bits
  import opened Digits

  const UINTMAX_MAX: nat := 0xFFFF_FFFF_FFFF_FFFF

  /** What errno is set to, if anything. */
  datatype Errno = Unset | EINVAL | ERANGE

  /** The character at p; behind the last one is the terminator. */
  function At(s: string, p: nat): char
    requires p <= |s|
  {
    if p < |s| then s[p] else '\0'
  }

  predicate IsSpace(c: char) {
    c == '\t' || c == '\n' || c == '\U{0B}' || c == '\U{0C}' || c == '\r' || c == ' '
  }

  predicate IsOctal(c: char) {
    '0' <= c <= '7'
  }

  predicate IsHex(c: char) {
    '0' <= c <= '9' || 'A' <= c <= 'F' || 'a' <= c <= 'f'
  }

  // ---------------------------------------------------------------- the parts of a number

  ghost function SpaceEnd(s: string, p: nat): (e: nat)
    requires p <= |s|
    ensures p <= e <= |s|
    decreases |s| - p
  {
    if p < |s| && IsSpace(s[p]) then SpaceEnd(s, p + 1) else p
  }

  ghost predicate Signed(s: string) {
    At(s, SpaceEnd(s, 0)) in {'+', '-'}
  }

  ghost predicate Negative(s: string) {
    At(s, SpaceEnd(s, 0)) == '-'
  }

  /** Where the number begins, behind white space and sign. */
  ghost function NumStart(s: string): (p: nat)
    ensures p <= |s|
  {
    SpaceEnd(s, 0) + if Signed(s) then 1 else 0
  }

  ghost predicate OctalPrefix(s: string, p: nat)
    requires p <= |s|
  {
    At(s, p) == '0' && IsOctal(At(s, p + 1))
  }

  ghost predicate HexPrefix(s: string, p: nat)
    requires p <= |s|
  {
    At(s, p) == '0' && At(s, p + 1) in {'x', 'X'} && IsHex(At(s, p + 2))
  }

  /** A leading zero after which reading stops, whatever the base. */
  ghost predicate LoneZero(s: string, p: nat)
    requires p <= |s|
  {
    At(s, p) == '0' && !IsOctal(At(s, p + 1)) && At(s, p + 1) !in {'x', 'X'}
  }

  ghost predicate BaseOk(base: int) {
    base == 0 || 2 <= base <= 36
  }

  /** The base that is read in. */
  ghost function RealBase(s: string, p: nat, base: int): (b: nat)
    requires p <= |s| && BaseOk(base)
    ensures 2 <= b <= 36
  {
    if base != 0 then base
    else if OctalPrefix(s, p) then 8
    else if HexPrefix(s, p) then 16
    else 10
  }

  /** Where the digits begin, behind a prefix of the base. */
  ghost function DigitStart(s: string, p: nat, base: int): (d: nat)
    requires p <= |s| && BaseOk(base)
    ensures p <= d <= |s|
  {
    if OctalPrefix(s, p) && RealBase(s, p, base) == 8 then p + 1
    else if HexPrefix(s, p) && RealBase(s, p, base) == 16 then p + 2
    else p
  }

  ghost function RunEnd(s: string, p: nat, b: nat): (e: nat)
    requires p <= |s|
    ensures p <= e <= |s|
    decreases |s| - p
  {
    if p < |s| && DigitVal(s[p]) < b then RunEnd(s, p + 1, b) else p
  }

  /** The number read so far, as the machine computes it. */
  ghost function Wrapped(s: string, lo: nat, hi: nat, b: nat): nat
    requires lo <= hi <= |s|
  {
    Value(s, lo, hi, b) % WORD
  }

  /** No digit from lo to hi made the number smaller. */
  ghost predicate Steady(s: string, lo: nat, hi: nat, b: nat)
    requires lo <= hi <= |s|
  {
    forall j, k :: lo <= j < k <= hi && k == j + 1 ==> Wrapped(s, lo, j, b) <= Wrapped(s, lo, k, b)
  }

  /** The result, the place reading stopped, and errno. */
  ghost predicate ParsesTo(s: string, base: int, ret: nat, end: nat, err: Errno) {
    if !BaseOk(base) then ret == UINTMAX_MAX && end == 0 && err == EINVAL
    else
      var ns := NumStart(s);
      if LoneZero(s, ns) then ret == 0 && end == ns + 1 && err == Unset
      else
        var b, d := RealBase(s, ns, base), DigitStart(s, ns, base);
        var e := RunEnd(s, d, b);
        if e == ns then ret == UINTMAX_MAX && end == 0 && err == EINVAL
        else if Steady(s, d, e, b) then
          && end == e && err == Unset
          && ret == if Negative(s) then Neg(Value(s, d, e, b)) else Wrapped(s, d, e, b)
        else
          && ret == UINTMAX_MAX && err == ERANGE
          && d <= end < e && Steady(s, d, end, b) && !Steady(s, d, end + 1, b)
  }

  lemma {:induction false} RunDigits(s: string, p: nat, b: nat, k: nat)
    requires p <= k <= |s| && forall i :: p <= i < k ==> DigitVal(s[i]) < b
    requires k == |s| || DigitVal(s[k]) >= b
    ensures RunEnd(s, p, b) == k
    decreases k - p
  {
    if p < k {
      RunDigits(s, p + 1, b, k);
    }
  }

  lemma SteadyStep(s: string, lo: nat, hi: nat, b: nat)
    requires lo <= hi < |s| && Steady(s, lo, hi, b)
    ensures Steady(s, lo, hi + 1, b) <==> Wrapped(s, lo, hi, b) <= Wrapped(s, lo, hi + 1, b)
  {
  }

  /** Appending a digit commutes with wrapping. */
  lemma WrapStep(v: nat, b: nat, d: nat)
    ensures (v % WORD * b % WORD + d) % WORD == (v * b + d) % WORD
  {
    var q, r := v / WORD, v % WORD;
    assert v == q * WORD + r;
    assert v * b + d == q * b * WORD + (r * b + d) by {
      assert (q * WORD + r) * b == q * b * WORD + r * b;
    }
    ModSkips(r * b + d, q * b);
    var q', r' := r * b / WORD, r * b % WORD;
    assert r * b + d == q' * WORD + (r' + d);
    ModSkips(r' + d, q');
  }

  lemma ModSkips(x: nat, k: nat)
    ensures (k * WORD + x) % WORD == x % WORD
  {
    var q, r := x / WORD, x % WORD;
    assert x == q * WORD + r;
    assert k * WORD + x == (k + q) * WORD + r;
    QuotientIs(k * WORD + x, WORD, k + q, r);
  }

  lemma NegWrapped(v: nat)
    ensures Neg(v % WORD) == Neg(v)
  {
    SmallMod(v % WORD, WORD);
  }

  // ---------------------------------------------------------------- the program

  /** Skips white space. */
  method SkipSpace(s: string) returns (p: nat)
    ensures p == SpaceEnd(s, 0)
  {
    p := 0;
    while IsSpace(At(s, p))
      invariant p <= |s| && SpaceEnd(s, 0) == SpaceEnd(s, p)
      decreases |s| - p
    {
      p := p + 1;
    }
  }

  /** Reads digits until one does not belong, or the number drops. */
  method Convert(s: string, d: nat, b: nat) returns (ret: nat, p: nat, dropped: bool)
    requires d <= |s| && 2 <= b <= 36
    ensures d <= p <= RunEnd(s, d, b) && Steady(s, d, p, b)
    ensures !dropped ==> p == RunEnd(s, d, b) && ret == Wrapped(s, d, p, b)
    ensures dropped ==> p < RunEnd(s, d, b) && !Steady(s, d, p + 1, b)
  {
    ret, p, dropped := 0, d, false;
    while p < |s| && DigitVal(s[p]) < b
      invariant d <= p <= |s| && RunEnd(s, d, b) == RunEnd(s, p, b)
      invariant Steady(s, d, p, b) && ret == Wrapped(s, d, p, b)
      decreases |s| - p
    {
      var pret := ret;
      SteadyStep(s, d, p, b);
      WrapStep(Value(s, d, p, b), b, DigitVal(s[p]));
      ret := ret * b % WORD;
      ret := (ret + DigitVal(s[p])) % WORD;
      if ret < pret {
        dropped := true;
        return;
      }
      p := p + 1;
    }
  }

  /** Skips white space and the sign. */
  method SkipSign(s: string) returns (p: nat, neg: bool)
    ensures p == NumStart(s) && neg == Negative(s)
  {
    p := SkipSpace(s);
    neg := false;
    if At(s, p) == '-' {
      neg := true;
      p := p + 1;
    } else if At(s, p) == '+' {
      p := p + 1;
    }
  }

  /** Skips the prefix and settles the base. */
  method Prefix(s: string, ns: nat, base: int) returns (p: nat, b: nat, lone: bool)
    requires ns <= |s| && BaseOk(base)
    ensures lone == LoneZero(s, ns)
    ensures if lone then p == ns + 1 else p == DigitStart(s, ns, base) && b == RealBase(s, ns, base)
  {
    p, b, lone := ns, base, false;
    if At(s, p) == '0' {
      if IsOctal(At(s, p + 1)) {
        if b == 0 {
          b := 8;
        }
        if b == 8 {
          p := p + 1;
        }
      } else if At(s, p + 1) == 'x' || At(s, p + 1) == 'X' {
        if IsHex(At(s, p + 2)) {
          if b == 0 {
            b := 16;
          }
          if b == 16 {
            p := p + 2;
          }
        }
      } else {
        return p + 1, b, true;
      }
    }
    if b == 0 {
      b := 10;
    }
  }

  method StrToUmax(s: string, base: int) returns (ret: nat, end: nat, err: Errno)
    ensures ParsesTo(s, base, ret, end, err)
  {
    if base < 0 || base == 1 || base > 36 {
      return UINTMAX_MAX, 0, EINVAL;
    }
    var ns, neg := SkipSign(s);
    var p, b, lone := Prefix(s, ns, base);
    if lone {
      return 0, p, Unset;
    }
    var dropped;
    ghost var d := p;
    ret, p, dropped := Convert(s, p, b);
    if dropped {
      return UINTMAX_MAX, p, ERANGE;
    }
    if neg {
      NegWrapped(Value(s, d, p, b));
      ret := Neg(ret);
    }
    if p == ns {
      return UINTMAX_MAX, 0, EINVAL;
    }
    return ret, p, Unset;
  }

  // ---------------------------------------------------------------- overflow

  /** A number below 2^64 never drops on the way. */
  lemma SmallIsSteady(s: string, lo: nat, hi: nat, b: nat)
    requires lo <= hi <= |s| && b > 0 && Value(s, lo, hi, b) < WORD
    ensures Steady(s, lo, hi, b) && Wrapped(s, lo, hi, b) == Value(s, lo, hi, b)
  {
    forall j, k | lo <= j < k <= hi && k == j + 1 ensures Wrapped(s, lo, j, b) <= Wrapped(s, lo, k, b) {
      ValueGrows(s, lo, k, hi, b);
      ValueGrows(s, lo, j, k, b);
      SmallMod(Value(s, lo, k, b), WORD);
      SmallMod(Value(s, lo, j, b), WORD);
    }
    SmallMod(Value(s, lo, hi, b), WORD);
  }

  /** A range error is only reported when the digits stand for 2^64 or more. */
  lemma RangeErrorIsReal(s: string, base: int, ret: nat, end: nat, err: Errno)
    requires ParsesTo(s, base, ret, end, err) && err == ERANGE
    ensures var ns := NumStart(s);
      var b, d := RealBase(s, ns, base), DigitStart(s, ns, base);
      Value(s, d, RunEnd(s, d, b), b) >= WORD
  {
    var ns := NumStart(s);
    var b, d := RealBase(s, ns, base), DigitStart(s, ns, base);
    var e := RunEnd(s, d, b);
    if Value(s, d, e, b) < WORD {
      SmallIsSteady(s, d, e, b);
    }
  }

  /** An overflow is reported exactly when some digit makes the machine's number drop, and then
      reading stops in front of that digit. */
  lemma OverflowReportedExactly(s: string, base: int, ret: nat, end: nat, err: Errno)
    requires BaseOk(base) && ParsesTo(s, base, ret, end, err) && !LoneZero(s, NumStart(s))
    ensures var ns := NumStart(s);
      var b, d := RealBase(s, ns, base), DigitStart(s, ns, base);
      var e := RunEnd(s, d, b);
      (err == ERANGE <==> !Steady(s, d, e, b)) && (err == ERANGE ==> end < e)
  {
  }

  // ---------------------------------------------------------------- as a function

  datatype Reading = Reading(ret: nat, end: nat, err: Errno)

  /** How far the digits can be read before the machine's number drops. */
  ghost function SteadyEnd(s: string, lo: nat, k: nat, hi: nat, b: nat): (e: nat)
    requires lo <= k <= hi <= |s| && Steady(s, lo, k, b)
    ensures k <= e <= hi && Steady(s, lo, e, b) && (e < hi ==> !Steady(s, lo, e + 1, b))
    decreases hi - k
  {
    if k < hi && Steady(s, lo, k + 1, b) then SteadyEnd(s, lo, k + 1, hi, b) else k
  }

  /** What becomes of the digits from d to e. */
  ghost function RunReading(s: string, d: nat, e: nat, b: nat, negative: bool): (r: Reading)
    requires d <= e <= |s|
    ensures r.end <= |s|
  {
    if Steady(s, d, e, b) then Reading(if negative then Neg(Value(s, d, e, b)) else Wrapped(s, d, e, b), e, Unset)
    else Reading(UINTMAX_MAX, SteadyEnd(s, d, d, e, b), ERANGE)
  }

  ghost function ReadingOf(s: string, base: int): (r: Reading)
    ensures r.end <= |s|
  {
    if !BaseOk(base) then Reading(UINTMAX_MAX, 0, EINVAL)
    else
      var ns := NumStart(s);
      var b, d := RealBase(s, ns, base), DigitStart(s, ns, base);
      var e := RunEnd(s, d, b);
      if LoneZero(s, ns) then Reading(0, ns + 1, Unset)
      else if e == ns then Reading(UINTMAX_MAX, 0, EINVAL)
      else RunReading(s, d, e, b, Negative(s))
  }

  /** The outcome of reading is determined by the string. */
  lemma ReadingIs(s: string, base: int, ret: nat, end: nat, err: Errno)
    ensures ParsesTo(s, base, ret, end, err) <==> ReadingOf(s, base) == Reading(ret, end, err)
  {
    var r := ReadingOf(s, base);
    if ParsesTo(s, base, ret, end, err) && err == ERANGE {
      var d := DigitStart(s, NumStart(s), base);
      var b := RealBase(s, NumStart(s), base);
      SteadyPrefix(s, d, end, r.end, b);
      SteadyPrefix(s, d, r.end, end, b);
    }
  }

  /** A run that is not steady up to k + 1 is not steady any further. */
  lemma SteadyPrefix(s: string, d: nat, k: nat, m: nat, b: nat)
    requires d <= k < |s| && d <= m <= |s| && !Steady(s, d, k + 1, b) && Steady(s, d, m, b)
    ensures m <= k
  {
  }

  // ---------------------------------------------------------------- round trips

  /** Text of x, behind whatever NumStart and the prefix skip, is read in full. */
  lemma ReadsText(s: string, base: int, p: nat, x: nat, b: nat, uppercase: bool, ret: nat, end: nat, err: Errno)
    requires BaseOk(base) && ParsesTo(s, base, ret, end, err) && x < WORD && 2 <= b <= 36
    requires p <= |s| && s[p..] == Text(x, b, uppercase)
    requires var ns := NumStart(s); !LoneZero(s, ns) && RealBase(s, ns, base) == b && DigitStart(s, ns, base) == p
    ensures end == |s| && err == Unset && ret == if Negative(s) then Neg(x) else x
  {
    var t := Text(x, b, uppercase);
    assert forall i :: p <= i < p + |t| ==> s[i] == s[p..][i - p];
    ValueAgrees(s, t, p, 0, |t|, b);
    TextValue(x, b, uppercase);
    forall i | p <= i < |s| ensures DigitVal(s[i]) < b {
      TextDigits(x, b, uppercase);
      assert s[i] == t[i - p];
    }
    RunDigits(s, p, b, |s|);
    SmallIsSteady(s, p, |s|, b);
  }

  lemma StartsPlain(s: string)
    requires s != [] && DigitVal(s[0]) < 36
    ensures NumStart(s) == 0 && !Negative(s)
  {
  }

  /** Any number, printed in any base and either case, is read back in that base. */
  lemma UnsignedRoundTrip(x: nat, base: nat, uppercase: bool, ret: nat, end: nat, err: Errno)
    requires x < WORD && 2 <= base <= 36 && ParsesTo(Text(x, base, uppercase), base, ret, end, err)
    ensures ret == x && end == |Text(x, base, uppercase)| && err == Unset
  {
    var t := Text(x, base, uppercase);
    TextDigits(x, base, uppercase);
    LeadingDigit(x, base, uppercase);
    StartsPlain(t);
    if x > 0 {
      assert t[0..] == t;
      ReadsText(t, base, 0, x, base, uppercase, ret, end, err);
    }
  }

  /** The alternate octal form tells its base. */
  lemma OctalRoundTrip(x: nat, ret: nat, end: nat, err: Errno)
    requires x < WORD && ParsesTo(OctalText(x, true), 0, ret, end, err)
    ensures ret == x && end == |OctalText(x, true)| && err == Unset
  {
    var s, t := OctalText(x, true), Text(x, 8, false);
    TextDigits(x, 8, false);
    LeadingDigit(x, 8, false);
    StartsPlain(s);
    if x > 0 {
      assert s[1..] == t && s[1] == t[0];
      OctalDigit(t[0]);
      ReadsText(s, 0, 1, x, 8, false, ret, end, err);
    }
  }

  lemma OctalDigit(c: char)
    ensures DigitVal(c) < 8 <==> IsOctal(c)
    ensures DigitVal(c) < 16 <==> IsHex(c)
  {
  }

  /** The alternate hexadecimal form tells its base. */
  lemma HexRoundTrip(x: nat, uppercase: bool, ret: nat, end: nat, err: Errno)
    requires x < WORD && ParsesTo(HexText(x, true, uppercase), 0, ret, end, err)
    ensures ret == x && end == |HexText(x, true, uppercase)| && err == Unset
  {
    var s, t := HexText(x, true, uppercase), Text(x, 16, uppercase);
    TextDigits(x, 16, uppercase);
    StartsPlain(s);
    assert s[2..] == t && s[2] == t[0];
    OctalDigit(t[0]);
    ReadsText(s, 0, 2, x, 16, uppercase, ret, end, err);
  }

  /** A signed number, printed with any sign option, is read back modulo 2^64. */
  lemma DecimalRoundTrip(x: int, sign: char, ret: nat, end: nat, err: Errno)
    requires -0x8000_0000_0000_0000 <= x < 0x8000_0000_0000_0000 && sign in {'-', ' ', '+'}
    requires ParsesTo(DecimalText(x, sign), 10, ret, end, err)
    ensures ret == (if x < 0 then WORD + x else x) && end == |DecimalText(x, sign)| && err == Unset
  {
    var y := if x < 0 then -x else x;
    var s, t := DecimalText(x, sign), Text(y, 10, false);
    var p := |s| - |t|;
    TextDigits(y, 10, false);
    LeadingDigit(y, 10, false);
    assert s[p..] == t && s[p] == t[0];
    if p == 0 {
      StartsPlain(s);
    } else {
      SignSkipped(s);
    }
    if x < 0 {
      SmallMod(y, WORD);
    }
    if y > 0 {
      ReadsText(s, 10, p, y, 10, false, ret, end, err);
    }
  }

  /** One sign, or one blank, in front of a digit. */
  lemma SignSkipped(s: string)
    requires |s| >= 2 && s[0] in {'-', ' ', '+'} && DigitVal(s[1]) < 36
    ensures NumStart(s) == 1 && (Negative(s) <==> s[0] == '-')
  {
    assert SpaceEnd(s, 1) == 1;
  }
}
