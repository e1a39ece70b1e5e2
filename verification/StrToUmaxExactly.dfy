/**
 What reading a number returns for every input, in terms of the characters of the input.
 */
module StrToUmaxExactly {
  import opened Bits
  import opened Digits
  import opened StrToUmax
  import opened StrToUmaxStandard

  ghost predicate Blank(c: char) {
    c in {' ', '\t', '\n', '\U{0B}', '\U{0C}', '\r'}
  }

  lemma {:induction false} BlanksEnd(s: string, p: nat)
    requires p <= |s|
    ensures var w := SpaceEnd(s, p);
      (forall i :: p <= i < w ==> Blank(s[i])) && (w < |s| ==> !Blank(s[w]))
    decreases |s| - p
  {
    if p < |s| && IsSpace(s[p]) {
      BlanksEnd(s, p + 1);
    }
  }

  /** The number begins behind the blanks in front and one sign. */
  lemma StartExactly(s: string) returns (w: nat)
    ensures w <= |s| && (forall i :: 0 <= i < w ==> Blank(s[i])) && (w < |s| ==> !Blank(s[w]))
    ensures NumStart(s) == if w < |s| && s[w] in {'+', '-'} then w + 1 else w
    ensures Negative(s) <==> w < |s| && s[w] == '-'
  {
    w := SpaceEnd(s, 0);
    BlanksEnd(s, 0);
  }

  /** A run ends in front of the first character that is no digit of the base. */
  lemma {:induction false} RunExactly(s: string, p: nat, b: nat)
    requires p <= |s|
    ensures var e := RunEnd(s, p, b);
      (forall i :: p <= i < e ==> DigitVal(s[i]) < b) && (e < |s| ==> DigitVal(s[e]) >= b)
    decreases |s| - p
  {
    if p < |s| && DigitVal(s[p]) < b {
      RunExactly(s, p + 1, b);
    }
  }

  /** Where the standard's digits begin: behind 0x or 0X if a hexadecimal digit follows and the base allows it. */
  lemma PrefixExactly(s: string, p: nat, base: int)
    requires p <= |s| && BaseOk(base)
    ensures var hex := p + 2 < |s| && s[p] == '0' && s[p + 1] in {'x', 'X'} && DigitVal(s[p + 2]) < 16;
      && StdStart(s, p, base) == (if hex && base in {0, 16} then p + 2 else p)
      && StdBase(s, p, base) == if base != 0 then base else if hex then 16 else if p < |s| && s[p] == '0' then 8 else 10
  {
    if p + 2 <= |s| {
      OctalDigit(At(s, p + 2));
    }
  }

  /** A zero with neither an octal digit nor an x behind it. */
  ghost predicate ZeroStops(s: string, p: nat) {
    p < |s| && s[p] == '0' && (p + 1 == |s| || s[p + 1] !in {'0', '1', '2', '3', '4', '5', '6', '7', 'x', 'X'})
  }

  lemma ZeroStopsIs(s: string, p: nat)
    requires p <= |s|
    ensures LoneZero(s, p) <==> ZeroStops(s, p)
  {
  }

  lemma NegExactly(x: nat)
    ensures Neg(x) < WORD && (Neg(x) + x) % WORD == 0
  {
    var q, r := x / WORD, x % WORD;
    assert x == q * WORD + r;
    if r == 0 {
      assert Neg(x) + x == q * WORD;
    } else {
      assert Neg(x) + x == (q + 1) * WORD;
    }
  }

  /** What the machine makes of the standard's digits up to k. */
  ghost function ReadTo(s: string, base: int, k: nat): nat
    requires BaseOk(base) && StdStart(s, NumStart(s), base) <= k <= |s|
  {
    var ns := NumStart(s);
    Value(s, StdStart(s, ns, base), k, StdBase(s, ns, base)) % WORD
  }

  /** The digits are read modulo 2^64 to their end, or, with a range error, to the first that makes that number drop. */
  ghost predicate ReadModulo(s: string, base: int, ret: nat, end: nat, err: Errno)
    requires BaseOk(base)
  {
    var p, e := StdStart(s, NumStart(s), base), StdEnd(s, base);
    || (&& err == Unset && end == e && ret < WORD
        && (if Negative(s) then ret + StdValue(s, base) else ret - StdValue(s, base)) % WORD == 0
        && forall j, k :: p <= j < k <= e && k == j + 1 ==> ReadTo(s, base, j) <= ReadTo(s, base, k))
    || (&& err == ERANGE && ret == UINTMAX_MAX && p <= end < e
        && ReadTo(s, base, end + 1) < ReadTo(s, base, end)
        && forall j, k :: p <= j < k <= end && k == j + 1 ==> ReadTo(s, base, j) <= ReadTo(s, base, k))
  }

  /** What is returned for every input. */
  lemma ReadExactly(s: string, base: int, ret: nat, end: nat, err: Errno)
    requires ParsesTo(s, base, ret, end, err)
    ensures var ns := NumStart(s);
      if base < 0 || base == 1 || base > 36 then ret == UINTMAX_MAX && end == 0 && err == EINVAL
      else if ZeroStops(s, ns) then ret == 0 && end == ns + 1 && err == Unset
      else if StdEnd(s, base) == ns then ret == UINTMAX_MAX && end == 0 && err == EINVAL
      else ReadModulo(s, base, ret, end, err)
  {
    var ns := NumStart(s);
    ZeroStopsIs(s, ns);
    if BaseOk(base) && !LoneZero(s, ns) {
      SameRun(s, base);
      if StdEnd(s, base) != ns {
        RunRead(s, base, ret, end, err);
      }
    }
  }

  /** Program and standard read the same up to any place in the run. */
  lemma SameReading(s: string, base: int, k: nat)
    requires BaseOk(base) && !LoneZero(s, NumStart(s))
    requires var ns := NumStart(s);
      var b, d := RealBase(s, ns, base), DigitStart(s, ns, base);
      d <= k <= RunEnd(s, d, b)
    ensures var ns := NumStart(s);
      var b, d := RealBase(s, ns, base), DigitStart(s, ns, base);
      StdStart(s, ns, base) <= k && ReadTo(s, base, k) == Wrapped(s, d, k, b)
  {
    var ns := NumStart(s);
    var b, d := RealBase(s, ns, base), DigitStart(s, ns, base);
    if OctalPrefix(s, ns) && b == 8 {
      LeadingZero(s, ns, 8, k);
    } else if StdBase(s, ns, base) != b {
      ZeroAlone(s, ns, b);
      ZeroAlone(s, ns, 8);
      assert Value(s, ns, ns, b) == 0 == Value(s, ns, ns, 8);
    }
  }

  lemma SameSteady(s: string, base: int, m: nat)
    requires BaseOk(base) && !LoneZero(s, NumStart(s))
    requires var ns := NumStart(s);
      var b, d := RealBase(s, ns, base), DigitStart(s, ns, base);
      d <= m <= RunEnd(s, d, b) && Steady(s, d, m, b)
    ensures var p := StdStart(s, NumStart(s), base);
      p <= m && forall j, k :: p <= j < k <= m && k == j + 1 ==> ReadTo(s, base, j) <= ReadTo(s, base, k)
  {
    var ns := NumStart(s);
    var b, d, p := RealBase(s, ns, base), DigitStart(s, ns, base), StdStart(s, ns, base);
    SameReading(s, base, m);
    forall j, k | p <= j < k <= m && k == j + 1 ensures ReadTo(s, base, j) <= ReadTo(s, base, k) {
      if j < d {
        assert ReadTo(s, base, p) == 0;
      } else {
        SameReading(s, base, j);
        SameReading(s, base, k);
        assert Wrapped(s, d, j, b) <= Wrapped(s, d, k, b);
      }
    }
  }

  lemma RunRead(s: string, base: int, ret: nat, end: nat, err: Errno)
    requires BaseOk(base) && ParsesTo(s, base, ret, end, err) && !LoneZero(s, NumStart(s))
    requires StdEnd(s, base) != NumStart(s)
    ensures ReadModulo(s, base, ret, end, err)
  {
    var ns := NumStart(s);
    var b, d := RealBase(s, ns, base), DigitStart(s, ns, base);
    var e := RunEnd(s, d, b);
    SameRun(s, base);
    NegExactly(Value(s, d, e, b));
    WrappedExactly(Value(s, d, e, b));
    SameSteady(s, base, if err == ERANGE then end else e);
    if err == ERANGE {
      SteadyStep(s, d, end, b);
      SameReading(s, base, end);
      SameReading(s, base, end + 1);
    }
  }

  lemma WrappedExactly(v: nat)
    ensures v % WORD < WORD && (v % WORD - v) % WORD == 0
  {
    var q, r := v / WORD, v % WORD;
    assert v % WORD - v == -q * WORD;
  }
}
