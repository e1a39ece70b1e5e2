/**
 What section 7.20.1.4 of ISO/IEC 9899:1999 asks of the function, by way of section 7.8.2.3,
 and exactly when the program does it.
 */
module StrToUmaxStandard {
  import opened Bits
  import opened Digits
  import opened StrToUmax

  /** Base zero is settled by the form of an integer constant: any leading zero but a hexadecimal prefix means octal. */
  ghost function StdBase(s: string, p: nat, base: int): (b: nat)
    requires p <= |s| && BaseOk(base)
    ensures 2 <= b <= 36
  {
    if base != 0 then base
    else if HexPrefix(s, p) then 16
    else if At(s, p) == '0' then 8
    else 10
  }

  ghost function StdStart(s: string, p: nat, base: int): (d: nat)
    requires p <= |s| && BaseOk(base)
    ensures p <= d <= |s|
  {
    if HexPrefix(s, p) && StdBase(s, p, base) == 16 then p + 2 else p
  }

  ghost function StdEnd(s: string, base: int): (e: nat)
    requires BaseOk(base)
    ensures StdStart(s, NumStart(s), base) <= e <= |s|
  {
    var ns := NumStart(s);
    RunEnd(s, StdStart(s, ns, base), StdBase(s, ns, base))
  }

  /** The number that the longest run of digits stands for. */
  ghost function StdValue(s: string, base: int): nat
    requires BaseOk(base)
  {
    var ns := NumStart(s);
    Value(s, StdStart(s, ns, base), StdEnd(s, base), StdBase(s, ns, base))
  }

  /** The longest run of digits is read, whatever it stands for. Its value is returned if it is a
      uintmax_t, else the largest one with a range error; without digits nothing is read, and the result is zero. */
  ghost predicate Promised(s: string, base: int, ret: nat, end: nat, err: Errno)
    requires BaseOk(base)
  {
    var e, v := StdEnd(s, base), StdValue(s, base);
    if e == NumStart(s) then ret == 0 && end == 0 && err != ERANGE
    else
      && end == e
      && if v >= WORD then ret == UINTMAX_MAX && err == ERANGE
         else err == Unset && ret == if Negative(s) then Neg(v) else v
  }

  /** Zeros in front change neither the run of digits nor its value. */
  lemma {:induction false} LeadingZero(s: string, p: nat, b: nat, hi: nat)
    requires p < hi <= |s| && s[p] == '0'
    ensures Value(s, p, hi, b) == Value(s, p + 1, hi, b)
    decreases hi
  {
    if hi == p + 1 {
      assert Value(s, p, p, b) == 0;
    } else {
      LeadingZero(s, p, b, hi - 1);
    }
  }

  /** Unless reading stops at a lone zero, program and standard agree on base, run and value. */
  lemma SameRun(s: string, base: int)
    requires BaseOk(base) && !LoneZero(s, NumStart(s))
    ensures var ns := NumStart(s);
      var b, d := RealBase(s, ns, base), DigitStart(s, ns, base);
      RunEnd(s, d, b) == StdEnd(s, base) && Value(s, d, RunEnd(s, d, b), b) == StdValue(s, base)
  {
    var ns := NumStart(s);
    var b, d := RealBase(s, ns, base), DigitStart(s, ns, base);
    if OctalPrefix(s, ns) && b == 8 {
      LeadingZero(s, ns, 8, RunEnd(s, d, 8));
    } else if StdBase(s, ns, base) != b {
      ZeroAlone(s, ns, b);
      ZeroAlone(s, ns, 8);
    }
  }

  /** A zero with no digit behind it stands for zero in every base. */
  lemma ZeroAlone(s: string, p: nat, b: nat)
    requires p <= |s| && At(s, p) == '0' && DigitVal(At(s, p + 1)) >= b > 0
    ensures RunEnd(s, p, b) == p + 1 && Value(s, p, p + 1, b) == 0
  {
    assert RunEnd(s, p + 1, b) == p + 1;
    assert Value(s, p, p, b) == 0;
  }

  /** The program does what the standard asks exactly if there are digits, they stand for less than 2^64,
      and a lone zero in front is all there is of them. */
  lemma PromiseKeptExactly(s: string, base: int, ret: nat, end: nat, err: Errno)
    requires BaseOk(base) && ParsesTo(s, base, ret, end, err)
    ensures var ns := NumStart(s);
      Promised(s, base, ret, end, err) <==>
        && StdEnd(s, base) > ns && StdValue(s, base) < WORD
        && (LoneZero(s, ns) ==> DigitVal(At(s, ns + 1)) >= StdBase(s, ns, base))
  {
    var ns := NumStart(s);
    if LoneZero(s, ns) {
      LoneZeroRead(s, base);
    } else {
      SameRun(s, base);
      var b, d := RealBase(s, ns, base), DigitStart(s, ns, base);
      OverflowReportedExactly(s, base, ret, end, err);
      if StdValue(s, base) < WORD {
        SmallIsSteady(s, d, RunEnd(s, d, b), b);
      }
    }
  }

  /** The standard reads more than a lone zero exactly if a digit of its base follows. */
  lemma LoneZeroRead(s: string, base: int)
    requires BaseOk(base) && LoneZero(s, NumStart(s))
    ensures var ns := NumStart(s);
      && StdEnd(s, base) > ns && Neg(0) == 0
      && if DigitVal(At(s, ns + 1)) >= StdBase(s, ns, base)
         then StdEnd(s, base) == ns + 1 && StdValue(s, base) == 0 else StdEnd(s, base) > ns + 1
  {
    var ns := NumStart(s);
    var b := StdBase(s, ns, base);
    if DigitVal(At(s, ns + 1)) >= b {
      ZeroAlone(s, ns, b);
    } else {
      assert RunEnd(s, ns, b) == RunEnd(s, ns + 1, b) == RunEnd(s, ns + 2, b);
    }
  }

  /** In base zero the program's lone zeros are all there is of an octal number. */
  lemma BaseZeroKept(s: string, ret: nat, end: nat, err: Errno)
    requires ParsesTo(s, 0, ret, end, err)
    ensures Promised(s, 0, ret, end, err) <==> StdEnd(s, 0) > NumStart(s) && StdValue(s, 0) < WORD
  {
    PromiseKeptExactly(s, 0, ret, end, err);
    var ns := NumStart(s);
    if LoneZero(s, ns) {
      assert StdBase(s, ns, 0) == 8;
    }
  }

  lemma ValueTimesTen(s: string, n: nat, v: nat)
    requires n < |s| && s[n] == '0' && Value(s, 0, n, 10) == v
    ensures Value(s, 0, n + 1, 10) == v * 10
  {
  }

  ghost predicate ThreeAndZeros(s: string) {
    |s| == 20 && s[0] == '3' && forall i :: 1 <= i < 20 ==> s[i] == '0'
  }

  /** An overflow that goes unnoticed: three times ten to the nineteenth, read in base ten. */
  lemma OverflowMissed(s: string, ret: nat, end: nat, err: Errno)
    requires s == ['3'] + seq(19, _ => '0') && ParsesTo(s, 10, ret, end, err)
    ensures ret == 30000000000000000000 - WORD && end == 20 && err == Unset
    ensures !Promised(s, 10, ret, end, err)
  {
    PowersOfTen(s);
    StartsPlain(s);
    RunDigits(s, 0, 10, 20);
    SmallIsSteady(s, 0, 19, 10);
    SteadyStep(s, 0, 19, 10);
  }

  lemma PowersOfTen(s: string)
    requires ThreeAndZeros(s)
    ensures Value(s, 0, 19, 10) == 3000000000000000000
    ensures Value(s, 0, 20, 10) == 30000000000000000000
  {
    TenPowers();
    TenToThe(s, 18);
    TenToThe(s, 19);
  }

  ghost function Tens(n: nat): nat {
    if n == 0 then 1 else 10 * Tens(n - 1)
  }

  lemma TenPowers()
    ensures Tens(18) == 1000000000000000000 && Tens(19) == 10 * Tens(18) && Tens(20) == 10 * Tens(19)
  {
    assert Tens(3) == 1000;
    assert Tens(6) == 1000000;
    assert Tens(9) == 1000000000;
    assert Tens(12) == 1000000000000;
    assert Tens(15) == 1000000000000000;
  }

  lemma {:induction false} TenToThe(s: string, n: nat)
    requires |s| > n && s[0] == '3' && forall i :: 1 <= i < |s| ==> s[i] == '0'
    ensures Value(s, 0, n + 1, 10) == 3 * Tens(n)
  {
    if n == 0 {
      assert Value(s, 0, 0, 10) == 0;
    } else {
      TenToThe(s, n - 1);
      ValueTimesTen(s, n, 3 * Tens(n - 1));
    }
  }

  lemma {:induction false} NinesValue(s: string, n: nat)
    requires n <= |s| && forall i :: 0 <= i < |s| ==> s[i] == '9'
    ensures Value(s, 0, n, 10) == Tens(n) - 1
  {
    if n > 0 {
      NinesValue(s, n - 1);
    }
  }

  /** A reported overflow leaves digits unread: the last of twenty nines. */
  lemma OverflowStopsShort(s: string, ret: nat, end: nat, err: Errno)
    requires s == seq(20, _ => '9') && ParsesTo(s, 10, ret, end, err)
    ensures ret == UINTMAX_MAX && end == 19 && err == ERANGE && !Promised(s, 10, ret, end, err)
  {
    TenPowers();
    NinesValue(s, 19);
    NinesValue(s, 20);
    StartsPlain(s);
    RunDigits(s, 0, 10, 20);
    SmallIsSteady(s, 0, 19, 10);
    SteadyStep(s, 0, 19, 10);
  }

  /** Reading stops early: the second digit of 08 is left unread in base ten. */
  lemma LoneZeroStops(ret: nat, end: nat, err: Errno)
    requires ParsesTo("08", 10, ret, end, err)
    ensures ret == 0 && end == 1 && err == Unset && !Promised("08", 10, ret, end, err)
  {
    assert SpaceEnd("08", 0) == 0;
    PromiseKeptExactly("08", 10, ret, end, err);
  }

  /** Without digits the result is the largest uintmax_t, not zero. */
  lemma NothingRead(ret: nat, end: nat, err: Errno)
    requires ParsesTo("", 10, ret, end, err)
    ensures ret == UINTMAX_MAX && end == 0 && !Promised("", 10, ret, end, err)
  {
  }
}
