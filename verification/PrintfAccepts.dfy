/**
 Which directives the program carries out at all, told from the format alone, and what
 becomes of a zero flag, which it takes for the first digit of a width.
 */
module PrintfAccepts {
  import opened Bits
  import opened Digits
  import opened StrToUmax
  import opened PrintfModel
  import opened PrintfStandard

  // ---------------------------------------------------------------- numbers in a format

  /** A zero that reading stops behind although a digit follows. */
  ghost predicate BrokenZero(f: string, p: nat)
    requires p <= |f|
  {
    At(f, p) == '0' && At(f, p + 1) in {'8', '9'}
  }

  /** Where a width or a precision ends. */
  ghost function NumberEnd(f: string, p: nat): (e: nat)
    requires p <= |f|
    ensures p <= e <= |f|
  {
    if At(f, p) == '*' || BrokenZero(f, p) then p + 1 else RunEnd(f, p, 10)
  }

  /** Its digits are not found to overflow. */
  ghost predicate NumberOk(f: string, p: nat)
    requires p <= |f|
  {
    BrokenZero(f, p) || Steady(f, p, RunEnd(f, p, 10), 10)
  }

  lemma {:induction false} RunShift(f: string, p: nat, k: nat, b: nat)
    requires p + k <= |f|
    ensures RunEnd(f[p..], k, b) + p == RunEnd(f, p + k, b)
    decreases |f| - p - k
  {
    if p + k < |f| && DigitVal(f[p + k]) < b {
      RunShift(f, p, k + 1, b);
    }
  }

  lemma RunFrom(f: string, p: nat, b: nat)
    requires p <= |f|
    ensures RunEnd(f[p..], 0, b) == RunEnd(f, p, b) - p
  {
    RunShift(f, p, 0, b);
  }

  lemma WrappedShift(f: string, p: nat, e: nat, b: nat)
    requires p <= e <= |f|
    ensures Wrapped(f[p..], 0, e - p, b) == Wrapped(f, p, e, b)
  {
    ValueAgrees(f, f[p..], p, 0, e - p, b);
  }

  lemma SteadyShift(f: string, p: nat, e: nat, b: nat)
    requires p <= e <= |f|
    ensures Steady(f[p..], 0, e - p, b) <==> Steady(f, p, e, b)
  {
    var s := f[p..];
    forall k | p <= k <= e ensures Wrapped(s, 0, k - p, b) == Wrapped(f, p, k, b) {
      WrappedShift(f, p, k, b);
    }
    if Steady(s, 0, e - p, b) {
      forall j, k | p <= j < k <= e && k == j + 1 ensures Wrapped(f, p, j, b) <= Wrapped(f, p, k, b) {
        assert Wrapped(s, 0, j - p, b) <= Wrapped(s, 0, k - p, b);
      }
    }
    if Steady(f, p, e, b) {
      forall j, k | 0 <= j < k <= e - p && k == j + 1 ensures Wrapped(s, 0, j, b) <= Wrapped(s, 0, k, b) {
        assert Wrapped(f, p, p + j, b) <= Wrapped(f, p, p + k, b);
        assert (p + j) - p == j && (p + k) - p == k;
      }
    }
  }

  /** What reading makes of digits: a broken zero, the whole run, or an overflow. */
  ghost predicate ReadAs(f: string, p: nat, r: Reading)
    requires p <= |f|
  {
    var e := RunEnd(f, p, 10);
    if BrokenZero(f, p) then r == Reading(0, 1, Unset)
    else if Steady(f, p, e, 10) then r == Reading(Wrapped(f, p, e, 10), e - p, Unset)
    else r.err == ERANGE
  }

  lemma ReadingPlain(s: string)
    requires s != [] && IsDigit(s[0])
    ensures ReadAs(s, 0, ReadingOf(s, 10))
  {
    StartsPlain(s);
    assert RunEnd(s, 0, 10) == RunEnd(s, 1, 10);
    if LoneZero(s, 0) && !BrokenZero(s, 0) {
      ZeroRun(s, 0);
    }
  }

  lemma ReadingMoves(f: string, p: nat, s: string, r: Reading)
    requires p < |f| && s == f[p..] && ReadAs(s, 0, r)
    ensures ReadAs(f, p, r)
  {
    assert s[0] == f[p] && (p + 1 < |f| ==> s[1] == f[p + 1]);
    RunFrom(f, p, 10);
    SteadyShift(f, p, RunEnd(f, p, 10), 10);
    WrappedShift(f, p, RunEnd(f, p, 10), 10);
  }

  lemma ReadingAt(f: string, p: nat)
    requires p < |f| && IsDigit(f[p])
    ensures ReadAs(f, p, ReadingOf(f[p..], 10))
  {
    ReadingPlain(f[p..]);
    ReadingMoves(f, p, f[p..], ReadingOf(f[p..], 10));
  }

  /** A zero without further digits. */
  lemma ZeroRun(f: string, p: nat)
    requires p < |f| && f[p] == '0' && !IsDigit(At(f, p + 1))
    ensures RunEnd(f, p, 10) == p + 1 && Wrapped(f, p, p + 1, 10) == 0 && Steady(f, p, p + 1, 10)
  {
    assert RunEnd(f, p + 1, 10) == p + 1;
    assert Value(f, p, p, 10) == 0;
    SmallMod(0, WORD);
  }

  // ---------------------------------------------------------------- acceptance

  ghost predicate ConversionOk(f: string, p: nat)
    requires p <= |f|
  {
    var (len, q) := LengthOf(f, p);
    var c := At(f, q);
    || c in {'%', 'd', 'i', 'p'}
    || (c in {'o', 'u', 'x', 'X'} && len != Ptrdiff)
    || (c in {'c', 's'} && TextLength(len))
  }

  /** What may follow a width. */
  ghost predicate RestOk(f: string, p: nat)
    requires p <= |f|
  {
    if At(f, p) == '.' then NumberOk(f, p + 1) && ConversionOk(f, NumberEnd(f, p + 1)) else ConversionOk(f, p)
  }

  /** No flag twice, and numbers, length and conversion the program knows. */
  ghost predicate Accepted(f: string, p: nat)
    requires p <= |f|
  {
    var q := FlagsEnd(f, p);
    NoneTwice(f, p, q) && NumberOk(f, q) && RestOk(f, NumberEnd(f, q))
  }

  ghost predicate CanSucceed(f: string, p: nat)
    requires p <= |f|
  {
    exists args: seq<Arg> :: Directive(f, p, args, 0).Piece?
  }

  /** A field of the format is read up to its end, or else is no field for any arguments. */
  lemma FieldEnds(f: string, p: nat, args: seq<Arg>, a: nat)
    requires p <= |f|
    ensures var r := NumberField(f, p, args, a);
      && (r.Field? ==> NumberOk(f, p) && r.end == NumberEnd(f, p))
      && (At(f, p) != '*' && NumberOk(f, p) ==> r.Field? && r.next == a)
  {
    if At(f, p) != '*' {
      if IsDigit(At(f, p)) {
        ReadingAt(f, p);
      } else {
        assert RunEnd(f, p, 10) == p;
      }
    } else {
      assert RunEnd(f, p, 10) == p;
    }
  }

  lemma RestFaults(f: string, p: nat, fl: Flags, width: int, args: seq<Arg>, a: nat)
    requires p <= |f| && INT_MIN <= width <= INT_MAX && Precise(f, p, fl, width, args, a).Piece?
    ensures RestOk(f, p)
  {
    if At(f, p) == '.' {
      FieldEnds(f, p + 1, args, a);
    }
  }

  /** An argument that a conversion carries out whatever the flags, and whatever precision up to prec. */
  ghost function Witness(c: char, prec: int): Arg {
    if c == 's' then Str(seq(if prec < 0 then 0 else prec, _ => 'a')) else Num(0)
  }

  /** Whatever the precision, some argument is converted. */
  lemma ConversionWorks(f: string, p: nat, fl: Flags, width: int, prec: int, args: seq<Arg>, a: nat)
    requires p <= |f| && INT_MIN <= width <= INT_MAX && ConversionOk(f, p)
    requires a < |args| && args[a] == Witness(At(f, LengthOf(f, p).1), prec)
    ensures Conversion(f, p, fl, width, prec, args, a).Piece?
  {
  }

  /** Arguments from a on that carry a directive's rest through. */
  lemma RestWorks(f: string, p: nat, fl: Flags, width: int, init: seq<Arg>) returns (more: seq<Arg>)
    requires p <= |f| && INT_MIN <= width <= INT_MAX && RestOk(f, p)
    ensures Precise(f, p, fl, width, init + more, |init|).Piece?
  {
    var a := |init|;
    if At(f, p) != '.' {
      var x := Witness(At(f, LengthOf(f, p).1), -1);
      more := [x];
      ConversionWorks(f, p, fl, width, -1, init + more, a);
    } else {
      var q := NumberEnd(f, p + 1);
      var c := At(f, LengthOf(f, q).1);
      if At(f, p + 1) == '*' {
        more := [Num(0), Witness(c, 0)];
        ConversionWorks(f, q, fl, width, 0, init + more, a + 1);
      } else {
        FieldEnds(f, p + 1, init, a);
        var prec := NumberField(f, p + 1, init, a).value;
        more := [Witness(c, prec)];
        FieldSame(f, p + 1, init, init + more, a);
        ConversionWorks(f, q, fl, width, prec, init + more, a);
      }
    }
  }

  lemma FieldSame(f: string, p: nat, args: seq<Arg>, args': seq<Arg>, a: nat)
    requires p <= |f| && At(f, p) != '*'
    ensures NumberField(f, p, args, a) == NumberField(f, p, args', a)
  {
  }

  /** Some arguments carry a directive through exactly if its format is accepted. */
  lemma AcceptedExactly(f: string, p: nat)
    requires p <= |f|
    ensures CanSucceed(f, p) <==> Accepted(f, p)
  {
    var q := FlagsEnd(f, p);
    if CanSucceed(f, p) {
      var args: seq<Arg> :| Directive(f, p, args, 0).Piece?;
      AcceptedIfDone(f, p, args, 0);
    }
    if Accepted(f, p) {
      var args := Carrying(f, p);
      assert Directive(f, p, args, 0).Piece?;
    }
  }

  lemma AcceptedIfDone(f: string, p: nat, args: seq<Arg>, a: nat)
    requires p <= |f| && Directive(f, p, args, a).Piece?
    ensures Accepted(f, p)
  {
    var q := FlagsEnd(f, p);
    FieldEnds(f, q, args, a);
    var r := NumberField(f, q, args, a);
    var fl := FlagsOf(f, p, q);
    RestFaults(f, r.end, fl.(left := fl.left || (At(f, q) == '*' && r.value < 0)), Width(f, q, r.value), args, r.next);
  }

  lemma Carrying(f: string, p: nat) returns (args: seq<Arg>)
    requires p <= |f| && Accepted(f, p)
    ensures Directive(f, p, args, 0).Piece?
  {
    var q := FlagsEnd(f, p);
    var fl, e := FlagsOf(f, p, q), NumberEnd(f, q);
    if At(f, q) == '*' {
      var more := RestWorks(f, e, fl, 0, [Num(0)]);
      args := [Num(0)] + more;
      assert fl.(left := fl.left || false) == fl;
    } else {
      FieldEnds(f, q, [], 0);
      var w := NumberField(f, q, [], 0).value;
      var more := RestWorks(f, e, fl, w, []);
      args := [] + more;
      FieldSame(f, q, [], args, 0);
      assert fl.(left := fl.left || false) == fl;
    }
  }

  // ---------------------------------------------------------------- the zero flag

  predicate IsStdFlag(c: char) {
    c in {'#', '0', '-', ' ', '+'}
  }

  /** The standard's flags include the zero. */
  ghost function StdFlagsEnd(f: string, p: nat): (e: nat)
    requires p <= |f|
    ensures p <= e <= |f| && (e < |f| ==> !IsStdFlag(f[e])) && forall i :: p <= i < e ==> IsStdFlag(f[i])
    decreases |f| - p
  {
    if p < |f| && IsStdFlag(f[p]) then StdFlagsEnd(f, p + 1) else p
  }

  /** The first zero ends the program's flags, and the standard's go on from there. */
  lemma {:induction false} FlagsSplit(f: string, p: nat)
    requires p <= |f|
    ensures FlagsEnd(f, p) <= StdFlagsEnd(f, p) == StdFlagsEnd(f, FlagsEnd(f, p))
    decreases |f| - p
  {
    if p < |f| && IsFlag(f[p]) {
      FlagsSplit(f, p + 1);
    }
  }

  /** Zeros from q to g and digits from there on are one run. */
  lemma {:induction false} RunJoins(f: string, q: nat, g: nat)
    requires q <= g <= |f| && forall i :: q <= i < g ==> IsDigit(f[i])
    ensures RunEnd(f, q, 10) == RunEnd(f, g, 10)
    decreases g - q
  {
    if q < g {
      RunJoins(f, q + 1, g);
    }
  }

  lemma {:induction false} RunStops(f: string, q: nat, g: nat)
    requires q <= g <= |f| && exists i :: q <= i < g && !IsDigit(f[i])
    ensures var e := RunEnd(f, q, 10); e < g && !IsDigit(f[e])
    decreases g - q
  {
    if IsDigit(f[q]) {
      RunStops(f, q + 1, g);
    }
  }

  /** Nothing but zeros stands between the first zero and the width, which is not an argument. */
  ghost predicate OnlyZeros(f: string, q: nat, g: nat)
    requires q <= g <= |f|
  {
    (forall i :: q <= i < g ==> f[i] == '0') && At(f, g) != '*'
  }

  lemma ConversionNeedsLetter(f: string, p: nat)
    requires p <= |f| && (IsDigit(At(f, p)) || IsFlag(At(f, p)) || At(f, p) == '*')
    ensures !RestOk(f, p)
  {
  }

  /** A directive with a zero flag is carried out exactly if no flag comes twice, no other flag and no star follows
      the zero, the digit behind it is not eight or nine, the digits are not found to overflow, and the rest is accepted. */
  lemma ZeroFlagExactly(f: string, p: nat)
    requires p <= |f| && At(f, FlagsEnd(f, p)) == '0'
    ensures var q, g := FlagsEnd(f, p), StdFlagsEnd(f, p);
      var h := RunEnd(f, g, 10);
      q < g && (CanSucceed(f, p) <==>
        NoneTwice(f, p, q) && OnlyZeros(f, q, g) && At(f, q + 1) !in {'8', '9'} && Steady(f, q, h, 10) && RestOk(f, h))
  {
    var q, g := FlagsEnd(f, p), StdFlagsEnd(f, p);
    FlagsSplit(f, p);
    AcceptedExactly(f, p);
    if !OnlyZeros(f, q, g) {
      ZeroThenMore(f, q, g);
      ConversionNeedsLetter(f, NumberEnd(f, q));
    } else {
      RunJoins(f, q, g);
      if BrokenZero(f, q) {
        ConversionNeedsLetter(f, q + 1);
      }
    }
  }

  /** A zero flag that does not fail is the first digit of a width, and is nothing else. */
  lemma ZeroFlagIsWidth(f: string, p: nat, args: seq<Arg>, a: nat)
    requires p <= |f| && At(f, FlagsEnd(f, p)) == '0' && CanSucceed(f, p)
    ensures var q := FlagsEnd(f, p);
      var h := RunEnd(f, StdFlagsEnd(f, p), 10);
      Directive(f, p, args, a) == Precise(f, h, FlagsOf(f, p, q), ToInt(Wrapped(f, q, h, 10)), args, a)
  {
    var q, h := FlagsEnd(f, p), RunEnd(f, StdFlagsEnd(f, p), 10);
    AcceptedExactly(f, p);
    ZeroFlagRuns(f, p);
    DigitsRead(f, q, h, args, a);
    PlainWidth(f, p, args, a);
    var r := NumberField(f, q, args, a);
    assert r == Field(ToInt(Wrapped(f, q, h, 10)), h, a);
  }

  lemma ZeroFlagRuns(f: string, p: nat)
    requires p <= |f| && At(f, FlagsEnd(f, p)) == '0' && Accepted(f, p)
    ensures var q := FlagsEnd(f, p);
      var h := RunEnd(f, StdFlagsEnd(f, p), 10);
      NoneTwice(f, p, q) && !BrokenZero(f, q) && h == RunEnd(f, q, 10) && Steady(f, q, h, 10)
  {
    var q, g := FlagsEnd(f, p), StdFlagsEnd(f, p);
    FlagsSplit(f, p);
    ZerosOrMore(f, q, g);
    LetterNeeded(f, NumberEnd(f, q));
    RunJoins(f, q, g);
  }

  lemma LetterNeeded(f: string, p: nat)
    requires p <= |f|
    ensures IsDigit(At(f, p)) || IsFlag(At(f, p)) || At(f, p) == '*' ==> !RestOk(f, p)
  {
  }

  lemma ZerosOrMore(f: string, q: nat, g: nat)
    requires q < g <= |f| && At(f, q) == '0' && forall i :: q <= i < g ==> IsStdFlag(f[i])
    ensures var e := NumberEnd(f, q); OnlyZeros(f, q, g) || IsDigit(At(f, e)) || IsFlag(At(f, e)) || At(f, e) == '*'
  {
    if !OnlyZeros(f, q, g) {
      ZeroThenMore(f, q, g);
    }
  }

  lemma DigitsRead(f: string, q: nat, h: nat, args: seq<Arg>, a: nat)
    requires q < |f| && IsDigit(f[q]) && !BrokenZero(f, q) && h == RunEnd(f, q, 10) && Steady(f, q, h, 10)
    ensures NumberField(f, q, args, a) == Field(ToInt(Wrapped(f, q, h, 10)), h, a)
  {
    ReadingAt(f, q);
  }

  /** A width in digits goes on with the rest of the directive. */
  lemma PlainWidth(f: string, p: nat, args: seq<Arg>, a: nat)
    requires p <= |f| && NoneTwice(f, p, FlagsEnd(f, p)) && At(f, FlagsEnd(f, p)) != '*'
    ensures var q := FlagsEnd(f, p);
      var r := NumberField(f, q, args, a);
      r.Field? ==> Directive(f, p, args, a) == Precise(f, r.end, FlagsOf(f, p, q), r.value, args, r.next)
  {
    var fl := FlagsOf(f, p, FlagsEnd(f, p));
    assert fl.(left := fl.left || false) == fl;
  }

  /** Another flag or a star behind the zero is where the program's width ends. */
  lemma ZeroThenMore(f: string, q: nat, g: nat)
    requires q < g <= |f| && At(f, q) == '0' && !OnlyZeros(f, q, g)
    requires forall i :: q <= i < g ==> IsStdFlag(f[i])
    ensures var e := NumberEnd(f, q); IsDigit(At(f, e)) || IsFlag(At(f, e)) || At(f, e) == '*'
  {
    if !BrokenZero(f, q) {
      if exists i :: q <= i < g && f[i] != '0' {
        var i :| q <= i < g && f[i] != '0';
        assert !IsDigit(f[i]);
        RunStops(f, q, g);
      } else {
        RunJoins(f, q, g);
        assert RunEnd(f, g, 10) == g;
      }
    }
  }

  /** Where the standard fills up with zeros, the program does so with blanks. */
  lemma ZeroFlagPads()
    ensures Render("%05d", 0, [Num(3)], 0) == Output("    3")
    ensures StdDecimal(3, Flags(false, false, false, false), true, 5, -1) == "00003"
  {
    FiveRendered("%05d");
    FiveStandard();
  }

  lemma FiveStandard()
    ensures StdDecimal(3, Flags(false, false, false, false), true, 5, -1) == "00003"
  {
    assert Text(3, 10, false) == "3";
    assert Zeros(2) == "00" && Zeros(4) == "00" + Zeros(2);
  }

  lemma FiveRendered(f: string)
    requires f == "%05d"
    ensures Render(f, 0, [Num(3)], 0) == Output("    3")
  {
    FiveWide(f);
    BlanksFour();
    assert Render(f, 4, [Num(3)], 1) == Output("");
  }

  lemma BlanksFour()
    ensures Padded("3", 5, false) == "    3"
  {
    assert Blanks(2) == "  " && Blanks(4) == Blanks(2) + "  ";
  }

  lemma FiveWide(f: string)
    requires f == "%05d"
    ensures Directive(f, 1, [Num(3)], 0) == Piece(Padded("3", 5, false), 4, 1)
  {
    var none := Flags(false, false, false, false);
    assert FlagsEnd(f, 1) == 1 && FlagsOf(f, 1, 1) == none;
    RunDigits(f, 1, 10, 3);
    assert Value(f, 1, 1, 10) == 0;
    assert Value(f, 1, 2, 10) == 0;
    assert Value(f, 1, 3, 10) == 5;
    SmallIsSteady(f, 1, 3, 10);
    ReadingAt(f, 1);
    assert Text(3, 10, false) == "3";
  }
}
