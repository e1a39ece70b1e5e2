/**
 A directive as section 7.19.6.1 of ISO/IEC 9899:1999 reads it, and exactly which of the
 directives the program carries out it carries out as asked.
 */
module PrintfExactly {
  import opened AddressSpace
  import opened Bits
  import opened Digits
  import opened StrToUmax
  import opened PrintfModel
  import opened PrintfStandard
  import opened PrintfAccepts
  import opened StrToUmaxStandard

  // ---------------------------------------------------------------- what the format spells

  datatype Precision = NoPrecision | BarePeriod | InDigits(value: nat) | Argument(x: int)

  /** Flags, width and precision of a directive, the place of its length modifier, and the next argument. */
  datatype Spec =
    | Spec(fl: Flags, zero: bool, width: nat, prec: Precision, end: nat, next: nat)
    | NoSpec

  /** A precision of -1 is none: a negative argument counts as none, and a period on its own as zero. */
  ghost function StdPrecision(prec: Precision): (r: int)
    ensures r >= -1
  {
    match prec
    case NoPrecision => -1
    case BarePeriod => 0
    case InDigits(v) => v
    case Argument(x) => if x < 0 then -1 else x
  }

  /** An argument for a star is an int. */
  ghost function StdStar(p: nat, args: seq<Arg>, a: nat): Field {
    if a < |args| && args[a].Num? && -0x8000_0000 <= args[a].x <= 0x7FFF_FFFF then Field(args[a].x, p + 1, a + 1)
    else NoField
  }

  /** A flag may come more than once. */
  ghost function StdFlags(spelled: string): Flags {
    Flags(alt := '#' in spelled, left := '-' in spelled, space := ' ' in spelled, plus := '+' in spelled)
  }

  ghost function PrecisionAt(f: string, p: nat, args: seq<Arg>, a: nat, fl: Flags, zero: bool, width: nat): (r: Spec)
    requires p <= |f|
    ensures r.Spec? ==> p <= r.end <= |f| && r.next >= a
  {
    if At(f, p) != '.' then Spec(fl, zero, width, NoPrecision, p, a)
    else if At(f, p + 1) == '*' then
      match StdStar(p + 1, args, a)
      case NoField => NoSpec
      case Field(x, e, b) => Spec(fl, zero, width, Argument(x), e, b)
    else
      var e := RunEnd(f, p + 1, 10);
      Spec(fl, zero, width, if e == p + 1 then BarePeriod else InDigits(Value(f, p + 1, e, 10)), e, a)
  }

  /** All flags in front, then the width as it stands or as an argument whose sign is a flag, then the precision. */
  ghost function SpecAt(f: string, p: nat, args: seq<Arg>, a: nat): (r: Spec)
    requires p <= |f|
    ensures r.Spec? ==> p <= r.end <= |f| && r.next >= a
  {
    var g := StdFlagsEnd(f, p);
    var fl, zero := StdFlags(f[p..g]), '0' in f[p..g];
    if At(f, g) == '*' then
      match StdStar(g, args, a)
      case NoField => NoSpec
      case Field(w, e, b) =>
        PrecisionAt(f, e, args, b, fl.(left := fl.left || w < 0), zero, if w < 0 then -w else w)
    else
      var e := RunEnd(f, g, 10);
      PrecisionAt(f, e, args, a, fl, zero, Value(f, g, e, 10))
  }

  // ---------------------------------------------------------------- what the standard asks for

  /** The text asked for, or none where the standard leaves the behaviour undefined or to the implementation. */
  datatype Answer = Asked(text: string) | Open

  /** The signed and the unsigned numbers of a length. */
  ghost predicate SignedType(len: Length, x: int) {
    if len == Plain then -0x8000_0000 <= x < 0x8000_0000
    else -0x8000_0000_0000_0000 <= x < 0x8000_0000_0000_0000
  }

  ghost predicate UnsignedType(len: Length, x: int) {
    0 <= x < if len == Plain then 0x1_0000_0000 else 0x1_0000_0000_0000_0000
  }

  ghost function Magnitude(x: int): nat {
    if x < 0 then -x else x
  }

  /** The field of one argument. The alternate form is for o and x, the zero flag for numbers, and the
      precision for numbers and strings; wide characters and pointers are the implementation's. */
  ghost function StdText(c: char, len: Length, sp: Spec, arg: Arg): Answer
    requires sp.Spec?
  {
    var fl, P := sp.fl, StdPrecision(sp.prec);
    if c in {'d', 'i'} && arg.Num? && SignedType(len, arg.x) && !fl.alt then
      Asked(StdDecimal(arg.x, fl, sp.zero, sp.width, P))
    else if c == 'u' && arg.Num? && UnsignedType(len, arg.x) && !fl.alt then
      Asked(StdUnsigned(arg.x, fl, sp.zero, sp.width, P))
    else if c == 'o' && arg.Num? && UnsignedType(len, arg.x) then
      Asked(StdOctal(arg.x, fl, sp.zero, sp.width, P))
    else if c in {'x', 'X'} && arg.Num? && UnsignedType(len, arg.x) then
      Asked(StdHex(arg.x, fl, c == 'X', sp.zero, sp.width, P))
    else if c == 'c' && arg.Num? && SignedType(len, arg.x) && len == Plain && !fl.alt && !sp.zero && P < 0 then
      Asked(Fill([(arg.x % 256) as char], sp.width, fl.left))
    else if c == 's' && arg.Str? && len == Plain && !fl.alt && !sp.zero then
      Asked(Fill(StdString(arg.s, P), sp.width, fl.left))
    else Open
  }

  datatype StdPiece = StdPiece(text: string, end: nat, next: nat) | NoStdPiece

  /** The directive behind a percent sign; a percent sign in its turn is the whole of its directive,
      and a q is no length of the standard's. */
  ghost function StdDirective(f: string, p: nat, args: seq<Arg>, a: nat): (r: StdPiece)
    requires p <= |f|
    ensures r.StdPiece? ==> p < r.end <= |f| && r.next >= a
  {
    var sp := SpecAt(f, p, args, a);
    if At(f, p) == '%' then StdPiece("%", p + 1, a)
    else if sp.NoSpec? || At(f, sp.end) == 'q' || sp.next >= |args| then NoStdPiece
    else
      var (len, q) := LengthOf(f, sp.end);
      match StdText(At(f, q), len, sp, args[sp.next])
      case Open => NoStdPiece
      case Asked(t) => StdPiece(t, q + 1, sp.next + 1)
  }

  // ---------------------------------------------------------------- what the program makes of it

  /** The width the program fills up to for one the format spells. */
  ghost function ReadWidth(width: nat): nat {
    FillWidth(ToInt(width))
  }

  /** The program's width is the format's up to the largest int, and for the few widths that
      the conversion to int and back happens to keep. */
  lemma ReadWidthExactly(width: nat)
    ensures ReadWidth(width) == width <==> width <= INT_MAX || WORD - 0x8000_0000 <= width < WORD - 1
  {
  }

  /** The program's precision: a period on its own is none. */
  ghost function ReadPrecision(prec: Precision): (r: int)
    requires prec.Argument? ==> INT_MIN <= prec.x <= INT_MAX
    ensures INT_MIN <= r <= INT_MAX
  {
    match prec
    case NoPrecision => -1
    case BarePeriod => -1
    case InDigits(v) => ToInt(v)
    case Argument(x) => x
  }

  /** The part of a string that a precision leaves. */
  ghost function Shown(s: string, prec: int): (n: nat)
    ensures n <= |s|
  {
    if prec < 0 || |s| <= prec then |s| else prec
  }

  /** The number's text, filled up to the width read, has the digits and the length asked for,
      and no zeros to be filled in. */
  ghost predicate NumberAsAsked(sp: Spec, t: string, enough: bool)
    requires sp.Spec?
  {
    && enough && SameFill(|t|, ReadWidth(sp.width), sp.width)
    && ZeroIdle(|t|, sp.zero, sp.fl.left, sp.width, StdPrecision(sp.prec))
  }

  ghost predicate SpecOk(sp: Spec) {
    sp.Spec? && (sp.prec.Argument? ==> INT_MIN <= sp.prec.x <= INT_MAX)
  }

  /** What the format and the argument must be for the program's field to be the standard's. */
  ghost predicate AsAsked(c: char, sp: Spec, arg: Arg)
    requires SpecOk(sp)
  {
    var fl, P := sp.fl, StdPrecision(sp.prec);
    if arg.Str? then
      var i, j := Shown(arg.s, ReadPrecision(sp.prec)), Shown(arg.s, P);
      Max(i, ReadWidth(sp.width)) == Max(j, sp.width) && (i == j || Hidden(arg.s, i, j, fl.left))
    else if c in {'d', 'i'} then
      NumberAsAsked(sp, DecimalText(arg.x, SignOf(fl)), EnoughDigits(Magnitude(arg.x), 10, P))
    else if c == 'c' then
      SameFill(1, ReadWidth(sp.width), sp.width)
    else
      UnsignedAsAsked(c, sp, Magnitude(arg.x))
  }

  ghost predicate UnsignedAsAsked(c: char, sp: Spec, x: nat)
    requires SpecOk(sp)
  {
    var alt, P := sp.fl.alt, StdPrecision(sp.prec);
    if c == 'u' then
      NumberAsAsked(sp, Text(x, 10, false), EnoughDigits(x, 10, P))
    else if c == 'o' then
      var t := OctalText(x, alt);
      NumberAsAsked(sp, t, if alt then P <= |t| else EnoughDigits(x, 8, P))
    else
      NumberAsAsked(sp, HexText(x, alt, c == 'X'), EnoughDigits(x, 16, P) && !(alt && x == 0))
  }

  /** One argument's field is the standard's exactly if it is as asked. */
  lemma ConversionExactly(c: char, len: Length, sp: Spec, arg: Arg)
    requires SpecOk(sp) && StdText(c, len, sp, arg).Asked?
    requires ConvText(c, sp.fl, ReadPrecision(sp.prec), len, arg).Output?
    ensures
      var t := ConvText(c, sp.fl, ReadPrecision(sp.prec), len, arg).text;
      Fill(t, ReadWidth(sp.width), sp.fl.left) == StdText(c, len, sp, arg).text <==> AsAsked(c, sp, arg)
  {
    var fl, w, P := sp.fl, ReadWidth(sp.width), StdPrecision(sp.prec);
    if c in {'d', 'i'} {
      DecimalStandardExactly(arg.x, fl, sp.zero, w, sp.width, P);
    } else if c == 'c' {
      CharacterExactly((arg.x % 256) as char, w, sp.width, fl.left);
    } else if c == 's' {
      var i, j := Shown(arg.s, ReadPrecision(sp.prec)), Shown(arg.s, P);
      assert arg.s[..|arg.s|] == arg.s;
      StringFieldExactly(arg.s, i, j, w, sp.width, fl.left);
    } else {
      UnsignedExactly(c, len, sp, arg.x);
    }
  }

  lemma UnsignedExactly(c: char, len: Length, sp: Spec, x: nat)
    requires SpecOk(sp) && c in {'o', 'u', 'x', 'X'} && StdText(c, len, sp, Num(x)).Asked?
    requires ConvText(c, sp.fl, ReadPrecision(sp.prec), len, Num(x)).Output?
    ensures
      var t := ConvText(c, sp.fl, ReadPrecision(sp.prec), len, Num(x)).text;
      Fill(t, ReadWidth(sp.width), sp.fl.left) == StdText(c, len, sp, Num(x)).text <==> UnsignedAsAsked(c, sp, x)
  {
    var fl, w, P := sp.fl, ReadWidth(sp.width), StdPrecision(sp.prec);
    if c == 'u' {
      UnsignedStandardExactly(x, fl, sp.zero, w, sp.width, P);
    } else if c == 'o' {
      OctalStandardExactly(x, fl, sp.zero, w, sp.width, P);
    } else {
      HexStandardExactly(x, fl, c == 'X', sp.zero, w, sp.width, P);
    }
  }

  lemma CharacterExactly(ch: char, w: nat, width: nat, left: bool)
    ensures Fill([ch], w, left) == Fill([ch], width, left) <==> SameFill(1, w, width)
  {
    StringFieldExactly([ch], 1, 1, w, width, left);
    assert [ch][..1] == [ch];
  }

  // ---------------------------------------------------------------- one reading of the format

  /** Zeros in front add nothing. */
  lemma {:induction false} ZerosAddNothing(f: string, q: nat, g: nat, h: nat)
    requires q <= g <= h <= |f| && forall i :: q <= i < g ==> f[i] == '0'
    ensures Value(f, q, h, 10) == Value(f, g, h, 10)
    decreases g - q
  {
    if q < g {
      LeadingZero(f, q, 10, h);
      ZerosAddNothing(f, q + 1, g, h);
    }
  }

  lemma WrappedToInt(v: nat)
    ensures ToInt(v % WORD) == ToInt(v)
  {
    var q, r := v / WORD, v % WORD;
    assert v == q * WORD + r;
    var k := r / 0x1_0000_0000;
    assert r == k * 0x1_0000_0000 + r % 0x1_0000_0000;
    QuotientIs(v, 0x1_0000_0000, q * 0x1_0000_0000 + k, r % 0x1_0000_0000);
  }

  lemma FlagsAlike(f: string, p: nat, g: nat)
    requires p <= g <= |f|
    ensures StdFlags(f[p..g]) == FlagsOf(f, p, g)
    ensures '0' in f[p..g] <==> Has(f, p, g, '0')
  {
    forall c ensures c in f[p..g] <==> Has(f, p, g, c) {
      if Has(f, p, g, c) {
        var i :| p <= i < g && f[i] == c;
        assert f[p..g][i - p] == c;
      }
    }
  }

  /** What a period begins can be read. */
  ghost predicate PrecisionBegins(f: string, p: nat, args: seq<Arg>, a: nat)
    requires p <= |f|
  {
    RestOk(f, p) && (At(f, p) == '.' ==> NumberField(f, p + 1, args, a).Field?)
  }

  /** A precision is read where the standard reads it, and has the value that the program makes of it. */
  lemma PrecisionRead(f: string, p: nat, args: seq<Arg>, a: nat, fl: Flags, zero: bool, W: nat, width: int)
    requires p <= |f| && INT_MIN <= width <= INT_MAX && PrecisionBegins(f, p, args, a)
    ensures var sp := PrecisionAt(f, p, args, a, fl, zero, W);
      && SpecOk(sp) && sp.fl == fl && sp.zero == zero && sp.width == W && ConversionOk(f, sp.end)
      && Precise(f, p, fl, width, args, a) == Conversion(f, sp.end, fl, width, ReadPrecision(sp.prec), args, sp.next)
  {
    if At(f, p) == '.' && At(f, p + 1) != '*' {
      if IsDigit(At(f, p + 1)) {
        var e := RunEnd(f, p + 1, 10);
        DigitsRead(f, p + 1, e, args, a);
        WrappedToInt(Value(f, p + 1, e, 10));
      } else {
        assert RunEnd(f, p + 1, 10) == p + 1;
      }
    }
  }

  /** Flags and width can be read. */
  ghost predicate WidthBegins(f: string, p: nat, args: seq<Arg>, a: nat)
    requires p <= |f|
  {
    var q := FlagsEnd(f, p);
    var r := NumberField(f, q, args, a);
    Accepted(f, p) && r.Field? && WidthOk(f, q, r.value)
  }

  /** The flags the program goes on with: a negative star is a left flag. */
  ghost function LeftBy(fl: Flags, negative: bool): Flags {
    fl.(left := fl.left || negative)
  }

  /** The program goes on behind the width. */
  lemma Onward(f: string, p: nat, args: seq<Arg>, a: nat)
    requires p <= |f| && WidthBegins(f, p, args, a)
    ensures var q := FlagsEnd(f, p);
      var r := NumberField(f, q, args, a);
      && NumberOk(f, q) && RestOk(f, r.end)
      && Directive(f, p, args, a) ==
         Precise(f, r.end, LeftBy(FlagsOf(f, p, q), At(f, q) == '*' && r.value < 0), Width(f, q, r.value), args, r.next)
  {
    FieldEnds(f, FlagsEnd(f, p), args, a);
  }

  /** Without a zero among them, the standard's flags are the program's. */
  lemma SameFlags(f: string, p: nat)
    requires p <= |f| && At(f, FlagsEnd(f, p)) != '0'
    ensures var q := FlagsEnd(f, p);
      StdFlagsEnd(f, p) == q && StdFlags(f[p..q]) == FlagsOf(f, p, q) && '0' !in f[p..q]
  {
    var q := FlagsEnd(f, p);
    FlagsSplit(f, p);
    FlagsAlike(f, p, q);
    assert StdFlagsEnd(f, q) == q;
    assert !Has(f, p, q, '0');
  }

  /** Without a zero among the flags, flags and width are read alike. */
  lemma WidthRead(f: string, p: nat, args: seq<Arg>, a: nat) returns (width: int, e: nat, b: nat, fl: Flags, W: nat)
    requires p <= |f| && WidthBegins(f, p, args, a) && At(f, FlagsEnd(f, p)) != '0'
    ensures INT_MIN <= width <= INT_MAX && FillWidth(width) == ReadWidth(W) && e <= |f| && RestOk(f, e)
    ensures Directive(f, p, args, a) == Precise(f, e, fl, width, args, b)
    ensures SpecAt(f, p, args, a) == PrecisionAt(f, e, args, b, fl, false, W)
  {
    var q := FlagsEnd(f, p);
    var r := NumberField(f, q, args, a);
    Onward(f, p, args, a);
    SameFlags(f, p);
    e, b, width := r.end, r.next, Width(f, q, r.value);
    fl := LeftBy(FlagsOf(f, p, q), At(f, q) == '*' && r.value < 0);
    if At(f, q) == '*' {
      W := width;
    } else {
      assert fl == FlagsOf(f, p, q);
      W := Value(f, q, RunEnd(f, q, 10), 10);
      PlainWidthRead(f, q, args, a, W);
    }
  }

  lemma PlainWidthRead(f: string, q: nat, args: seq<Arg>, a: nat, W: nat)
    requires q <= |f| && At(f, q) != '*' && At(f, q) != '0' && NumberOk(f, q) && W == Value(f, q, RunEnd(f, q, 10), 10)
    ensures var r := NumberField(f, q, args, a);
      r.Field? && FillWidth(r.value) == ReadWidth(W) && r.end == RunEnd(f, q, 10) && r.next == a
  {
    if IsDigit(At(f, q)) {
      DigitsRead(f, q, RunEnd(f, q, 10), args, a);
      WrappedToInt(W);
    } else {
      assert RunEnd(f, q, 10) == q && W == 0;
    }
  }

  /** A zero among the flags, and those behind it, are digits of the program's width. */
  lemma ZeroWidthRead(f: string, p: nat, args: seq<Arg>, a: nat) returns (width: int, e: nat, fl: Flags, W: nat)
    requires p <= |f| && Accepted(f, p) && At(f, FlagsEnd(f, p)) == '0'
    ensures INT_MIN <= width <= INT_MAX && FillWidth(width) == ReadWidth(W) && e <= |f| && RestOk(f, e)
    ensures Directive(f, p, args, a) == Precise(f, e, fl, width, args, a)
    ensures SpecAt(f, p, args, a) == PrecisionAt(f, e, args, a, fl, true, W)
  {
    var q, g := FlagsEnd(f, p), StdFlagsEnd(f, p);
    AcceptedExactly(f, p);
    ZeroFlagExactly(f, p);
    ZeroFlagIsWidth(f, p, args, a);
    e, fl := RunEnd(f, g, 10), FlagsOf(f, p, q);
    W := Value(f, g, e, 10);
    width := ToInt(Wrapped(f, q, e, 10));
    ZerosAddNothing(f, q, g, e);
    WrappedToInt(W);
    ZerosAreNoFlags(f, p, q, g);
    FlagsAlike(f, p, g);
  }

  lemma ZerosAreNoFlags(f: string, p: nat, q: nat, g: nat)
    requires p <= q < g <= |f| && forall i :: q <= i < g ==> f[i] == '0'
    ensures FlagsOf(f, p, g) == FlagsOf(f, p, q) && Has(f, p, g, '0')
  {
    assert f[q] == '0';
    forall c | c != '0' ensures Has(f, p, g, c) <==> Has(f, p, q, c) {
      if Has(f, p, q, c) {
        var i :| p <= i < q && f[i] == c;
        assert f[i] == c;
      }
    }
  }

  /** Where flags and width can be read, what follows is read from the same place with the same argument. */
  lemma BothRead(f: string, p: nat, args: seq<Arg>, a: nat)
    returns (width: int, e: nat, b: nat, fl: Flags, zero: bool, W: nat)
    requires p <= |f| && WidthBegins(f, p, args, a)
    ensures INT_MIN <= width <= INT_MAX && FillWidth(width) == ReadWidth(W) && e <= |f| && RestOk(f, e)
    ensures Directive(f, p, args, a) == Precise(f, e, fl, width, args, b)
    ensures SpecAt(f, p, args, a) == PrecisionAt(f, e, args, b, fl, zero, W)
  {
    if At(f, FlagsEnd(f, p)) == '0' {
      b, zero := a, true;
      width, e, fl, W := ZeroWidthRead(f, p, args, a);
    } else {
      zero := false;
      width, e, b, fl, W := WidthRead(f, p, args, a);
    }
  }

  /** A directive that is carried out is read as the standard reads it, but for the value of its width and precision. */
  lemma DirectiveRead(f: string, p: nat, args: seq<Arg>, a: nat) returns (width: int)
    requires p <= |f| && Directive(f, p, args, a).Piece?
    ensures var sp := SpecAt(f, p, args, a);
      && SpecOk(sp) && INT_MIN <= width <= INT_MAX && FillWidth(width) == ReadWidth(sp.width)
      && Directive(f, p, args, a) == Conversion(f, sp.end, sp.fl, width, ReadPrecision(sp.prec), args, sp.next)
  {
    AcceptedIfDone(f, p, args, a);
    var e, b, fl, zero, W;
    width, e, b, fl, zero, W := BothRead(f, p, args, a);
    PrecisionRead(f, e, args, b, fl, zero, W, width);
  }

  // ---------------------------------------------------------------- the main result

  /** A percent sign, or a conversion whose format and argument are as asked. */
  ghost predicate DirectiveAsAsked(f: string, p: nat, args: seq<Arg>, a: nat)
    requires p <= |f|
  {
    var sp := SpecAt(f, p, args, a);
    || At(f, p) == '%'
    || (SpecOk(sp) && sp.next < |args| && AsAsked(At(f, LengthOf(f, sp.end).1), sp, args[sp.next]))
  }

  /** Where the program has a text and the standard asks for one, both read the same directive and take the same
      argument, and the texts are the same exactly if format and argument are as asked. */
  lemma DirectiveExactly(f: string, p: nat, args: seq<Arg>, a: nat)
    requires p <= |f| && Directive(f, p, args, a).Piece? && StdDirective(f, p, args, a).StdPiece?
    ensures var r, s := Directive(f, p, args, a), StdDirective(f, p, args, a);
      && r.end == s.end && r.next == s.next
      && (r.text == s.text <==> DirectiveAsAsked(f, p, args, a))
  {
    var width := DirectiveRead(f, p, args, a);
    var sp := SpecAt(f, p, args, a);
    if At(f, p) == '%' {
      PercentRead(f, p, args, a);
    } else {
      var (len, q) := LengthOf(f, sp.end);
      var arg := args[sp.next];
      ConversionExactly(At(f, q), len, sp, arg);
      PaddedIs(ConvText(At(f, q), sp.fl, ReadPrecision(sp.prec), len, arg).text, width, sp.fl.left);
    }
  }

  lemma PercentRead(f: string, p: nat, args: seq<Arg>, a: nat)
    requires p <= |f| && At(f, p) == '%'
    ensures Directive(f, p, args, a) == Piece("%", p + 1, a)
  {
    assert FlagsEnd(f, p) == p && NoneTwice(f, p, p);
  }

  // ---------------------------------------------------------------- whole formats

  datatype StdOutcome = StdOutput(text: string) | NoStdOutput

  /** The whole output the standard asks for, if it asks for one. */
  ghost function StdRender(f: string, p: nat, args: seq<Arg>, a: nat): StdOutcome
    requires p <= |f|
    decreases |f| - p
  {
    if At(f, p) == '\0' then StdOutput("")
    else if f[p] != '%' then StdThen([f[p]], StdRender(f, p + 1, args, a))
    else
      match StdDirective(f, p + 1, args, a)
      case NoStdPiece => NoStdOutput
      case StdPiece(t, q, b) => StdThen(t, StdRender(f, q, args, b))
  }

  ghost function StdThen(t: string, o: StdOutcome): StdOutcome {
    if o.NoStdOutput? then NoStdOutput else StdOutput(t + o.text)
  }

  /** Every directive from p on is as asked. */
  ghost predicate AllAsAsked(f: string, p: nat, args: seq<Arg>, a: nat)
    requires p <= |f|
    decreases |f| - p
  {
    if At(f, p) == '\0' then true
    else if f[p] != '%' then AllAsAsked(f, p + 1, args, a)
    else
      DirectiveAsAsked(f, p + 1, args, a) &&
      match StdDirective(f, p + 1, args, a)
      case NoStdPiece => false
      case StdPiece(_, q, b) => AllAsAsked(f, q, args, b)
  }

  /** A format that is carried out, and whose directives are all as asked, prints what the standard asks for. */
  lemma {:induction false} RenderAsAsked(f: string, p: nat, args: seq<Arg>, a: nat)
    requires p <= |f| && Render(f, p, args, a).Output? && AllAsAsked(f, p, args, a)
    ensures StdRender(f, p, args, a) == StdOutput(Render(f, p, args, a).text)
    decreases |f| - p
  {
    if At(f, p) == '\0' {
    } else if f[p] != '%' {
      RenderAsAsked(f, p + 1, args, a);
    } else {
      DirectiveExactly(f, p + 1, args, a);
      var s := StdDirective(f, p + 1, args, a);
      RenderAsAsked(f, s.end, args, s.next);
    }
  }

  // ---------------------------------------------------------------- inputs

  const NO_FLAGS: Flags := Flags(false, false, false, false)

  /** No flags and no width in front of a period. */
  lemma PlainStart(f: string, args: seq<Arg>)
    requires |f| > 1 && f[1] == '.'
    ensures Directive(f, 1, args, 0) == Precise(f, 1, NO_FLAGS, -1, args, 0)
    ensures SpecAt(f, 1, args, 0) == PrecisionAt(f, 1, args, 0, NO_FLAGS, false, 0)
  {
    assert FlagsEnd(f, 1) == 1 == StdFlagsEnd(f, 1) == RunEnd(f, 1, 10);
    assert FlagsOf(f, 1, 1) == NO_FLAGS && NO_FLAGS.(left := false) == NO_FLAGS;
    assert NoneTwice(f, 1, 1) && NumberField(f, 1, args, 0) == Field(-1, 1, 0);
    assert Value(f, 1, 1, 10) == 0;
  }

  /** A period on its own leaves nothing of a string, but the program prints all of it. */
  lemma BarePeriodString(f: string, args: seq<Arg>)
    requires f == "%.s" && args == [Str("abc")]
    ensures Directive(f, 1, args, 0) == Piece("abc", 3, 1) && StdDirective(f, 1, args, 0) == StdPiece("", 3, 1)
  {
    PlainStart(f, args);
    assert RunEnd(f, 2, 10) == 2;
    StringDirective(f, 2, "abc", -1, BarePeriod);
  }

  /** A string without flags and width, under a precision the program reads and one the format spells. */
  lemma StringDirective(f: string, e: nat, s: string, prec: int, P: Precision)
    requires e < |f| && f[e] == 's' && INT_MIN <= prec <= |s| && prec <= INT_MAX
    ensures Conversion(f, e, NO_FLAGS, -1, prec, [Str(s)], 0) == Piece(s[..Shown(s, prec)], e + 1, 1)
    ensures LengthOf(f, e) == (Plain, e)
    ensures StdText('s', Plain, Spec(NO_FLAGS, false, 0, P, e, 0), Str(s)) == Asked(s[..Shown(s, StdPrecision(P))])
  {
    var t, u := s[..Shown(s, prec)], s[..Shown(s, StdPrecision(P))];
    assert s[..|s|] == s && Blanks(0) + t == t && Blanks(0) + u == u;
  }

  /** It leaves no digit of a zero either. */
  lemma BarePeriodZero(f: string, args: seq<Arg>)
    requires f == "%.d" && args == [Num(0)]
    ensures Directive(f, 1, args, 0) == Piece("0", 3, 1) && StdDirective(f, 1, args, 0) == StdPiece("", 3, 1)
  {
    PlainStart(f, args);
    assert RunEnd(f, 2, 10) == 2;
    LeadingDigit(0, 10, false);
    assert Blanks(0) + "0" == "0" && "" + "" == "" && Blanks(0) + "" == "";
  }

  /** A precision beyond the ints is another one to the program: here it is zero. */
  lemma PrecisionWraps(f: string, args: seq<Arg>)
    requires f == "%.4294967296s" && args == [Str("abc")]
    ensures Directive(f, 1, args, 0) == Piece("", 13, 1) && StdDirective(f, 1, args, 0) == StdPiece("abc", 13, 1)
  {
    LongPrecision(f, args);
    PrecisionDirective(f, args, 12, 0, 4294967296);
    assert "abc"[..0] == "" && "abc"[..3] == "abc";
  }

  /** A string whose precision stands in digits up to e. */
  lemma PrecisionDirective(f: string, args: seq<Arg>, e: nat, prec: int, v: nat)
    requires 2 < e < |f| && f[1] == '.' && f[2] != '*' && f[e] == 's' && args == [Str("abc")]
    requires NumberField(f, 2, args, 0) == Field(prec, e, 0) && 0 <= prec <= 3
    requires RunEnd(f, 2, 10) == e && Value(f, 2, e, 10) == v
    ensures Directive(f, 1, args, 0) == Piece("abc"[..prec], e + 1, 1)
    ensures StdDirective(f, 1, args, 0) == StdPiece("abc"[..Min(3, v)], e + 1, 1)
  {
    PlainStart(f, args);
    StringDirective(f, e, "abc", prec, InDigits(v));
  }

  lemma LongPrecision(f: string, args: seq<Arg>)
    requires f == "%.4294967296s"
    ensures NumberField(f, 2, args, 0) == Field(0, 12, 0)
    ensures RunEnd(f, 2, 10) == 12 && Value(f, 2, 12, 10) == 4294967296
  {
    RunDigits(f, 2, 10, 12);
    LongValue(f);
    SmallIsSteady(f, 2, 12, 10);
    DigitsRead(f, 2, 12, args, 0);
    SmallMod(4294967296, WORD);
  }

  lemma LongValue(f: string)
    requires f == "%.4294967296s"
    ensures Value(f, 2, 12, 10) == 4294967296
  {
    assert Value(f, 2, 2, 10) == 0;
    assert Value(f, 2, 5, 10) == 429;
    assert Value(f, 2, 8, 10) == 429496;
    assert Value(f, 2, 10, 10) == 42949672;
  }

  /** A period cancels the zero flag, so that the program's blanks are right. */
  lemma BarePeriodCancelsZero(f: string, args: seq<Arg>)
    requires f == "%05.d" && args == [Num(5)]
    ensures Directive(f, 1, args, 0) == Piece("    5", 5, 1) && StdDirective(f, 1, args, 0) == StdPiece("    5", 5, 1)
  {
    ZeroFive(f, args);
    FiveField();
  }

  lemma FiveField()
    ensures Text(5, 10, false) == "5" && DecimalText(5, '-') == "5"
    ensures Padded("5", 5, false) == "    5"
    ensures StdDecimal(5, NO_FLAGS, true, 5, 0) == "    5"
  {
    assert Text(5, 10, false) == "5";
    assert Blanks(2) == "  " && Blanks(4) == Blanks(2) + "  ";
    assert "" + "5" == "5";
  }

  lemma ZeroFive(f: string, args: seq<Arg>)
    requires f == "%05.d"
    ensures Directive(f, 1, args, 0) == Precise(f, 3, NO_FLAGS, 5, args, 0)
    ensures SpecAt(f, 1, args, 0) == Spec(NO_FLAGS, true, 5, BarePeriod, 4, 0)
    ensures NumberField(f, 4, args, 0) == Field(-1, 4, 0)
  {
    assert FlagsEnd(f, 1) == 1 && FlagsOf(f, 1, 1) == NO_FLAGS && NO_FLAGS.(left := false) == NO_FLAGS;
    assert NoneTwice(f, 1, 1);
    assert StdFlagsEnd(f, 2) == 2 && StdFlagsEnd(f, 1) == 2;
    ZerosAreNoFlags(f, 1, 1, 2);
    RunDigits(f, 1, 10, 3);
    RunDigits(f, 2, 10, 3);
    assert Value(f, 2, 2, 10) == 0 && Value(f, 2, 3, 10) == 5;
    assert Value(f, 1, 1, 10) == 0 && Value(f, 1, 2, 10) == 0 && Value(f, 1, 3, 10) == 5;
    SmallIsSteady(f, 1, 3, 10);
    DigitsRead(f, 1, 3, args, 0);
    SmallMod(5, WORD);
    assert RunEnd(f, 4, 10) == 4;
  }
}
