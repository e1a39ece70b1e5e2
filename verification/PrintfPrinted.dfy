/**
 Exactly which directives are carried out with which arguments, and the text of each, also where
 the standard asks for none.
 */
module PrintfPrinted {
  import opened Digits
  import opened DigitsExactly
  import opened StrToUmax
  import opened PrintfModel
  import opened PrintfStandard
  import opened PrintfAccepts
  import opened PrintfExactly

  // ---------------------------------------------------------------- numbers as ints and sizes

  /** A number becomes the int that differs from it by a multiple of 2^32. */
  lemma ToIntExactly(x: nat)
    ensures -0x8000_0000 <= ToInt(x) <= 0x7FFF_FFFF && (x - ToInt(x)) % 0x1_0000_0000 == 0
  {
    var q, r := x / 0x1_0000_0000, x % 0x1_0000_0000;
    assert x == q * 0x1_0000_0000 + r;
    assert x - ToInt(x) == (if r <= INT_MAX then q else q + 1) * 0x1_0000_0000;
  }

  /** What is filled up to for a width in the format: its low 32 bits, but a set sign bit reaches to bit 63, and
      all bits set is no width. */
  ghost function WidthOf(width: nat): nat {
    var low := width % 0x1_0000_0000;
    if low < 0x8000_0000 then low else if low == 0xFFFF_FFFF then 0 else 0xFFFF_FFFF_0000_0000 + low
  }

  lemma ReadWidthIs(width: nat)
    ensures ReadWidth(width) == WidthOf(width)
  {
  }

  /** The precision the program uses; a negative one is none. */
  ghost function PrecisionOf(prec: Precision): int {
    match prec
    case NoPrecision => -1
    case BarePeriod => -1
    case Argument(x) => x
    case InDigits(v) =>
      var low := v % 0x1_0000_0000;
      if low < 0x8000_0000 then low else low - 0x1_0000_0000
  }

  lemma ReadPrecisionIs(sp: Spec)
    requires SpecOk(sp)
    ensures ReadPrecision(sp.prec) == PrecisionOf(sp.prec)
  {
  }

  // ---------------------------------------------------------------- which directives are carried out

  /** The argument is of the conversion's type, and a string is long enough for the precision. */
  ghost predicate ArgumentFits(c: char, len: Length, prec: int, arg: Arg) {
    if c == 's' then arg.Str? && prec <= |arg.s|
    else arg.Num? &&
         if c in {'d', 'i'} then SignedType(len, arg.x)
         else if c == 'c' then SignedType(Plain, arg.x)
         else if c == 'p' then UnsignedType(Size, arg.x)
         else UnsignedType(len, arg.x)
  }

  /** There are ints for the stars, of which a width is not the least int, and an argument to convert. */
  ghost predicate ArgumentsFit(f: string, p: nat, args: seq<Arg>, a: nat)
    requires p <= |f|
  {
    var sp := SpecAt(f, p, args, a);
    && sp.Spec? && (At(f, StdFlagsEnd(f, p)) == '*' ==> sp.width <= 0x7FFF_FFFF)
    && var (len, q) := LengthOf(f, sp.end);
       At(f, q) == '%' || (sp.next < |args| && ArgumentFits(At(f, q), len, PrecisionOf(sp.prec), args[sp.next]))
  }

  lemma ConvertsExactly(c: char, fl: Flags, prec: int, len: Length, arg: Arg)
    requires c in {'d', 'i', 'o', 'u', 'x', 'X', 'c', 's', 'p'}
    requires c in {'o', 'u', 'x', 'X'} ==> len != Ptrdiff
    requires c in {'c', 's'} ==> TextLength(len)
    ensures ConvText(c, fl, prec, len, arg).Output? <==> ArgumentFits(c, len, prec, arg)
  {
  }

  /** A star that there is an int for can be read. */
  lemma WidthBeginsExactly(f: string, p: nat, args: seq<Arg>, a: nat)
    requires p <= |f| && Accepted(f, p)
    ensures var g := StdFlagsEnd(f, p);
      WidthBegins(f, p, args, a) <==>
        (At(f, g) == '*' ==> StdStar(g, args, a).Field? && StdStar(g, args, a).value != -0x8000_0000)
  {
    var q, g := FlagsEnd(f, p), StdFlagsEnd(f, p);
    FlagsSplit(f, p);
    FieldEnds(f, q, args, a);
    if At(f, q) == '0' {
      ZeroFlagRuns(f, p);
      NoStarBehindZeros(f, p);
    } else {
      assert StdFlagsEnd(f, q) == q;
    }
  }

  lemma NoStarBehindZeros(f: string, p: nat)
    requires p <= |f| && Accepted(f, p) && At(f, FlagsEnd(f, p)) == '0'
    ensures At(f, StdFlagsEnd(f, p)) != '*'
  {
    AcceptedExactly(f, p);
    ZeroFlagExactly(f, p);
  }

  lemma SpecNeedsStar(f: string, p: nat, args: seq<Arg>, a: nat)
    requires p <= |f| && SpecAt(f, p, args, a).Spec?
    ensures var g := StdFlagsEnd(f, p);
      At(f, g) == '*' ==>
        StdStar(g, args, a).Field? && SpecAt(f, p, args, a).width == Magnitude(StdStar(g, args, a).value)
  {
  }

  /** A directive is carried out with the arguments from a on exactly if its format is accepted and they fit. */
  lemma CarriedExactly(f: string, p: nat, args: seq<Arg>, a: nat)
    requires p <= |f|
    ensures Directive(f, p, args, a).Piece? <==> Accepted(f, p) && ArgumentsFit(f, p, args, a)
  {
    if Directive(f, p, args, a).Piece? {
      CarriedFits(f, p, args, a);
    }
    if Accepted(f, p) && ArgumentsFit(f, p, args, a) {
      FittingCarried(f, p, args, a);
    }
  }

  lemma CarriedFits(f: string, p: nat, args: seq<Arg>, a: nat)
    requires p <= |f| && Directive(f, p, args, a).Piece?
    ensures Accepted(f, p) && ArgumentsFit(f, p, args, a)
  {
    AcceptedIfDone(f, p, args, a);
    WidthBeginsExactly(f, p, args, a);
    var width := DirectiveRead(f, p, args, a);
    var sp := SpecAt(f, p, args, a);
    SpecNeedsStar(f, p, args, a);
    ReadPrecisionIs(sp);
    ConversionCarried(f, sp, args, width);
  }

  lemma FittingCarried(f: string, p: nat, args: seq<Arg>, a: nat)
    requires p <= |f| && Accepted(f, p) && ArgumentsFit(f, p, args, a)
    ensures Directive(f, p, args, a).Piece?
  {
    SpecNeedsStar(f, p, args, a);
    WidthBeginsExactly(f, p, args, a);
    var width, e, b, fl, zero, W := BothRead(f, p, args, a);
    SpecReads(f, e, args, b, fl, zero, W);
    PrecisionRead(f, e, args, b, fl, zero, W, width);
    var sp := SpecAt(f, p, args, a);
    ReadPrecisionIs(sp);
    ConversionCarried(f, sp, args, width);
  }

  /** Where the standard reads a precision, so does the program. */
  lemma SpecReads(f: string, p: nat, args: seq<Arg>, a: nat, fl: Flags, zero: bool, W: nat)
    requires p <= |f| && RestOk(f, p) && PrecisionAt(f, p, args, a, fl, zero, W).Spec?
    ensures PrecisionBegins(f, p, args, a)
  {
    if At(f, p) == '.' {
      FieldEnds(f, p + 1, args, a);
    }
  }

  lemma ConversionCarried(f: string, sp: Spec, args: seq<Arg>, width: int)
    requires SpecOk(sp) && sp.end <= |f| && INT_MIN <= width <= INT_MAX
    ensures var (len, q) := LengthOf(f, sp.end);
      Conversion(f, sp.end, sp.fl, width, PrecisionOf(sp.prec), args, sp.next).Piece? && ConversionOk(f, sp.end) <==>
      && ConversionOk(f, sp.end)
      && (At(f, q) == '%' ||
          (sp.next < |args| && ArgumentFits(At(f, q), len, PrecisionOf(sp.prec), args[sp.next])))
  {
    var (len, q) := LengthOf(f, sp.end);
    if ConversionOk(f, sp.end) && At(f, q) != '%' && sp.next < |args| {
      ConvertsExactly(At(f, q), sp.fl, PrecisionOf(sp.prec), len, args[sp.next]);
    }
  }

  // ---------------------------------------------------------------- what is printed

  /** The characters for one argument, whatever the standard says of the flags. */
  ghost function PrintedText(c: char, fl: Flags, prec: int, arg: Arg): string
    requires c in {'d', 'i', 'o', 'u', 'x', 'X', 'c', 's', 'p'}
    requires if c == 's' then arg.Str? else arg.Num? && (c in {'d', 'i', 'c'} || arg.x >= 0)
  {
    match c
    case 's' => arg.s[..Shown(arg.s, prec)]
    case 'c' => [(arg.x % 256) as char]
    case 'u' => Text(arg.x, 10, false)
    case 'o' => (if fl.alt && arg.x > 0 then "0" else "") + Text(arg.x, 8, false)
    case 'x' => (if fl.alt then "0x" else "") + Text(arg.x, 16, false)
    case 'X' => (if fl.alt then "0X" else "") + Text(arg.x, 16, true)
    case 'p' => "0x" + Text(arg.x, 16, false)
    case _ => StdSign(arg.x, fl) + Text(Magnitude(arg.x), 10, false)
  }

  lemma ConvertedIs(c: char, fl: Flags, prec: int, len: Length, arg: Arg)
    requires ConvText(c, fl, prec, len, arg).Output?
    ensures c in {'d', 'i', 'o', 'u', 'x', 'X', 'c', 's', 'p'}
    ensures if c == 's' then arg.Str? else arg.Num? && (c in {'d', 'i', 'c'} || arg.x >= 0)
    ensures ConvText(c, fl, prec, len, arg).text == PrintedText(c, fl, prec, arg)
  {
    if c == 's' {
      assert arg.s[..|arg.s|] == arg.s;
    } else if c in {'d', 'i'} {
      DecimalParts(arg.x, fl);
    } else if c in {'o', 'x', 'X'} {
      assert "" + Text(arg.x, 8, false) == Text(arg.x, 8, false);
      assert "" + Text(arg.x, 16, c == 'X') == Text(arg.x, 16, c == 'X');
    }
  }

  /** The text of any directive that is carried out. */
  lemma PrintedExactly(f: string, p: nat, args: seq<Arg>, a: nat)
    requires p <= |f| && Directive(f, p, args, a).Piece?
    ensures var r, sp := Directive(f, p, args, a), SpecAt(f, p, args, a);
      && SpecOk(sp)
      && var q := LengthOf(f, sp.end).1;
         var c := At(f, q);
         && r.end == q + 1
         && if c == '%' then r.text == "%" && r.next == sp.next
            else
              && c in {'d', 'i', 'o', 'u', 'x', 'X', 'c', 's', 'p'} && sp.next < |args| && r.next == sp.next + 1
              && (if c == 's' then args[sp.next].Str?
                  else args[sp.next].Num? && (c in {'d', 'i', 'c'} || args[sp.next].x >= 0))
              && r.text ==
                 Fill(PrintedText(c, sp.fl, PrecisionOf(sp.prec), args[sp.next]), WidthOf(sp.width), sp.fl.left)
  {
    var width := DirectiveRead(f, p, args, a);
    var sp := SpecAt(f, p, args, a);
    ReadWidthIs(sp.width);
    ReadPrecisionIs(sp);
    var (len, q) := LengthOf(f, sp.end);
    if At(f, q) != '%' {
      var prec, arg := PrecisionOf(sp.prec), args[sp.next];
      ConvertedIs(At(f, q), sp.fl, prec, len, arg);
      PaddedIs(ConvText(At(f, q), sp.fl, prec, len, arg).text, width, sp.fl.left);
    }
  }

  /** A number's text: in its case throughout, and at each place the numeral of the digit there. */
  ghost predicate Spelled(u: string, x: nat, base: nat, uppercase: bool)
    requires 2 <= base <= 36
  {
    && |u| > 0 && (forall i :: 0 <= i < |u| ==> InCase(u[i], uppercase))
    && forall k: nat :: k < |u| ==> u[|u| - 1 - k] == Numeral(DigitAt(x, base, k), uppercase)
  }

  lemma TextSpelled(x: nat, base: nat, uppercase: bool)
    requires 2 <= base <= 36
    ensures Spelled(Text(x, base, uppercase), x, base, uppercase)
  {
    var u := Text(x, base, uppercase);
    TextCase(x, base, uppercase);
    forall k: nat | k < |u| ensures u[|u| - 1 - k] == Numeral(DigitAt(x, base, k), uppercase) {
      TextExactly(x, base, uppercase, k);
    }
  }

  /** A hexadecimal is a prefix and digits in the case of its conversion; a pointer always has the prefix,
      in lower case. */
  lemma HexadecimalExactly(c: char, fl: Flags, prec: int, x: nat) returns (u: string)
    requires c in {'x', 'X', 'p'}
    ensures Spelled(u, x, 16, c == 'X')
    ensures PrintedText(c, fl, prec, Num(x)) ==
            (if c == 'p' || (c == 'x' && fl.alt) then "0x" else if fl.alt then "0X" else "") + u
  {
    u := Text(x, 16, c == 'X');
    TextSpelled(x, 16, c == 'X');
  }
}
