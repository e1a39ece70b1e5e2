/**
 What a format and its arguments stand for: the output without any limit on its length.
 */
module PrintfModel {
  import opened Bits
  import opened Digits
  import opened StrToUmax

  /** An element of the argument list. A number is passed in the type its conversion asks for. */
  datatype Arg = Num(x: int) | Str(s: string)

  /** A fault is a failed assertion, an argument of another type, or a precision that runs past its string. */
  datatype Outcome = Output(text: string) | Fault

  const INT_MIN: int := -0x8000_0000
  const INT_MAX: int := 0x7FFF_FFFF

  /** Conversion of an unsigned number to int. */
  function ToInt(x: nat): (r: int)
    ensures INT_MIN <= r <= INT_MAX
    ensures x <= INT_MAX ==> r == x
  {
    var y := x % 0x1_0000_0000;
    if y <= INT_MAX then y else y - 0x1_0000_0000
  }

  /** Conversion of an int to size_t. */
  function ToSize(x: int): nat
    requires INT_MIN <= x <= INT_MAX
  {
    if x < 0 then WORD + x else x
  }

  // ---------------------------------------------------------------- flags

  predicate IsFlag(c: char) {
    c == '#' || c == '-' || c == ' ' || c == '+'
  }

  predicate IsDigit(c: char) {
    '0' <= c <= '9'
  }

  datatype Flags = Flags(alt: bool, left: bool, space: bool, plus: bool)

  ghost function FlagsEnd(f: string, p: nat): (e: nat)
    requires p <= |f|
    ensures p <= e <= |f| && forall i :: p <= i < e ==> IsFlag(f[i])
    ensures e < |f| ==> !IsFlag(f[e])
    decreases |f| - p
  {
    if p < |f| && IsFlag(f[p]) then FlagsEnd(f, p + 1) else p
  }

  ghost predicate Has(f: string, lo: nat, hi: nat, c: char)
    requires lo <= hi <= |f|
  {
    exists i :: lo <= i < hi && f[i] == c
  }

  ghost predicate NoneTwice(f: string, lo: nat, hi: nat)
    requires lo <= hi <= |f|
  {
    forall i, j :: lo <= i < j < hi ==> f[i] != f[j]
  }

  ghost function FlagsOf(f: string, lo: nat, hi: nat): Flags
    requires lo <= hi <= |f|
  {
    Flags(Has(f, lo, hi, '#'), Has(f, lo, hi, '-'), Has(f, lo, hi, ' '), Has(f, lo, hi, '+'))
  }

  // ---------------------------------------------------------------- width, precision, length

  /** A number in a directive, the place behind it, and the next argument. */
  datatype Field = Field(value: int, end: nat, next: nat) | NoField

  ghost function DigitsField(f: string, p: nat, a: nat): (r: Field)
    requires p <= |f|
    ensures r.Field? ==> INT_MIN <= r.value <= INT_MAX && p <= r.end <= |f| && r.next == a
  {
    var n := ReadingOf(f[p..], 10);
    if n.err == ERANGE then NoField else Field(ToInt(n.ret), p + n.end, a)
  }

  ghost function StarField(p: nat, args: seq<Arg>, a: nat): Field {
    if a < |args| && args[a].Num? && INT_MIN <= args[a].x <= INT_MAX then Field(args[a].x, p + 1, a + 1)
    else NoField
  }

  /** A number if there is one, else none, which is written -1. */
  ghost function NumberField(f: string, p: nat, args: seq<Arg>, a: nat): (r: Field)
    requires p <= |f|
    ensures r.Field? ==> INT_MIN <= r.value <= INT_MAX && p <= r.end <= |f| && r.next >= a
  {
    if At(f, p) == '*' then StarField(p, args, a)
    else if IsDigit(At(f, p)) then DigitsField(f, p, a)
    else Field(-1, p, a)
  }

  /** The least int has no absolute value. */
  ghost predicate WidthOk(f: string, p: nat, w: int)
    requires p <= |f|
  {
    At(f, p) == '*' ==> w != INT_MIN
  }

  /** The absolute value of a width given as an argument. */
  ghost function Width(f: string, p: nat, w: int): (r: int)
    requires p <= |f| && INT_MIN <= w <= INT_MAX && WidthOk(f, p, w)
    ensures INT_MIN <= r <= INT_MAX
  {
    if At(f, p) == '*' && w < 0 then -w else w
  }

  datatype Length = Plain | Long | LongLong | Intmax | Ptrdiff | Size

  ghost function LengthOf(f: string, p: nat): (Length, nat)
    requires p <= |f|
  {
    match At(f, p)
    case 'l' => if At(f, p + 1) == 'l' then (LongLong, p + 2) else (Long, p + 1)
    case 'q' => (LongLong, p + 1)
    case 'j' => (Intmax, p + 1)
    case 't' => (Ptrdiff, p + 1)
    case 'z' => (Size, p + 1)
    case _ => (Plain, p)
  }

  /** How a length is spelled. */
  ghost predicate Spells(m: string, len: Length) {
    || (m == "" && len == Plain) || (m == "l" && len == Long) || (m in {"ll", "q"} && len == LongLong)
    || (m == "j" && len == Intmax) || (m == "t" && len == Ptrdiff) || (m == "z" && len == Size)
  }

  /** The length is the one that the longest modifier at p spells. */
  lemma LengthIsLongest(f: string, p: nat)
    requires p <= |f|
    ensures var (len, q) := LengthOf(f, p);
      && p <= q <= |f| && Spells(f[p..q], len)
      && forall m, other :: Spells(m, other) && p + |m| <= |f| && f[p..p + |m|] == m ==> |m| <= q - p
  {
    var (len, q) := LengthOf(f, p);
    if p < |f| {
      assert f[p..p + 1] == [f[p]];
    }
    if At(f, p) == 'l' && At(f, p + 1) == 'l' {
      assert f[p..p + 2] == "ll";
    }
    forall m, other | Spells(m, other) && p + |m| <= |f| && f[p..p + |m|] == m ensures |m| <= q - p {
      if m == "ll" {
        assert f[p] == m[0] && f[p + 1] == m[1];
      } else if |m| == 1 {
        assert f[p] == m[0];
      }
    }
  }

  // ---------------------------------------------------------------- conversions

  /** The signed numbers of a length. */
  predicate SignedOk(len: Length, x: int) {
    if len == Plain then INT_MIN <= x <= INT_MAX else -0x8000_0000_0000_0000 <= x < 0x8000_0000_0000_0000
  }

  /** The unsigned numbers of a length; there is no unsigned ptrdiff_t. */
  predicate UnsignedOk(len: Length, x: int) {
    len != Ptrdiff && 0 <= x < if len == Plain then 0x1_0000_0000 else WORD
  }

  ghost function SignOf(fl: Flags): char {
    if fl.plus then '+' else if fl.space then ' ' else '-'
  }

  /** Characters and strings take no length but the long one, which is noted as not implemented and then ignored. */
  predicate TextLength(len: Length) {
    len == Plain || len == Long
  }

  /** The text of one argument, before padding. */
  ghost function ConvText(c: char, fl: Flags, prec: int, len: Length, arg: Arg): Outcome {
    match c
    case 'd' => if arg.Num? && SignedOk(len, arg.x) then Output(DecimalText(arg.x, SignOf(fl))) else Fault
    case 'i' => if arg.Num? && SignedOk(len, arg.x) then Output(DecimalText(arg.x, SignOf(fl))) else Fault
    case 'o' => if arg.Num? && UnsignedOk(len, arg.x) then Output(OctalText(arg.x, fl.alt)) else Fault
    case 'u' => if arg.Num? && UnsignedOk(len, arg.x) then Output(Text(arg.x, 10, false)) else Fault
    case 'x' => if arg.Num? && UnsignedOk(len, arg.x) then Output(HexText(arg.x, fl.alt, false)) else Fault
    case 'X' => if arg.Num? && UnsignedOk(len, arg.x) then Output(HexText(arg.x, fl.alt, true)) else Fault
    case 'c' => if arg.Num? && SignedOk(Plain, arg.x) && TextLength(len) then Output([(arg.x % 256) as char]) else Fault
    case 's' =>
      if arg.Num? || !TextLength(len) then Fault
      else if prec < 0 then Output(arg.s)
      else if prec <= |arg.s| then Output(arg.s[..prec])
      else Fault
    case 'p' => if arg.Num? && UnsignedOk(Size, arg.x) then Output(HexText(arg.x, true, false)) else Fault
    case _ => Fault
  }

  ghost function Blanks(n: nat): string {
    if n == 0 then "" else Blanks(n - 1) + " "
  }

  function PadLen(slen: nat, width: int): nat
    requires INT_MIN <= width <= INT_MAX
  {
    if width == -1 then 0 else if slen < ToSize(width) then ToSize(width) - slen else 0
  }

  ghost function Padded(t: string, width: int, left: bool): string
    requires INT_MIN <= width <= INT_MAX
  {
    var pad := Blanks(PadLen(|t|, width));
    if left then t + pad else pad + t
  }

  /** A directive whose flags, width and precision are settled: its text, the place behind it, the next argument. */
  datatype Piece = Piece(text: string, end: nat, next: nat) | NoPiece

  ghost function Conversion(f: string, p: nat, fl: Flags, width: int, prec: int, args: seq<Arg>, a: nat): (r: Piece)
    requires p <= |f| && INT_MIN <= width <= INT_MAX
    ensures r.Piece? ==> p < r.end <= |f| && r.next >= a
  {
    var (len, q) := LengthOf(f, p);
    if At(f, q) == '%' then Piece("%", q + 1, a)
    else if a >= |args| then NoPiece
    else
      match ConvText(At(f, q), fl, prec, len, args[a])
      case Fault => NoPiece
      case Output(t) => Piece(Padded(t, width, fl.left), q + 1, a + 1)
  }

  ghost function Precise(f: string, p: nat, fl: Flags, width: int, args: seq<Arg>, a: nat): (r: Piece)
    requires p <= |f| && INT_MIN <= width <= INT_MAX
    ensures r.Piece? ==> p < r.end <= |f| && r.next >= a
  {
    if At(f, p) != '.' then Conversion(f, p, fl, width, -1, args, a)
    else
      match NumberField(f, p + 1, args, a)
      case NoField => NoPiece
      case Field(prec, q, b) => Conversion(f, q, fl, width, prec, args, b)
  }

  /** The directive behind a percent sign. */
  ghost function Directive(f: string, p: nat, args: seq<Arg>, a: nat): (r: Piece)
    requires p <= |f|
    ensures r.Piece? ==> p < r.end <= |f| && r.next >= a
  {
    var q := FlagsEnd(f, p);
    if !NoneTwice(f, p, q) then NoPiece
    else
      var fl := FlagsOf(f, p, q);
      match NumberField(f, q, args, a)
      case NoField => NoPiece
      case Field(w, r, b) =>
        if !WidthOk(f, q, w) then NoPiece else
        Precise(f, r, fl.(left := fl.left || (At(f, q) == '*' && w < 0)), Width(f, q, w), args, b)
  }

  ghost function Then(t: string, o: Outcome): Outcome {
    if o.Fault? then Fault else Output(t + o.text)
  }

  /** The whole output of f from p on, with the arguments from a on. */
  ghost function Render(f: string, p: nat, args: seq<Arg>, a: nat): Outcome
    requires p <= |f|
    decreases |f| - p
  {
    if At(f, p) == '\0' then Output("")
    else if f[p] != '%' then Then([f[p]], Render(f, p + 1, args, a))
    else
      match Directive(f, p + 1, args, a)
      case NoPiece => Fault
      case Piece(t, q, b) => Then(t, Render(f, q, args, b))
  }
}
