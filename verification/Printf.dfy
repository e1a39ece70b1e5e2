/**
 Formatted output into a buffer of limited size, refining PrintfModel: characters that do
 not fit are counted but not stored.
 */
module Printf {
  import opened AddressSpace
  import opened Bits
  import opened Digits
  import opened StrToUmax
  import opened NumberText
  import opened PrintfModel

  /** Of the i characters of out, the buffer holds those that fit. */
  ghost predicate Held(str: array<char>, size: nat, i: nat, out: string)
    reads str
  {
    size <= str.Length && i == |out| && str[..Min(i, size)] == out[..Min(i, size)]
  }

  method AppendC(str: array<char>, size: nat, i: nat, c: char, ghost out: string) returns (j: nat)
    requires Held(str, size, i, out)
    modifies str
    ensures Held(str, size, j, out + [c])
    ensures str[size..] == old(str[size..])
  {
    if i < size {
      str[i] := c;
      assert str[..i + 1] == str[..i] + [c];
    }
    j := i + 1;
  }

  method AppendS(str: array<char>, size: nat, i: nat, s: string, slen: nat, ghost out: string) returns (j: nat)
    requires Held(str, size, i, out) && slen <= |s|
    modifies str
    ensures Held(str, size, j, out + s[..slen])
    ensures str[size..] == old(str[size..])
  {
    if i < size {
      var cpylen := if slen <= size - i then slen else size - i;
      for k := 0 to cpylen
        invariant str[..i + k] == out + s[..k] && str[size..] == old(str[size..])
      {
        str[i + k] := s[k];
        assert str[..i + (k + 1)] == str[..i + k] + [s[k]];
        assert s[..k + 1] == s[..k] + [s[k]];
      }
    }
    j := i + slen;
  }

  method AppendBlanks(str: array<char>, size: nat, i: nat, n: nat, ghost out: string) returns (j: nat)
    requires Held(str, size, i, out)
    modifies str
    ensures Held(str, size, j, out + Blanks(n))
    ensures str[size..] == old(str[size..])
  {
    j := i;
    assert out + Blanks(0) == out;
    for k := 0 to n
      invariant Held(str, size, j, out + Blanks(k)) && str[size..] == old(str[size..])
    {
      j := AppendC(str, size, j, ' ', out + Blanks(k));
      assert out + Blanks(k) + [' '] == out + Blanks(k + 1);
    }
  }

  method AppendPadded(str: array<char>, size: nat, i: nat, s: string, slen: nat, width: int, left: bool, ghost out: string)
    returns (j: nat)
    requires Held(str, size, i, out) && slen <= |s| && INT_MIN <= width <= INT_MAX
    modifies str
    ensures Held(str, size, j, out + Padded(s[..slen], width, left))
    ensures str[size..] == old(str[size..])
  {
    var padLen := PadLen(slen, width);
    ghost var t, pad := s[..slen], Blanks(padLen);
    if left {
      j := AppendS(str, size, i, s, slen, out);
      j := AppendBlanks(str, size, j, padLen, out + t);
      assert (out + t) + pad == out + (t + pad);
    } else {
      j := AppendBlanks(str, size, i, padLen, out);
      j := AppendS(str, size, j, s, slen, out + pad);
      assert (out + pad) + t == out + (pad + t);
    }
  }

  // ---------------------------------------------------------------- directives

  method ParseFlags(f: string, p0: nat) returns (p: nat, fl: Flags, ok: bool)
    requires p0 <= |f|
    ensures ok <==> NoneTwice(f, p0, FlagsEnd(f, p0))
    ensures ok ==> p == FlagsEnd(f, p0) && fl == FlagsOf(f, p0, p)
  {
    p, fl, ok := p0, Flags(false, false, false, false), true;
    while IsFlag(At(f, p))
      invariant p0 <= p <= |f| && FlagsEnd(f, p0) == FlagsEnd(f, p)
      invariant NoneTwice(f, p0, p) && fl == FlagsOf(f, p0, p)
      decreases |f| - p
    {
      FlagAdded(f, p0, p);
      match f[p] {
        case '#' =>
          if fl.alt { return p, fl, false; }
          fl := fl.(alt := true);
        case '-' =>
          if fl.left { return p, fl, false; }
          fl := fl.(left := true);
        case ' ' =>
          if fl.space { return p, fl, false; }
          fl := fl.(space := true);
        case _ =>
          if fl.plus { return p, fl, false; }
          fl := fl.(plus := true);
      }
      p := p + 1;
    }
  }

  /** One more flag. */
  lemma FlagAdded(f: string, lo: nat, p: nat)
    requires lo <= p < |f| && NoneTwice(f, lo, p) && IsFlag(f[p])
    ensures forall c :: Has(f, lo, p + 1, c) <==> Has(f, lo, p, c) || c == f[p]
    ensures NoneTwice(f, lo, p + 1) <==> !Has(f, lo, p, f[p])
    ensures Has(f, lo, p, f[p]) ==> !NoneTwice(f, lo, FlagsEnd(f, p))
  {
    forall c | Has(f, lo, p, c) || c == f[p] ensures Has(f, lo, p + 1, c) {
      if Has(f, lo, p, c) {
        var i :| lo <= i < p && f[i] == c;
        assert f[i] == c;
      }
    }
    if Has(f, lo, p, f[p]) {
      var i :| lo <= i < p && f[i] == f[p];
      assert FlagsEnd(f, p) > p;
    }
  }

  method ParseNumber(f: string, p: nat, args: seq<Arg>, a: nat) returns (value: int, q: nat, b: nat, ok: bool)
    requires p <= |f|
    ensures ok <==> NumberField(f, p, args, a).Field?
    ensures ok ==> NumberField(f, p, args, a) == Field(value, q, b)
  {
    value, q, b, ok := -1, p, a, true;
    if At(f, p) == '*' {
      ok := a < |args| && args[a].Num? && INT_MIN <= args[a].x <= INT_MAX;
      if ok {
        value, q, b := args[a].x, p + 1, a + 1;
      }
    } else if IsDigit(At(f, p)) {
      var ret, end, err := StrToUmax.StrToUmax(f[p..], 10);
      ReadingIs(f[p..], 10, ret, end, err);
      ok := err != ERANGE;
      value, q := ToInt(ret), p + end;
    }
  }

  method ParseLength(f: string, p: nat) returns (len: Length, q: nat)
    requires p <= |f|
    ensures (len, q) == LengthOf(f, p)
  {
    match At(f, p) {
      case 'l' =>
        q := p + 1;
        if At(f, q) == 'l' {
          len, q := LongLong, q + 1;
        } else {
          len := Long;
        }
      case 'q' => len, q := LongLong, p + 1;
      case 'j' => len, q := Intmax, p + 1;
      case 't' => len, q := Ptrdiff, p + 1;
      case 'z' => len, q := Size, p + 1;
      case _ => len, q := Plain, p;
    }
  }

  predicate IsText(c: char) {
    c == 'c' || c == 's'
  }

  method ConvertText(c: char, fl: Flags, prec: int, len: Length, arg: Arg) returns (s: string, slen: nat, ok: bool)
    requires IsText(c)
    ensures ok <==> ConvText(c, fl, prec, len, arg).Output?
    ensures ok ==> slen <= |s| && s[..slen] == ConvText(c, fl, prec, len, arg).text
  {
    s, slen := "", 0;
    if c == 'c' {
      ok := arg.Num? && SignedOk(Plain, arg.x) && TextLength(len);
      if ok {
        s, slen := [(arg.x % 256) as char], 1;
      }
    } else {
      ok := arg.Str? && TextLength(len) && prec <= |arg.s|;
      if ok {
        s, slen := arg.s, if prec < 0 then |arg.s| else prec;
      }
    }
  }

  method ConvertDecimal(c: char, fl: Flags, prec: int, len: Length, x: int) returns (s: string, slen: nat, ok: bool)
    requires c == 'd' || c == 'i' || c == 'u'
    ensures ok <==> ConvText(c, fl, prec, len, Num(x)).Output?
    ensures ok ==> slen <= |s| && s[..slen] == ConvText(c, fl, prec, len, Num(x)).text
  {
    var buf := new char[U2S_BUFSIZE + 1];
    var start := LAST;
    slen := 0;
    if c == 'u' {
      ok := UnsignedOk(len, x);
      if ok {
        start, slen := U2s(x, 10, false, buf);
      }
    } else {
      ok := SignedOk(len, x);
      if ok {
        start, slen := D2s(x, if fl.plus then '+' else if fl.space then ' ' else '-', buf);
      }
    }
    s := if ok then buf[start..LAST] else "";
  }

  method ConvertHex(c: char, fl: Flags, prec: int, len: Length, x: int) returns (s: string, slen: nat, ok: bool)
    requires c == 'x' || c == 'X' || c == 'p'
    ensures ok <==> ConvText(c, fl, prec, len, Num(x)).Output?
    ensures ok ==> slen <= |s| && s[..slen] == ConvText(c, fl, prec, len, Num(x)).text
  {
    s, slen, ok := "", 0, UnsignedOk(if c == 'p' then Size else len, x);
    if ok {
      s, slen := HexOf(x, c == 'p' || fl.alt, c == 'X');
    }
  }

  method HexOf(x: nat, altForm: bool, uppercase: bool) returns (s: string, slen: nat)
    requires x < WORD
    ensures s == HexText(x, altForm, uppercase) && slen == |s|
  {
    var buf := new char[U2S_BUFSIZE + 2];
    var start;
    start, slen := X2s(x, altForm, uppercase, buf);
    s := buf[start..LAST];
  }

  method ConvertNumber(c: char, fl: Flags, prec: int, len: Length, x: int) returns (s: string, slen: nat, ok: bool)
    requires !IsText(c)
    ensures ok <==> ConvText(c, fl, prec, len, Num(x)).Output?
    ensures ok ==> slen <= |s| && s[..slen] == ConvText(c, fl, prec, len, Num(x)).text
  {
    if c == 'd' || c == 'i' || c == 'u' {
      s, slen, ok := ConvertDecimal(c, fl, prec, len, x);
    } else if c == 'x' || c == 'X' || c == 'p' {
      s, slen, ok := ConvertHex(c, fl, prec, len, x);
    } else {
      s, slen, ok := "", 0, c == 'o' && UnsignedOk(len, x);
      if ok {
        var buf := new char[U2S_BUFSIZE + 1];
        var start;
        start, slen := O2s(x, fl.alt, buf);
        s := buf[start..LAST];
      }
    }
  }

  /** The characters a conversion appends are the first slen of s. */
  method ConvertArg(c: char, fl: Flags, prec: int, len: Length, arg: Arg) returns (s: string, slen: nat, ok: bool)
    ensures ok <==> ConvText(c, fl, prec, len, arg).Output?
    ensures ok ==> slen <= |s| && s[..slen] == ConvText(c, fl, prec, len, arg).text
  {
    if IsText(c) {
      s, slen, ok := ConvertText(c, fl, prec, len, arg);
    } else if arg.Num? {
      s, slen, ok := ConvertNumber(c, fl, prec, len, arg.x);
    } else {
      s, slen, ok := "", 0, false;
    }
  }

  method ConvertOne(str: array<char>, size: nat, i: nat, f: string, p: nat, fl: Flags, width: int, prec: int,
                    args: seq<Arg>, a: nat, ghost out: string)
    returns (j: nat, q: nat, b: nat, ok: bool)
    requires Held(str, size, i, out) && p <= |f| && INT_MIN <= width <= INT_MAX
    modifies str
    ensures str[size..] == old(str[size..])
    ensures var r := Conversion(f, p, fl, width, prec, args, a);
      && (ok <==> r.Piece?)
      && (ok ==> Held(str, size, j, out + r.text) && q == r.end && b == r.next)
  {
    var len, c;
    len, q := ParseLength(f, p);
    c, j, b := At(f, q), i, a;
    if c == '%' {
      j := AppendC(str, size, i, c, out);
      return j, q + 1, a, true;
    }
    if a >= |args| {
      return j, q, b, false;
    }
    var s, slen;
    s, slen, ok := ConvertArg(c, fl, prec, len, args[a]);
    if ok {
      j := AppendPadded(str, size, i, s, slen, width, fl.left, out);
      q, b := q + 1, a + 1;
    }
  }

  method PreciseAt(str: array<char>, size: nat, i: nat, f: string, p: nat, fl: Flags, width: int,
                   args: seq<Arg>, a: nat, ghost out: string)
    returns (j: nat, q: nat, b: nat, ok: bool)
    requires Held(str, size, i, out) && p <= |f| && INT_MIN <= width <= INT_MAX
    modifies str
    ensures str[size..] == old(str[size..])
    ensures var r := Precise(f, p, fl, width, args, a);
      && (ok <==> r.Piece?)
      && (ok ==> Held(str, size, j, out + r.text) && q == r.end && b == r.next)
  {
    var prec := -1;
    j, q, b := i, p, a;
    if At(f, p) == '.' {
      prec, q, b, ok := ParseNumber(f, p + 1, args, a);
      if !ok {
        return;
      }
    }
    j, q, b, ok := ConvertOne(str, size, i, f, q, fl, width, prec, args, b, out);
  }

  method DirectiveAt(str: array<char>, size: nat, i: nat, f: string, p: nat, args: seq<Arg>, a: nat, ghost out: string)
    returns (j: nat, q: nat, b: nat, ok: bool)
    requires Held(str, size, i, out) && p <= |f|
    modifies str
    ensures str[size..] == old(str[size..])
    ensures var r := Directive(f, p, args, a);
      && (ok <==> r.Piece?)
      && (ok ==> Held(str, size, j, out + r.text) && q == r.end && b == r.next)
  {
    var fl, width;
    j, b := i, a;
    q, fl, ok := ParseFlags(f, p);
    if !ok {
      return;
    }
    var star := At(f, q) == '*';
    width, q, b, ok := ParseNumber(f, q, args, a);
    if !ok || (star && width == INT_MIN) {
      return j, q, b, false;
    }
    if star && width < 0 {
      fl, width := fl.(left := true), -width;
    }
    j, q, b, ok := PreciseAt(str, size, i, f, q, fl, width, args, b, out);
  }

  /** Terminates what the buffer holds. */
  method Finish(str: array<char>, size: nat, i: nat, ghost out: string) returns (ret: int)
    requires Held(str, size, i, out) && size > 0
    modifies str
    ensures var n := Min(|out|, size - 1);
      ret == ToInt(|out|) && str[..n] == out[..n] && str[n] == '\0'
    ensures str[size..] == old(str[size..])
  {
    ghost var n := Min(i, size - 1);
    assert str[..n] == str[..Min(i, size)][..n] && out[..n] == out[..Min(i, size)][..n];
    if i < size {
      str[i] := '\0';
    } else {
      str[size - 1] := '\0';
    }
    ret := ToInt(i);
  }

  /** Returns the length of the whole output, stores as much of it as fits, and terminates it. */
  method VSnprintf(str: array<char>, size: nat, format: string, args: seq<Arg>) returns (ret: int, ok: bool)
    requires 0 < size <= str.Length
    modifies str
    ensures ok <==> Render(format, 0, args, 0).Output?
    ensures ok ==>
      var out := Render(format, 0, args, 0).text;
      var n := Min(|out|, size - 1);
      ret == ToInt(|out|) && str[..n] == out[..n] && str[n] == '\0'
    ensures str[size..] == old(str[size..])
  {
    var i: nat, p: nat, a: nat := 0, 0, 0;
    ghost var out := "";
    ret, ok := 0, true;
    while At(format, p) != '\0'
      invariant p <= |format| && Held(str, size, i, out) && ok
      invariant Render(format, 0, args, 0) == Then(out, Render(format, p, args, a))
      invariant str[size..] == old(str[size..])
      decreases |format| - p
    {
      ghost var rest := Render(format, p, args, a);
      if format[p] == '%' {
        ghost var r := Directive(format, p + 1, args, a);
        i, p, a, ok := DirectiveAt(str, size, i, format, p + 1, args, a, out);
        if !ok {
          return;
        }
        ThenThen(out, r.text, Render(format, p, args, a));
        out := out + r.text;
      } else {
        ThenThen(out, [format[p]], Render(format, p + 1, args, a));
        i := AppendC(str, size, i, format[p], out);
        out := out + [format[p]];
        p := p + 1;
      }
    }
    assert out + "" == out;
    ret := Finish(str, size, i, out);
  }

  lemma ThenThen(a: string, b: string, o: Outcome)
    ensures Then(a, Then(b, o)) == Then(a + b, o)
  {
    if o.Output? {
      assert a + (b + o.text) == (a + b) + o.text;
    }
  }
}
