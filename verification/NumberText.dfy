/**
 Printing numbers from right to left into a fixed buffer. Numbers are uintmax_t, and
 intmax_t where a sign is printed; the result is the index the text begins at.
 */
module NumberText {
  import opened Bits
  import opened Digits

  /** Room for 64 binary digits and the terminator. */
  const U2S_BUFSIZE: nat := 65
  const LAST: nat := 64
  const NUL: char := '\0'

  const DECIMAL: string := "0123456789"
  const UPPER: string := "0123456789ABCDEFGHIJKLMNOPQRSTUVWXYZ"
  const LOWER: string := "0123456789abcdefghijklmnopqrstuvwxyz"

  lemma UpperIs(d: nat)
    requires d < 36
    ensures UPPER[d] == DigitChar(d, true)
  {
  }

  lemma LowerIs(d: nat)
    requires d < 36
    ensures LOWER[d] == DigitChar(d, false)
  {
  }

  lemma DecimalIs(d: nat, uppercase: bool)
    requires d < 10
    ensures DECIMAL[d] == DigitChar(d, uppercase)
  {
  }

  /** The buffer ends in text t, which begins at start, and the terminator. */
  ghost predicate Holds(s: array<char>, start: nat, t: string)
    reads s
  {
    && s.Length >= U2S_BUFSIZE && start + |t| == LAST
    && s[start..LAST] == t && s[LAST] == NUL
  }

  /** One digit further to the left. */
  lemma DigitPlaced(x: nat, base: nat, uppercase: bool, done: string, whole: string)
    requires 2 <= base <= 36 && whole == Text(x, base, uppercase) + done
    ensures var c := DigitChar(x % base, uppercase);
      whole == (if x / base > 0 then Text(x / base, base, uppercase) else "") + ([c] + done)
  {
    if x >= base {
      DigitOff(x, base);
    } else {
      SmallMod(x, base);
    }
  }

  /** Writes one character in front of the text. */
  method Put(s: array<char>, i: nat, c: char, ghost done: string) returns (j: nat)
    requires i > 0 && Holds(s, i, done)
    modifies s
    ensures j == i - 1 && Holds(s, j, [c] + done)
    ensures forall k :: 0 <= k < s.Length && k != j ==> s[k] == old(s[k])
  {
    j := i - 1;
    s[j] := c;
    assert s[j..LAST] == [s[j]] + s[i..LAST];
  }

  /** The digit loop of every base but sixteen. */
  method Fill(x0: nat, base: nat, ghost uppercase: bool, digits: string, s: array<char>) returns (i: nat)
    requires x0 < WORD && 2 <= base <= 36 && Holds(s, LAST, "")
    requires base <= |digits| && forall d: nat :: d < base ==> digits[d] == DigitChar(d, uppercase)
    modifies s
    ensures Holds(s, i, Text(x0, base, uppercase))
    ensures forall k :: 0 <= k < i || LAST < k < s.Length ==> s[k] == old(s[k])
  {
    ghost var whole, done := Text(x0, base, uppercase), "";
    WordIs();
    TextFits(x0, base, uppercase, 64);
    i := LAST;
    var x: nat, more := x0, true;
    assert whole == Text(x, base, uppercase) + done;
    while more
      invariant Holds(s, i, done)
      invariant whole == (if more then Text(x, base, uppercase) else "") + done
      invariant forall k :: 0 <= k < i || LAST < k < s.Length ==> s[k] == old(s[k])
      decreases more, x
    {
      QuotientLess(x, base);
      DigitPlaced(x, base, uppercase, done, whole);
      var c := digits[x % base];
      i := Put(s, i, c, done);
      done := [c] + done;
      x := x / base;
      more := x > 0;
    }
  }

  lemma QuotientLess(x: nat, d: nat)
    requires d >= 2
    ensures 0 <= x / d <= x && (x > 0 ==> x / d < x)
  {
  }

  /** The digit loop of base sixteen, which masks and shifts. */
  method FillHex(x0: nat, uppercase: bool, s: array<char>) returns (i: nat)
    requires x0 < WORD && Holds(s, LAST, "")
    modifies s
    ensures Holds(s, i, Text(x0, 16, uppercase))
    ensures forall k :: 0 <= k < i || LAST < k < s.Length ==> s[k] == old(s[k])
  {
    ghost var whole, done := Text(x0, 16, uppercase), "";
    WordIs();
    TextFits(x0, 16, uppercase, 64);
    i := LAST;
    var x: nat, more := x0, true;
    assert whole == Text(x, 16, uppercase) + done;
    while more
      invariant Holds(s, i, done)
      invariant whole == (if more then Text(x, 16, uppercase) else "") + done
      invariant forall k :: 0 <= k < i || LAST < k < s.Length ==> s[k] == old(s[k])
      decreases more, x
    {
      DigitPlaced(x, 16, uppercase, done, whole);
      LowNibble(x);
      UpperIs(x % 16);
      LowerIs(x % 16);
      var c := (if uppercase then UPPER else LOWER)[And(x, 0xf)];
      i := Put(s, i, c, done);
      done := [c] + done;
      x := x / 16;
      more := x > 0;
    }
  }

  lemma LowNibble(x: nat)
    ensures And(x, 0xf) == x % 16
  {
    assert Power(4) == 4 * Power(2) == 16;
    LowBits(x, 4);
  }

  /** Prints a number in any base; nothing is written in front of the text. */
  method U2s(x: nat, base: nat, uppercase: bool, s: array<char>) returns (start: nat, slen: nat)
    requires x < WORD && 2 <= base <= 36 && s.Length >= U2S_BUFSIZE
    modifies s
    ensures Holds(s, start, Text(x, base, uppercase)) && slen == |Text(x, base, uppercase)|
    ensures forall k :: 0 <= k < start || LAST < k < s.Length ==> s[k] == old(s[k])
  {
    s[LAST] := NUL;
    if base == 10 {
      forall d: nat | d < 10 ensures DECIMAL[d] == DigitChar(d, uppercase) {
        DecimalIs(d, uppercase);
      }
      start := Fill(x, 10, uppercase, DECIMAL, s);
    } else if base == 16 {
      start := FillHex(x, uppercase, s);
    } else {
      var digits := if uppercase then UPPER else LOWER;
      forall d: nat | d < base ensures digits[d] == DigitChar(d, uppercase) {
        UpperIs(d);
        LowerIs(d);
      }
      start := Fill(x, base, uppercase, digits, s);
    }
    slen := U2S_BUFSIZE - 1 - start;
  }

  /** The numbers an intmax_t holds. */
  ghost predicate Intmax(x: int) {
    -0x8000_0000_0000_0000 <= x < 0x8000_0000_0000_0000
  }

  lemma HalfWidth(x: nat, base: nat, uppercase: bool)
    requires x < WORD && 4 <= base <= 36
    ensures |Text(x, base, uppercase)| <= 32
  {
    WordIs();
    TextFitsHalf(x, base, uppercase, 32);
  }

  method D2s(x: int, sign: char, s: array<char>) returns (start: nat, slen: nat)
    requires Intmax(x) && sign in {'-', ' ', '+'} && s.Length >= U2S_BUFSIZE
    modifies s
    ensures Holds(s, start, DecimalText(x, sign)) && slen == |DecimalText(x, sign)|
    ensures forall k :: 0 <= k < start || LAST < k < s.Length ==> s[k] == old(s[k])
  {
    var neg := x < 0;
    var y := if neg then -x else x;
    HalfWidth(y, 10, false);
    start, slen := U2s(y, 10, false, s);
    var shown := if neg then '-' else sign;
    if !(shown == '-' && !neg) {
      start := Put(s, start, shown, Text(y, 10, false));
      slen := slen + 1;
    }
  }

  method O2s(x: nat, altForm: bool, s: array<char>) returns (start: nat, slen: nat)
    requires x < WORD && s.Length >= U2S_BUFSIZE
    modifies s
    ensures Holds(s, start, OctalText(x, altForm)) && slen == |OctalText(x, altForm)|
    ensures forall k :: 0 <= k < start || LAST < k < s.Length ==> s[k] == old(s[k])
  {
    HalfWidth(x, 8, false);
    LeadingDigit(x, 8, false);
    start, slen := U2s(x, 8, false, s);
    assert s[start] == s[start..LAST][0];
    if altForm && s[start] != '0' {
      start := Put(s, start, '0', Text(x, 8, false));
      slen := slen + 1;
    }
  }

  method X2s(x: nat, altForm: bool, uppercase: bool, s: array<char>) returns (start: nat, slen: nat)
    requires x < WORD && s.Length >= U2S_BUFSIZE
    modifies s
    ensures Holds(s, start, HexText(x, altForm, uppercase)) && slen == |HexText(x, altForm, uppercase)|
    ensures forall k :: 0 <= k < start || LAST < k < s.Length ==> s[k] == old(s[k])
  {
    HalfWidth(x, 16, uppercase);
    start, slen := U2s(x, 16, uppercase, s);
    if altForm {
      ghost var t := Text(x, 16, uppercase);
      var letter := if uppercase then 'X' else 'x';
      start := Put(s, start, letter, t);
      start := Put(s, start, '0', [letter] + t);
      assert ['0'] + ([letter] + t) == ['0', letter] + t;
      slen := slen + 2;
    }
  }
}
