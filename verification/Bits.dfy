/**
 Bitwise operators on machine words, and what the alignment macros compute with them.
 */
module Bits {
  import opened AddressSpace

  /** One more than the largest size_t. */
  const WORD: nat := 0x1_0000_0000_0000_0000

  /** The & operator. */
  function And(x: nat, y: nat): (r: nat)
    ensures r <= x && r <= y
  {
    if x == 0 || y == 0 then 0 else 2 * And(x / 2, y / 2) + if x % 2 == 1 && y % 2 == 1 then 1 else 0
  }

  /** The | operator. */
  function Or(x: nat, y: nat): (r: nat)
    ensures r >= x && r >= y
    decreases x + y
  {
    if x == 0 then y else if y == 0 then x
    else 2 * Or(x / 2, y / 2) + if x % 2 == 1 || y % 2 == 1 then 1 else 0
  }

  /** size_t negation. */
  function Neg(x: nat): nat {
    if x % WORD == 0 then 0 else WORD - x % WORD
  }

  function Power(k: nat): (r: nat)
    ensures r > 0
  {
    if k == 0 then 1 else 2 * Power(k - 1)
  }

  /** Masking with 2^k - 1 keeps the low k bits. */
  lemma {:induction false} LowBits(x: nat, k: nat)
    ensures And(x, Power(k) - 1) == x % Power(k)
    decreases k
  {
    if x == 0 {
      SmallMod(0, Power(k));
    } else if k > 0 {
      LowBits(x / 2, k - 1);
      LowBitsStep(x, Power(k - 1));
    }
  }

  lemma LowBitsStep(x: nat, p: nat)
    requires x > 0 && p > 0 && And(x / 2, p - 1) == x / 2 % p
    ensures And(x, 2 * p - 1) == x % (2 * p)
  {
    AndStep(x, p);
    HalfOf(x, p);
  }

  lemma AndStep(x: nat, p: nat)
    requires x > 0 && p > 0
    ensures And(x, 2 * p - 1) == 2 * And(x / 2, p - 1) + x % 2
  {
  }

  lemma HalfOf(x: nat, p: nat)
    requires p > 0
    ensures x % (2 * p) == 2 * (x / 2 % p) + x % 2
  {
    var q, m := x / 2 / p, x / 2 % p;
    assert x / 2 == q * p + m;
    assert x == 2 * (q * p + m) + x % 2;
    assert x == q * (2 * p) + (2 * m + x % 2);
    QuotientIs(x, 2 * p, q, 2 * m + x % 2);
  }

  lemma QuotientIs(x: nat, d: nat, q: nat, r: nat)
    requires d > 0 && r < d && x == q * d + r
    ensures x / d == q && x % d == r
  {
    var q', r' := x / d, x % d;
    assert (q - q') * d == r' - r;
    if q > q' {
      TimesAtLeast(q - q', d);
    } else if q < q' {
      TimesAtLeast(q' - q, d);
    }
  }

  /** Masking with 2^n - 2^k clears the low k bits of an n-bit word. */
  lemma {:induction false} HighBits(x: nat, k: nat, n: nat)
    requires k <= n && x < Power(n)
    ensures Power(k) <= Power(n)
    ensures And(x, Power(n) - Power(k)) == x - x % Power(k)
    decreases n
  {
    if k == n {
      SmallMod(x, Power(k));
    } else if k > 0 {
      HighBits(x / 2, k - 1, n - 1);
      assert Power(n) - Power(k) == 2 * (Power(n - 1) - Power(k - 1));
      HighBitsStep(x, Power(k - 1), Power(n - 1) - Power(k - 1));
    } else {
      LowBits(x, n);
      SmallMod(x, Power(n));
    }
  }

  lemma HighBitsStep(x: nat, p: nat, y: nat)
    requires 0 < p && And(x / 2, y) == x / 2 - x / 2 % p
    ensures And(x, 2 * y) == x - x % (2 * p)
  {
    HalfOf(x, p);
    AndDouble(x, y);
    Halved(x);
  }

  lemma Halved(x: nat)
    ensures x == 2 * (x / 2) + x % 2
  {
  }

  lemma AndDouble(x: nat, y: nat)
    ensures And(x, 2 * y) == 2 * And(x / 2, y)
  {
    if x > 0 && y > 0 {
      assert 2 * y / 2 == y && 2 * y % 2 == 0;
      AndUnfolds(x, 2 * y);
    }
  }

  lemma AndUnfolds(x: nat, y: nat)
    requires x > 0 && y > 0
    ensures And(x, y) == 2 * And(x / 2, y / 2) + if x % 2 == 1 && y % 2 == 1 then 1 else 0
  {
  }

  lemma SmallMod(x: nat, p: nat)
    requires x < p
    ensures x % p == x
  {
  }

  lemma {:induction false} PowerSum(j: nat, k: nat)
    ensures Power(j + k) == Power(j) * Power(k)
    decreases j
  {
    if j > 0 {
      PowerSum(j - 1, k);
      TwiceProduct(Power(j - 1), Power(k));
    }
  }

  lemma TwiceProduct(a: nat, b: nat)
    ensures 2 * (a * b) == (2 * a) * b
  {
  }

  lemma WordIs()
    ensures Power(64) == WORD
  {
    assert Power(2) == 4;
    PowerSum(2, 2);
    PowerSum(4, 4);
    PowerSum(8, 8);
    PowerSum(16, 16);
    PowerSum(32, 32);
  }

  /** ALIGNMENT_ADDR2OFFSET. */
  function OffsetOf(a: nat, alignment: nat): nat
    requires alignment > 0
  {
    And(a, alignment - 1)
  }

  /** ALIGNMENT_CEILING, in size_t arithmetic. */
  function CeilingOf(s: nat, alignment: nat): nat
    requires alignment > 0
  {
    And((s + (alignment - 1)) % WORD, Neg(alignment))
  }

  ghost predicate PowerOfTwo(a: nat) {
    exists k: nat :: k < 64 && a == Power(k)
  }

  lemma OffsetIs(a: nat, alignment: nat)
    requires PowerOfTwo(alignment)
    ensures OffsetOf(a, alignment) == a % alignment
  {
    var k: nat :| k < 64 && alignment == Power(k);
    LowBits(a, k);
  }

  lemma {:induction false} PowerMonotone(k: nat, n: nat)
    requires k < n
    ensures 2 * Power(k) <= Power(n)
  {
    if k < n - 1 {
      PowerMonotone(k, n - 1);
    }
  }

  lemma CeilingByMod(s: nat, a: nat)
    requires a > 0
    ensures Ceiling(s, a) == s + (a - 1) - (s + (a - 1)) % a
  {
    var t := s + (a - 1);
    assert t == t / a * a + t % a;
  }

  lemma Masked(t: nat, k: nat)
    requires k < 64 && t < WORD
    ensures And(t, Neg(Power(k))) == t - t % Power(k)
  {
    WordIs();
    PowerMonotone(k, 64);
    SmallMod(Power(k), WORD);
    HighBits(t, k, 64);
  }

  /** The macro rounds up, as long as the rounded address is a machine word; past that it yields zero. */
  lemma CeilingIs(s: nat, alignment: nat)
    requires PowerOfTwo(alignment) && s < WORD
    ensures CeilingOf(s, alignment) == if Ceiling(s, alignment) < WORD then Ceiling(s, alignment) else 0
  {
    var k: nat :| k < 64 && alignment == Power(k);
    var t := s + (alignment - 1);
    CeilingByMod(s, alignment);
    Masked(t % WORD, k);
    if t < WORD {
      SmallMod(t, WORD);
    } else {
      WordIs();
      PowerMonotone(k, 64);
      QuotientIs(t, WORD, 1, t - WORD);
      SmallMod(t - WORD, alignment);
      WordMultiple(k);
      WrapsToZero(s, alignment);
    }
  }

  lemma {:induction false} MultipleOfPower(k: nat, n: nat) returns (m: nat)
    requires k <= n
    ensures Power(n) == m * Power(k)
  {
    if k == n {
      m := 1;
    } else {
      var m' := MultipleOfPower(k, n - 1);
      m := 2 * m';
    }
  }

  lemma WordMultiple(k: nat)
    requires k < 64
    ensures WORD % Power(k) == 0
  {
    WordIs();
    var m := MultipleOfPower(k, 64);
    MultipleMod(m, Power(k));
  }

  /** A ceiling past the end of the words is exactly one word beyond zero. */
  lemma WrapsToZero(s: nat, a: nat)
    requires a > 0 && WORD % a == 0 && s < WORD <= s + (a - 1)
    ensures Ceiling(s, a) == WORD
  {
    var c, q := Ceiling(s, a), WORD / a;
    var p := c / a;
    assert c == p * a && WORD == q * a;
    if p > q {
      TimesAtLeast(p - q, a);
    } else if p < q {
      TimesAtLeast(q - p, a);
    }
  }
}
