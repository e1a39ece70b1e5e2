/**
 The process's mapped bytes. Where the operating system places a new mapping is
 not under the program's control, so the place is a parameter: any range that is
 not mapped yet.
 */
module AddressSpace {

  const NULL: nat := 0

  ghost predicate Inside(lo: int, x: int, hi: int) {
    lo <= x < hi
  }

  ghost function Range(lo: int, hi: int): set<int> {
    set x | lo <= x < hi && Inside(lo, x, hi)
  }

  function Max(a: int, b: int): int {
    if a < b then b else a
  }

  function Min(a: int, b: int): int {
    if a < b then a else b
  }

  /** ALIGNMENT_CEILING over unbounded integers. */
  function Ceiling(s: nat, alignment: nat): (r: nat)
    requires alignment > 0
    ensures s <= r < s + alignment && r % alignment == 0
  {
    CeilingBounds(s, alignment);
    (s + alignment - 1) / alignment * alignment
  }

  lemma CeilingBounds(s: nat, a: nat)
    requires a > 0
    ensures var r := (s + a - 1) / a * a; s <= r < s + a && r % a == 0
  {
    var q, m := (s + a - 1) / a, (s + a - 1) % a;
    assert s + a - 1 == q * a + m;
    MultipleMod(q, a);
  }

  lemma MultipleMod(q: int, a: int)
    requires a > 0
    ensures q * a % a == 0
  {
    var d, r := q * a / a, q * a % a;
    assert (q - d) * a == r;
    if q - d > 0 {
      TimesAtLeast(q - d, a);
    } else if q - d < 0 {
      TimesAtLeast(d - q, a);
    }
  }

  lemma TimesAtLeast(x: int, a: int)
    requires x >= 1 && a > 0
    ensures x * a >= a
  {
  }

  /** Multiples of a number are closed under addition. */
  lemma AddMod(x: int, y: int, a: int)
    requires a > 0 && x % a == 0 && y % a == 0
    ensures (x + y) % a == 0
  {
    var k, l := x / a, y / a;
    assert x + y == (k + l) * a;
    MultipleMod(k + l, a);
  }

  class Space {
    ghost var mapped: set<int>

    constructor ()
      ensures mapped == {}
    {
      mapped := {};
    }

    /** A new mapping at the place the system chose. */
    method Map(addr: nat, size: nat) returns (r: nat)
      requires Range(addr, addr + size) !! mapped
      modifies this
      ensures r == addr && mapped == old(mapped) + Range(addr, addr + size)
    {
      mapped := mapped + Range(addr, addr + size);
      r := addr;
    }

    method Unmap(addr: nat, size: nat)
      requires Range(addr, addr + size) <= mapped
      modifies this
      ensures mapped == old(mapped) - Range(addr, addr + size)
    {
      mapped := mapped - Range(addr, addr + size);
    }
  }

  /** Trimming both ends of an over-sized mapping leaves the middle. */
  lemma TrimmedMiddle(m: set<int>, lo: int, ret: int, end: int, hi: int)
    requires lo <= ret <= end <= hi && Range(lo, hi) !! m
    ensures m + Range(lo, hi) - Range(lo, ret) - Range(end, hi) == m + Range(ret, end)
    ensures Range(lo, ret) <= m + Range(lo, hi)
    ensures Range(end, hi) <= m + Range(lo, hi) - Range(lo, ret)
  {
  }
}
