/**
 Aligned mappings: try the exact size first, and fall back to an over-sized mapping whose
 two ends are trimmed off. Addresses and sizes are size_t. Where the system places a
 mapping is a parameter; NULL stands for a mapping that fails.
 */
module ChunkMmap {
  import opened AddressSpace
  import opened Bits

  const PAGE: nat := 4096
  /** Somewhere the system may place size bytes: on a page, below the end of the words, and not mapped yet. */
  ghost predicate Placeable(addr: nat, size: nat, mapped: set<int>) {
    && addr % PAGE == 0 && addr + size < WORD
    && Range(addr, addr + size) !! mapped
  }

  method PagesMap(space: Space, addr: nat, size: nat) returns (ret: nat)
    requires addr != NULL ==> Placeable(addr, size, space.mapped)
    modifies space
    ensures ret == addr
    ensures space.mapped == old(space.mapped) + if addr != NULL then Range(addr, addr + size) else {}
  {
    ret := NULL;
    if addr != NULL {
      ret := space.Map(addr, size);
    }
  }

  /** Unmaps what lies before and behind the aligned middle. */
  method PagesTrim(space: Space, addr: nat, allocSize: nat, leadSize: nat, size: nat, ghost m: set<int>) returns (ret: nat)
    requires allocSize >= leadSize + size
    requires Range(addr, addr + allocSize) !! m && space.mapped == m + Range(addr, addr + allocSize)
    modifies space
    ensures ret == addr + leadSize && space.mapped == m + Range(ret, ret + size)
  {
    ret := addr + leadSize;
    var trailSize := allocSize - leadSize - size;
    TrimmedMiddle(m, addr, ret, ret + size, addr + allocSize);
    if leadSize != 0 {
      space.Unmap(addr, leadSize);
    }
    if trailSize != 0 {
      space.Unmap(ret + size, trailSize);
    }
  }

  /** The size of the over-sized mapping, as size_t arithmetic yields it. */
  function AllocSize(size: nat, alignment: nat): nat
    requires alignment >= PAGE
  {
    (size + alignment - PAGE) % WORD
  }

  ghost predicate Request(size: nat, alignment: nat) {
    && 0 < size < WORD && size % PAGE == 0
    && PAGE <= alignment < WORD && alignment % PAGE == 0 && PowerOfTwo(alignment)
  }

  /** The wrap-around test fires exactly when the sum is not a size_t. */
  lemma WrapTestExact(size: nat, alignment: nat)
    requires size < WORD && PAGE <= alignment < WORD
    ensures AllocSize(size, alignment) < size <==> size + alignment - PAGE >= WORD
    ensures size + alignment - PAGE < WORD ==> AllocSize(size, alignment) == size + alignment - PAGE
  {
    var t := size + alignment - PAGE;
    if t < WORD {
      SmallMod(t, WORD);
    } else {
      QuotientIs(t, WORD, 1, t - WORD);
    }
  }

  /** Page-aligned numbers less than d apart are at most d - PAGE apart. */
  lemma PageGap(x: nat, y: nat, d: nat)
    requires x % PAGE == 0 && y % PAGE == 0 && d % PAGE == 0 && x <= y < x + d
    ensures y + PAGE <= x + d
  {
    var i, j, k := x / PAGE, y / PAGE, d / PAGE;
    assert x == i * PAGE && y == j * PAGE && d == k * PAGE;
    assert j < i + k;
  }

  lemma MultipleOfPage(c: nat, alignment: nat)
    requires alignment > 0 && c % alignment == 0 && alignment % PAGE == 0
    ensures c % PAGE == 0
  {
    var i, j := c / alignment, alignment / PAGE;
    assert c == i * alignment && alignment == j * PAGE;
    assert c == (i * j) * PAGE;
  }

  /** The over-sized mapping has room for an aligned block wherever it is placed. */
  lemma AlignedBlockFits(pages: nat, size: nat, alignment: nat)
    requires pages % PAGE == 0 && size > 0 && size % PAGE == 0 && alignment >= PAGE && alignment % PAGE == 0
    ensures Ceiling(pages, alignment) + size <= pages + (size + alignment - PAGE)
  {
    MultipleOfPage(Ceiling(pages, alignment), alignment);
    PageGap(pages, Ceiling(pages, alignment), alignment);
  }

  method ChunkAllocMmapSlow(space: Space, size: nat, alignment: nat, zero: bool, addr: nat)
    returns (ret: nat, zero': bool)
    requires Request(size, alignment)
    requires addr != NULL && size + alignment - PAGE < WORD ==>
      Placeable(addr, size + alignment - PAGE, space.mapped)
    modifies space
    ensures ret == NULL <==> addr == NULL || size + alignment - PAGE >= WORD
    ensures ret == NULL ==> space.mapped == old(space.mapped) && zero' == zero
    ensures ret != NULL ==>
      && ret % alignment == 0 && zero'
      && Range(ret, ret + size) !! old(space.mapped)
      && space.mapped == old(space.mapped) + Range(ret, ret + size)
  {
    ghost var m := space.mapped;
    WrapTestExact(size, alignment);
    zero' := zero;
    var allocSize := AllocSize(size, alignment);
    if allocSize < size {
      return NULL, zero';
    }
    ret := NULL;
    while ret == NULL
      invariant ret == NULL ==> space.mapped == m
      invariant ret != NULL ==>
        && addr != NULL && ret % alignment == 0
        && Range(ret, ret + size) !! m && space.mapped == m + Range(ret, ret + size)
      decreases if ret == NULL then 1 else 0
    {
      var pages := PagesMap(space, addr, allocSize);
      if pages == NULL {
        return NULL, zero';
      }
      CeilingIs(pages, alignment);
      AlignedBlockFits(pages, size, alignment);
      var leadSize := CeilingOf(pages, alignment) - pages;
      ret := PagesTrim(space, pages, allocSize, leadSize, size, m);
      assert Range(ret, ret + size) <= Range(pages, pages + allocSize);
    }
    zero' := true;
  }

  /** Maps exactly size bytes on an alignment boundary, or nothing. */
  method ChunkAllocMmap(space: Space, size: nat, alignment: nat, zero: bool, addr1: nat, addr2: nat)
    returns (ret: nat, zero': bool)
    requires Request(size, alignment)
    requires addr1 != NULL ==> Placeable(addr1, size, space.mapped)
    requires addr2 != NULL && size + alignment - PAGE < WORD ==>
      Placeable(addr2, size + alignment - PAGE, space.mapped)
    modifies space
    ensures ret == NULL <==>
      addr1 == NULL || (addr1 % alignment != 0 && (addr2 == NULL || size + alignment - PAGE >= WORD))
    ensures addr1 != NULL && addr1 % alignment == 0 ==> ret == addr1
    ensures ret == NULL ==> space.mapped == old(space.mapped) && zero' == zero
    ensures ret != NULL ==>
      && ret % alignment == 0 && zero'
      && Range(ret, ret + size) !! old(space.mapped)
      && space.mapped == old(space.mapped) + Range(ret, ret + size)
  {
    ghost var m := space.mapped;
    zero' := zero;
    ret := PagesMap(space, addr1, size);
    if ret == NULL {
      return NULL, zero';
    }
    OffsetIs(ret, alignment);
    var offset := OffsetOf(ret, alignment);
    if offset != 0 {
      space.Unmap(ret, size);
      assert space.mapped == m;
      ret, zero' := ChunkAllocMmapSlow(space, size, alignment, zero, addr2);
    } else {
      zero' := true;
    }
  }
}
