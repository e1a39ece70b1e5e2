/**
 What requests and frees do to an arena, told from addresses and counts alone: when a chunk or a
 sub-region is used further, where the payload begins, and what nothing else changes.
 */
module ArenaLaws {
  import opened AddressSpace
  import opened ArenaModel

  /** size bytes at the tail of a chunk end inside it. */
  ghost predicate EndsInside(paddr: nat, tail: nat, size: nat) {
    tail + size <= paddr + PoolModel.CHUNK_SIZE
  }

  // ---------------------------------------------------------------- large requests

  /** The request with its header, rounded up to the next multiple of eight. */
  lemma NeedExactly(size: nat)
    ensures LargeNeed(size) % 8 == 0 && size + 8 <= LargeNeed(size) < size + 16
  {
  }

  /** The newest log chunk takes the region behind its last one. */
  ghost predicate LogContinued(s: ArenaState, t: ArenaState, need: nat, place: nat) {
    var n := |s.logs|;
    && n > 0 && |t.logs| == n && t.pool == s.pool
    && (forall i :: 0 <= i < n - 1 ==> t.logs[i] == s.logs[i])
    && var c, d := s.logs[n - 1], t.logs[n - 1];
       && d.paddr == c.paddr && d.tail == c.tail + need && d.live == c.live && d.dirty == c.dirty
       && d.regions == c.regions + [Region(c.tail, need, false)]
       && place == c.tail + 8
  }

  /** A chunk from the pool takes the region as its first; only this chunk is live. */
  ghost predicate LogStarted(s: ArenaState, t: ArenaState, need: nat, base: nat, place: nat) {
    var n, p := |s.logs|, NextChunk(s, base);
    && |t.logs| == n + 1 && t.pool == PoolModel.Allocated(s.pool, base) != s.pool
    && (forall i :: 0 <= i < n ==> t.logs[i] == s.logs[i].(live := i < n - 1 && s.logs[i].live))
    && var d := t.logs[n];
       && d.paddr == p && d.tail == p + 8 + need && d.live && d.dirty == 0
       && d.regions == [Region(p + 8, need, false)]
       && place == p + 16
  }

  ghost predicate SameSlabs(s: ArenaState, t: ArenaState) {
    t.slabs == s.slabs && t.sregions == s.sregions && t.cur == s.cur
  }

  lemma PoolMoves(pool: PoolModel.PoolState, base: nat)
    ensures PoolModel.Allocated(pool, base) != pool
  {
    assert PoolModel.Allocated(pool, base).used == pool.used + 1;
  }

  /** A region goes into the newest log chunk exactly if it ends inside it there, and else starts a new one. */
  lemma LargeExactly(s: ArenaState, need: nat, base: nat)
    requires s.logs != [] ==> LogOk(s.logs[|s.logs| - 1])
    ensures var t, place, n := RegionAllocated(s, need, base), RegionPlace(s, need, base), |s.logs|;
      && SameSlabs(s, t)
      && if n > 0 && EndsInside(s.logs[n - 1].paddr, s.logs[n - 1].tail, need)
         then LogContinued(s, t, need, place) else LogStarted(s, t, need, base, place)
  {
    PoolMoves(s.pool, base);
    if s.logs != [] {
      var c := s.logs[|s.logs| - 1];
      TiledBounds(c.regions, c.paddr + HEADER, c.tail);
    }
    RetireLastIs(s.logs);
  }

  // ---------------------------------------------------------------- small requests

  /** One more slab behind the last one ends inside the sub-region. */
  ghost predicate SlabFits(r: SRegion) {
    8 + (r.count + 1) * (16 + r.size) <= 1024
  }

  /** Where sub-region r of slab chunk c begins. */
  ghost function SubAddr(c: SlabChunk, k: nat): nat {
    c.paddr + 8 + 1024 * k
  }

  /** The current sub-region of the class takes the slab behind its last one. */
  ghost predicate SlabAdded(s: ArenaState, t: ArenaState, cls: nat, place: nat)
    requires cls < |s.cur| && s.cur[cls].Some? && s.cur[cls].value < |s.sregions|
  {
    var i := s.cur[cls].value;
    var r := s.sregions[i];
    && t.pool == s.pool && t.logs == s.logs && t.slabs == s.slabs && t.cur == s.cur
    && |t.sregions| == |s.sregions| && (forall j :: 0 <= j < |s.sregions| && j != i ==> t.sregions[j] == s.sregions[j])
    && t.sregions[i] == SRegion(r.home, r.k, r.size, r.count + 1)
    && r.home < |s.slabs| && place == SubAddr(s.slabs[r.home], r.k) + 8 + r.count * (16 + r.size) + 16
  }

  /** A new sub-region behind those of slab chunk h, which stands at paddr and held used ones, takes the slab
      as its first. */
  ghost predicate SubRegionCut(s: ArenaState, t: ArenaState, cls: nat, h: nat, paddr: nat, used: nat, place: nat)
    requires cls < |s.cur|
  {
    var n := |s.sregions|;
    && t.logs == s.logs && |t.sregions| == n + 1 && (forall j :: 0 <= j < n ==> t.sregions[j] == s.sregions[j])
    && cls < |CLASSES| && t.sregions[n] == SRegion(h, used, CLASSES[cls], 1)
    && t.cur == s.cur[cls := Some(n)]
    && |t.slabs| == h + 1 && t.slabs[h] == SlabChunk(paddr, used + 1)
    && h <= |s.slabs| && (forall j :: 0 <= j < h ==> t.slabs[j] == s.slabs[j])
    && place == paddr + 8 + 1024 * used + 24
  }

  /** The newest slab of the class stands at place. */
  ghost predicate PlacedAt(t: ArenaState, cls: nat, place: nat) {
    && cls < |t.cur| && t.cur[cls].Some? && t.cur[cls].value < |t.sregions|
    && var r := t.sregions[t.cur[cls].value];
       r.home < |t.slabs| && r.count > 0 && place == SmallPlace(t, cls)
  }

  lemma AddExactly(s: ArenaState, cls: nat) returns (place: nat)
    requires CurExists(s) && cls < |CLASSES| && s.cur[cls].Some?
    requires s.sregions[s.cur[cls].value].home < |s.slabs|
    ensures var t := AddSlab(s, s.cur[cls].value); PlacedAt(t, cls, place) && SlabAdded(s, t, cls, place)
  {
    place := SmallPlace(AddSlab(s, s.cur[cls].value), cls);
  }

  lemma CutExactly(s: ArenaState, m: ArenaState, cls: nat) returns (place: nat)
    requires m.slabs != [] && cls < |CLASSES| == |s.cur|
    requires m.logs == s.logs && m.sregions == s.sregions && m.cur == s.cur
    requires |m.slabs| - 1 <= |s.slabs| && forall j :: 0 <= j < |m.slabs| - 1 ==> m.slabs[j] == s.slabs[j]
    ensures var t, h := Cut(m, cls), |m.slabs| - 1;
      && t.pool == m.pool && PlacedAt(t, cls, place)
      && SubRegionCut(s, t, cls, h, m.slabs[h].paddr, m.slabs[h].used, place)
  {
    var t, h := Cut(m, cls), |m.slabs| - 1;
    assert t.slabs[h] == m.slabs[h].(used := m.slabs[h].used + 1);
    assert forall j :: 0 <= j < h ==> t.slabs[j] == m.slabs[j];
    place := SmallPlace(t, cls);
  }

  lemma HardExactly(s: ArenaState, cls: nat, base: nat) returns (place: nat)
    requires cls < |CLASSES| == |s.cur|
    ensures var t, h := SmallHard(s, cls, base), |s.slabs|;
      && PlacedAt(t, cls, place)
      && if h > 0 && EndsInside(s.slabs[h - 1].paddr, SubAddr(s.slabs[h - 1], s.slabs[h - 1].used), 1024)
         then t.pool == s.pool && SubRegionCut(s, t, cls, h - 1, s.slabs[h - 1].paddr, s.slabs[h - 1].used, place)
         else
           && t.pool == PoolModel.Allocated(s.pool, base) != s.pool
           && SubRegionCut(s, t, cls, h, NextChunk(s, base), 0, place)
  {
    PoolMoves(s.pool, base);
    place := CutExactly(s, SlabOpened(s, base), cls);
  }

  /** A small request goes into the current sub-region of its class exactly if it fits there, else into a new
      sub-region of the newest slab chunk exactly if that ends inside it, and else into one of a new slab chunk. */
  lemma SmallExactly(s: ArenaState, cls: nat, base: nat) returns (place: nat)
    requires ArenaInv(s) && cls < |CLASSES|
    ensures var t, h := SmallAllocated(s, cls, base), |s.slabs|;
      && PlacedAt(t, cls, place)
      && if s.cur[cls].Some? && SlabFits(s.sregions[s.cur[cls].value]) then SlabAdded(s, t, cls, place)
         else if h > 0 && EndsInside(s.slabs[h - 1].paddr, SubAddr(s.slabs[h - 1], s.slabs[h - 1].used), 1024)
         then t.pool == s.pool && SubRegionCut(s, t, cls, h - 1, s.slabs[h - 1].paddr, s.slabs[h - 1].used, place)
         else
           && t.pool == PoolModel.Allocated(s.pool, base) != s.pool
           && SubRegionCut(s, t, cls, h, NextChunk(s, base), 0, place)
  {
    if s.cur[cls].Some? {
      assert SRegionOk(s.slabs, s.sregions[s.cur[cls].value]);
      SlabFitsIs(s.sregions[s.cur[cls].value]);
    }
    if s.cur[cls].Some? && SRegionRoom(s.sregions[s.cur[cls].value]) {
      place := AddExactly(s, cls);
    } else {
      place := HardExactly(s, cls, base);
    }
  }

  /** A further slab of the class begins one header and one payload behind the newest one. */
  lemma SlabsFollow(s: ArenaState, cls: nat, base: nat, before: nat)
    requires ArenaInv(s) && PlacedAt(s, cls, before) && cls < |CLASSES| && SlabFits(s.sregions[s.cur[cls].value])
    ensures PlacedAt(SmallAllocated(s, cls, base), cls, before + 16 + CLASSES[cls])
  {
    var r := s.sregions[s.cur[cls].value];
    SlabFitsIs(r);
    var place := AddExactly(s, cls);
    NextPlace(SubAddr(s.slabs[r.home], r.k), r.size, r.count);
  }

  lemma NextPlace(a: nat, size: nat, count: nat)
    requires count > 0
    ensures SlabAddr(a, size, count) == SlabAddr(a, size, count - 1) + 16 + size
  {
    assert count * (16 + size) == (count - 1) * (16 + size) + (16 + size);
  }

  lemma SlabFitsIs(r: SRegion)
    ensures SlabFits(r) <==> SRegionRoom(r)
  {
  }

  /** The slab size of each request: eight, then the next multiple of sixteen, and above 128 the next of thirty-two. */
  lemma ClassSizesAre(size: nat)
    requires size <= MAX_SMALL
    ensures CLASSES[ClassFrom(size, 0)] ==
            if size <= 8 then 8 else if size <= 128 then Ceiling(size, 16) else Ceiling(size, 32)
  {
    var c := ClassFrom(size, 0);
    ClassTable(c);
    if c > 0 {
      ClassTable(c - 1);
    }
  }

  lemma ClassTable(c: nat)
    requires c < |CLASSES|
    ensures CLASSES[c] == if c == 0 then 8 else if c <= 8 then 16 * c else 128 + 32 * (c - 8)
  {
  }

  // ---------------------------------------------------------------- any request

  /** Requests below 224 bytes are slabs and leave the log chunks alone; the others are regions and leave
      the slab chunks alone. */
  lemma DispatchExactly(s: ArenaState, size: nat, base: nat)
    requires ArenaInv(s)
    ensures var t := Malloced(s, size, base);
      if size < 224 then t.logs == s.logs && t == SmallAllocated(s, ClassFrom(size, 0), base)
      else SameSlabs(s, t) && t == RegionAllocated(s, LargeNeed(size), base)
  {
    if size < 224 {
      var place := SmallExactly(s, ClassFrom(size, 0), base);
    }
  }

  // ---------------------------------------------------------------- frees

  /** Freeing marks that one region and adds its size to its chunk's dirty bytes. */
  lemma FreedExactly(s: ArenaState, i: nat, j: nat)
    requires i < |s.logs| && j < |s.logs[i].regions|
    ensures var t := Deallocated(s, i, j);
      && t.pool == s.pool && SameSlabs(s, t) && |t.logs| == |s.logs|
      && (forall h :: 0 <= h < |s.logs| && h != i ==> t.logs[h] == s.logs[h])
      && var c, d := s.logs[i], t.logs[i];
         && d.paddr == c.paddr && d.tail == c.tail && d.avail == c.avail && d.live == c.live
         && d.dirty == c.dirty + c.regions[j].size && |d.regions| == |c.regions|
         && d.regions[j] == Region(c.regions[j].paddr, c.regions[j].size, true)
         && forall k :: 0 <= k < |c.regions| && k != j ==> d.regions[k] == c.regions[k]
  {
  }

  ghost predicate IsDirty(s: ArenaState, i: nat, j: nat) {
    i < |s.logs| && j < |s.logs[i].regions| && s.logs[i].regions[j].dirty
  }

  /** After one request a region is dirty exactly if it was, or has just been freed. */
  lemma ServedDirty(q: Request, s: ArenaState, i: nat, j: nat)
    requires ArenaInv(s) && Legal(q, s)
    ensures IsDirty(Serve(q, s), i, j) <==> q == Dalloc(i, j) || IsDirty(s, i, j)
  {
    match q
    case Malloc(size, base) =>
      DispatchExactly(s, size, base);
      if size >= 224 {
        NewestIsOk(s);
        AppendedDirty(s, LargeNeed(size), base, i, j);
      }
    case Dalloc(h, k) => FreedExactly(s, h, k);
  }

  /** A region is not dirty when it is appended. */
  lemma AppendedDirty(s: ArenaState, need: nat, base: nat, i: nat, j: nat)
    requires s.logs != [] ==> LogOk(s.logs[|s.logs| - 1])
    ensures IsDirty(RegionAllocated(s, need, base), i, j) <==> IsDirty(s, i, j)
  {
    LargeExactly(s, need, base);
  }

  lemma NewestIsOk(s: ArenaState)
    requires ArenaInv(s)
    ensures s.logs != [] ==> LogOk(s.logs[|s.logs| - 1])
  {
  }

  /** Over any run, a region is dirty exactly if it was at the start or the run has freed it. */
  lemma {:induction false} DirtyExactly(qs: seq<Request>, s: ArenaState, i: nat, j: nat)
    requires ArenaInv(s) && LegalRun(qs, s)
    ensures IsDirty(Run(qs, s), i, j) <==> Dalloc(i, j) in qs || IsDirty(s, i, j)
  {
    if qs != [] {
      FirstOrLater(qs, Dalloc(i, j));
      ServeInv(qs[0], s);
      DirtyExactly(qs[1..], Serve(qs[0], s), i, j);
      ServedDirty(qs[0], s, i, j);
      assert Run(qs, s) == Run(qs[1..], Serve(qs[0], s));
    }
  }

  lemma FirstOrLater(qs: seq<Request>, q: Request)
    requires qs != []
    ensures q in qs <==> q == qs[0] || q in qs[1..]
  {
    assert qs == [qs[0]] + qs[1..];
  }
}
