/**
 An arena uses up what it has before it takes more: what every run of requests and frees keeps.
 */
module ArenaPacked {
  import opened ArenaModel
  import opened ArenaLaws

  /** Only the newest log chunk is live, none is empty, and the first region of each did not fit into the one before. */
  ghost predicate PackedLogs(logs: seq<LogChunk>) {
    && (forall i :: 0 <= i < |logs| ==> logs[i].regions != [])
    && (forall i :: 0 <= i < |logs| ==> (logs[i].live <==> i == |logs| - 1))
    && forall i, j :: 0 <= i < j < |logs| && j == i + 1 ==>
         logs[j].regions != [] && !EndsInside(logs[i].paddr, logs[i].tail, logs[j].regions[0].size)
  }

  ghost predicate IsCurrent(s: ArenaState, i: nat) {
    exists c :: 0 <= c < |s.cur| && s.cur[c] == Some(i)
  }

  /** Every sub-region but the current one of its class is full. */
  ghost predicate SubRegionsFull(s: ArenaState) {
    forall i :: 0 <= i < |s.sregions| ==> IsCurrent(s, i) || !SlabFits(s.sregions[i])
  }

  /** Every slab chunk but the newest is full. */
  ghost predicate SlabChunksFull(slabs: seq<SlabChunk>) {
    forall h :: 0 <= h < |slabs| - 1 ==> !EndsInside(slabs[h].paddr, SubAddr(slabs[h], slabs[h].used), 1024)
  }

  ghost predicate HoldsSlot(sregions: seq<SRegion>, h: nat, k: nat) {
    exists j :: 0 <= j < |sregions| && sregions[j].home == h && sregions[j].k == k
  }

  /** The slots a slab chunk has used hold a sub-region each. */
  ghost predicate SlotsTaken(slabs: seq<SlabChunk>, sregions: seq<SRegion>) {
    forall h, k :: 0 <= h < |slabs| && 0 <= k < slabs[h].used ==> HoldsSlot(sregions, h, k)
  }

  ghost predicate PackedSlabs(s: ArenaState) {
    && SubRegionsFull(s) && SlabChunksFull(s.slabs) && SlotsTaken(s.slabs, s.sregions)
    && forall i :: 0 <= i < |s.sregions| ==> s.sregions[i].count > 0
  }

  ghost predicate Packed(s: ArenaState) {
    PackedLogs(s.logs) && PackedSlabs(s)
  }

  lemma EmptiedPacked(pool: PoolModel.PoolState)
    ensures Packed(Emptied(pool))
  {
  }

  lemma LargePacked(s: ArenaState, need: nat, base: nat)
    requires PackedLogs(s.logs) && (s.logs != [] ==> LogOk(s.logs[|s.logs| - 1]))
    ensures PackedLogs(RegionAllocated(s, need, base).logs)
  {
    LargeExactly(s, need, base);
    var t, n := RegionAllocated(s, need, base), |s.logs|;
    forall i, j | 0 <= i < j < |t.logs| && j == i + 1
      ensures t.logs[j].regions != [] && !EndsInside(t.logs[i].paddr, t.logs[i].tail, t.logs[j].regions[0].size)
    {
      if j < n {
        assert !EndsInside(s.logs[i].paddr, s.logs[i].tail, s.logs[j].regions[0].size);
      }
    }
  }

  lemma CutPacked(s: ArenaState, t: ArenaState, cls: nat, h: nat, paddr: nat, used: nat, place: nat)
    requires PackedSlabs(s) && cls < |s.cur| && SubRegionCut(s, t, cls, h, paddr, used, place)
    requires s.cur[cls].Some? ==>
      s.cur[cls].value < |s.sregions| && !SlabFits(s.sregions[s.cur[cls].value])
    requires if h < |s.slabs| then h == |s.slabs| - 1 && s.slabs[h] == SlabChunk(paddr, used)
             else used == 0 &&
                  (h > 0 ==> !EndsInside(s.slabs[h - 1].paddr, SubAddr(s.slabs[h - 1], s.slabs[h - 1].used), 1024))
    ensures PackedSlabs(t)
  {
    forall i | 0 <= i < |t.sregions| ensures IsCurrent(t, i) || !SlabFits(t.sregions[i]) {
      CutKeepsFull(s, t, cls, i);
    }
    forall g, k | 0 <= g < |t.slabs| && 0 <= k < t.slabs[g].used ensures HoldsSlot(t.sregions, g, k) {
      if g == h && k == used {
        assert t.sregions[|s.sregions|].home == g;
      } else {
        assert HoldsSlot(s.sregions, g, k);
        var j :| 0 <= j < |s.sregions| && s.sregions[j].home == g && s.sregions[j].k == k;
        assert t.sregions[j] == s.sregions[j];
      }
    }
    SlabChunksStayFull(s, t, h, paddr, used);
  }

  lemma SlabChunksStayFull(s: ArenaState, t: ArenaState, h: nat, paddr: nat, used: nat)
    requires SlabChunksFull(s.slabs) && |t.slabs| == h + 1 && h <= |s.slabs|
    requires forall j :: 0 <= j < h ==> t.slabs[j] == s.slabs[j]
    requires if h < |s.slabs| then h == |s.slabs| - 1
             else h > 0 ==> !EndsInside(s.slabs[h - 1].paddr, SubAddr(s.slabs[h - 1], s.slabs[h - 1].used), 1024)
    ensures SlabChunksFull(t.slabs)
  {
  }

  lemma CutKeepsFull(s: ArenaState, t: ArenaState, cls: nat, i: nat)
    requires SubRegionsFull(s) && cls < |s.cur| && i <= |s.sregions| && |t.sregions| == |s.sregions| + 1
    requires t.cur == s.cur[cls := Some(|s.sregions|)]
    requires forall j :: 0 <= j < |s.sregions| ==> t.sregions[j] == s.sregions[j]
    requires s.cur[cls].Some? ==>
      s.cur[cls].value < |s.sregions| && !SlabFits(s.sregions[s.cur[cls].value])
    ensures IsCurrent(t, i) || !SlabFits(t.sregions[i])
  {
    if i == |s.sregions| {
      assert t.cur[cls] == Some(i);
    } else if IsCurrent(s, i) && SlabFits(s.sregions[i]) {
      var c :| 0 <= c < |s.cur| && s.cur[c] == Some(i);
      assert t.cur[c] == Some(i);
    }
  }

  lemma AddPacked(s: ArenaState, t: ArenaState, cls: nat, place: nat)
    requires PackedSlabs(s) && cls < |s.cur| && s.cur[cls].Some? && s.cur[cls].value < |s.sregions|
    requires SlabAdded(s, t, cls, place)
    ensures PackedSlabs(t)
  {
    forall i | 0 <= i < |t.sregions| ensures IsCurrent(t, i) || !SlabFits(t.sregions[i]) {
      if i == s.cur[cls].value {
        assert t.cur[cls] == Some(i);
      } else if IsCurrent(s, i) {
        var c :| 0 <= c < |s.cur| && s.cur[c] == Some(i);
        assert t.cur[c] == Some(i);
      }
    }
    forall g, k | 0 <= g < |t.slabs| && 0 <= k < t.slabs[g].used ensures HoldsSlot(t.sregions, g, k) {
      assert HoldsSlot(s.sregions, g, k);
      var j :| 0 <= j < |s.sregions| && s.sregions[j].home == g && s.sregions[j].k == k;
      assert t.sregions[j].home == g && t.sregions[j].k == k;
    }
  }

  lemma SmallPacked(s: ArenaState, cls: nat, base: nat)
    requires ArenaInv(s) && PackedSlabs(s) && cls < |CLASSES|
    ensures PackedSlabs(SmallAllocated(s, cls, base)) && SmallAllocated(s, cls, base).logs == s.logs
  {
    var t, h := SmallAllocated(s, cls, base), |s.slabs|;
    var place := SmallExactly(s, cls, base);
    if s.cur[cls].Some? && SlabFits(s.sregions[s.cur[cls].value]) {
      AddPacked(s, t, cls, place);
    } else if h > 0 && EndsInside(s.slabs[h - 1].paddr, SubAddr(s.slabs[h - 1], s.slabs[h - 1].used), 1024) {
      CutPacked(s, t, cls, h - 1, s.slabs[h - 1].paddr, s.slabs[h - 1].used, place);
    } else {
      CutPacked(s, t, cls, h, NextChunk(s, base), 0, place);
    }
  }

  lemma FreePacked(s: ArenaState, i: nat, j: nat)
    requires PackedLogs(s.logs) && i < |s.logs| && j < |s.logs[i].regions|
    ensures PackedLogs(Deallocated(s, i, j).logs)
  {
    FreedExactly(s, i, j);
    var t := Deallocated(s, i, j);
    forall g, h | 0 <= g < h < |t.logs| && h == g + 1
      ensures t.logs[h].regions != [] && !EndsInside(t.logs[g].paddr, t.logs[g].tail, t.logs[h].regions[0].size)
    {
      assert !EndsInside(s.logs[g].paddr, s.logs[g].tail, s.logs[h].regions[0].size);
      assert t.logs[h].regions[0].size == s.logs[h].regions[0].size;
    }
  }

  lemma SlabsOnly(s: ArenaState, t: ArenaState)
    requires PackedSlabs(s) && SameSlabs(s, t)
    ensures PackedSlabs(t)
  {
    forall i | 0 <= i < |t.sregions| ensures IsCurrent(t, i) <==> IsCurrent(s, i) {
    }
  }

  lemma ServePacked(q: Request, s: ArenaState)
    requires ArenaInv(s) && Packed(s) && Legal(q, s)
    ensures Packed(Serve(q, s))
  {
    match q
    case Malloc(size, base) =>
      DispatchExactly(s, size, base);
      if size < 224 {
        SmallPacked(s, ClassFrom(size, 0), base);
      } else {
        NewestIsOk(s);
        LargePacked(s, LargeNeed(size), base);
        SlabsOnly(s, Serve(q, s));
      }
    case Dalloc(i, j) =>
      FreePacked(s, i, j);
      FreedExactly(s, i, j);
      SlabsOnly(s, Serve(q, s));
  }

  /** Over any run, nothing is left open but the newest log chunk, the newest slab chunk and one sub-region
      of each class. */
  lemma {:induction false} RunPacked(qs: seq<Request>, s: ArenaState)
    requires ArenaInv(s) && Packed(s) && LegalRun(qs, s)
    ensures Packed(Run(qs, s))
  {
    if qs != [] {
      ServePacked(qs[0], s);
      ServeInv(qs[0], s);
      RunPacked(qs[1..], Serve(qs[0], s));
    }
  }

  // ---------------------------------------------------------------- inputs

  /** In a new arena whose first chunk stands at c, two requests of 1000 bytes are answered c + 16 and c + 1024. */
  lemma TwoRegions(pool: PoolModel.PoolState, base: nat)
    ensures var s, c := Emptied(pool), NextChunk(Emptied(pool), base);
      && LargePlace(s, 1000, base) == c + 16
      && LargePlace(LargeAllocated(s, 1000, base), 1000, base) == c + 1024
  {
    var s := Emptied(pool);
    LargeExactly(s, LargeNeed(1000), base);
    var t := LargeAllocated(s, 1000, base);
    assert LargeNeed(1000) == 1008;
    FirstIsOk(t.logs[0]);
    LargeExactly(t, LargeNeed(1000), base);
  }

  lemma FirstIsOk(c: LogChunk)
    requires c.regions == [Region(c.paddr + 8, 1008, false)] && c.tail == c.paddr + 1016
    requires c.avail == CHUNK_ROOM - 1008 && c.dirty == 0
    ensures LogOk(c)
  {
    assert c.regions[..0] == [];
  }

  /** Two requests of eight bytes are answered c + 32 and c + 56. */
  lemma TwoSlabs(pool: PoolModel.PoolState, base: nat)
    requires PoolModel.Inv(pool) && PoolReady(Emptied(pool), base)
    ensures var s, c := Emptied(pool), NextChunk(Emptied(pool), base);
      var t := Malloced(s, 8, base);
      PlacedAt(t, 0, c + 32) && PlacedAt(Malloced(t, 8, base), 0, c + 56)
  {
    var s := Emptied(pool);
    assert ClassFrom(8, 0) == 0;
    EmptiedInv(pool);
    var place := SmallExactly(s, 0, base);
    var x := SmallAllocatedInv(s, 0, base);
    var t := SmallAllocated(s, 0, base);
    SlabsFollow(t, 0, base, place);
  }
}
