/**
 Runs of an arena in which every request that is admitted is served, also one that no
 chunk can hold: exactly when everything in place stays inside its chunk.
 */
module ArenaOverrun {
  import opened PoolModel
  import opened ArenaModel

  /** Requests up to the size of a chunk are admitted; live regions are freed. */
  ghost predicate Admitted(q: Request, s: ArenaState) {
    match q
    case Malloc(size, base) => 0 < size <= CHUNK_SIZE && PoolReady(s, base) && CurExists(s)
    case Dalloc(i, j) => i < |s.logs| && j < |s.logs[i].regions| && !s.logs[i].regions[j].dirty
  }

  ghost function Served(q: Request, s: ArenaState): ArenaState
    requires Admitted(q, s)
  {
    match q
    case Malloc(size, base) => Malloced(s, size, base)
    case Dalloc(i, j) => Deallocated(s, i, j)
  }

  ghost predicate AdmittedRun(qs: seq<Request>, s: ArenaState) {
    qs == [] || (Admitted(qs[0], s) && AdmittedRun(qs[1..], Served(qs[0], s)))
  }

  ghost function ServedRun(qs: seq<Request>, s: ArenaState): ArenaState
    requires AdmittedRun(qs, s)
  {
    if qs == [] then s else ServedRun(qs[1..], Served(qs[0], s))
  }

  ghost predicate InChunk(s: ArenaState, x: Source)
    requires Exists(s, x)
  {
    Home(s, x) <= ExtentOf(s, x).lo && ExtentOf(s, x).hi <= Home(s, x) + CHUNK_SIZE
  }

  ghost predicate AllInChunk(s: ArenaState) {
    forall x :: Exists(s, x) ==> InChunk(s, x)
  }

  ghost predicate Modest(q: Request) {
    q.Malloc? ==> q.size <= CHUNK_SIZE - 2 * HEADER
  }

  // ---------------------------------------------------------------- nothing moves, whatever is asked for

  lemma AppendGrows(s: ArenaState, need: nat)
    requires s.logs != []
    ensures Grows(s, AppendRegion(s, need))
  {
    var t := AppendRegion(s, need);
    forall i | 0 <= i < |s.logs| ensures LogGrows(s.logs[i], t.logs[i]) {
    }
    LogsGrow(s, t);
  }

  lemma LargeGrows(s: ArenaState, need: nat, base: nat)
    requires Inv(s.pool) && PoolReady(s, base)
    ensures Grows(s, RegionAllocated(s, need, base)) && Inv(RegionAllocated(s, need, base).pool)
  {
    var m := LogOpened(s, need, base);
    if LogRoom(s, need) {
      GrowsRefl(s);
    } else {
      OpenLogGrows(s, base);
      AllocatedInv(s.pool, base);
    }
    AppendGrows(m, need);
    GrowsTrans(s, m, AppendRegion(m, need));
  }

  lemma SmallGrows(s: ArenaState, cls: nat, base: nat)
    requires Inv(s.pool) && PoolReady(s, base) && CurExists(s) && cls < |CLASSES|
    ensures Grows(s, SmallAllocated(s, cls, base)) && Inv(SmallAllocated(s, cls, base).pool)
  {
    if s.cur[cls].Some? && SRegionRoom(s.sregions[s.cur[cls].value]) {
      AddSlabGrows(s, s.cur[cls].value);
    } else {
      HardGrows(s, cls, base);
    }
  }

  lemma HardGrows(s: ArenaState, cls: nat, base: nat)
    requires Inv(s.pool) && PoolReady(s, base) && cls < |CLASSES| == |s.cur|
    ensures Grows(s, SmallHard(s, cls, base)) && Inv(SmallHard(s, cls, base).pool)
  {
    var m := SlabOpened(s, base);
    SlabOpenedGrows(s, base);
    CutAnyGrows(m, cls);
    GrowsTrans(s, m, Cut(m, cls));
  }

  lemma SlabOpenedGrows(s: ArenaState, base: nat)
    requires Inv(s.pool) && PoolReady(s, base)
    ensures Grows(s, SlabOpened(s, base)) && Inv(SlabOpened(s, base).pool)
  {
    if SlabRoom(s) {
      GrowsRefl(s);
    } else {
      OpenSlabsGrows(s, base);
      AllocatedInv(s.pool, base);
    }
  }

  lemma CutAnyGrows(m: ArenaState, cls: nat)
    requires m.slabs != [] && cls < |CLASSES| == |m.cur|
    ensures Grows(m, Cut(m, cls)) && Cut(m, cls).pool == m.pool
  {
    CutGrows(m, Cut(m, cls));
  }

  lemma AddSlabGrows(s: ArenaState, i: nat)
    requires i < |s.sregions|
    ensures Grows(s, AddSlab(s, i))
  {
    forall j | 0 <= j < |s.logs| ensures LogGrows(s.logs[j], AddSlab(s, i).logs[j]) {
    }
  }

  lemma FreeGrows(s: ArenaState, i: nat, j: nat)
    requires i < |s.logs| && j < |s.logs[i].regions|
    ensures Grows(s, Deallocated(s, i, j))
  {
    LogsGrow(s, Deallocated(s, i, j));
  }

  lemma ServedGrows(q: Request, s: ArenaState)
    requires Inv(s.pool) && Admitted(q, s)
    ensures Grows(s, Served(q, s)) && Inv(Served(q, s).pool)
  {
    match q
    case Malloc(size, base) =>
      if IsSmall(size) {
        SmallGrows(s, ClassFrom(size, 0), base);
      } else {
        LargeGrows(s, LargeNeed(size), base);
      }
    case Dalloc(i, j) => FreeGrows(s, i, j);
  }

  lemma {:induction false} RunGrows(qs: seq<Request>, s: ArenaState)
    requires Inv(s.pool) && AdmittedRun(qs, s)
    ensures Grows(s, ServedRun(qs, s))
  {
    if qs == [] {
      GrowsRefl(s);
    } else {
      var m := Served(qs[0], s);
      ServedGrows(qs[0], s);
      RunGrows(qs[1..], m);
      GrowsTrans(s, m, ServedRun(qs[1..], m));
    }
  }

  // ---------------------------------------------------------------- overruns

  /** A request that is not modest leaves a payload that runs out of its chunk. */
  lemma LeavesOverrun(s: ArenaState, size: nat, base: nat) returns (x: Source)
    requires ArenaInv(s) && PoolReady(s, base) && CHUNK_SIZE - 2 * HEADER < size <= CHUNK_SIZE
    ensures var t := LargeAllocated(s, size, base); Exists(t, x) && !InChunk(t, x)
  {
    FitsExactly(size);
    Overruns(s, size, base);
    var m, need := LogOpened(s, LargeNeed(size), base), LargeNeed(size);
    NewestPlace(m, need);
    x := NewestRegion(AppendRegion(m, need));
    NoRoomLeft(s, need);
  }

  lemma NoRoomLeft(s: ArenaState, need: nat)
    requires ArenaInv(s) && need > CHUNK_ROOM
    ensures !LogRoom(s, need)
  {
    if s.logs != [] {
      var c := s.logs[|s.logs| - 1];
      assert LogOk(c);
      TiledBounds(c.regions, c.paddr + HEADER, c.tail);
    }
  }

  /** What runs out of its chunk stays where it is. */
  lemma OverrunStays(qs: seq<Request>, s: ArenaState, x: Source)
    requires Inv(s.pool) && AdmittedRun(qs, s) && Exists(s, x) && !InChunk(s, x)
    ensures Exists(ServedRun(qs, s), x) && !InChunk(ServedRun(qs, s), x)
  {
    RunGrows(qs, s);
    NothingMoves(s, ServedRun(qs, s), x);
  }

  lemma {:induction false} ImmodestOverruns(qs: seq<Request>, s: ArenaState) returns (x: Source)
    requires ArenaInv(s) && AdmittedRun(qs, s) && exists i :: 0 <= i < |qs| && !Modest(qs[i])
    ensures Exists(ServedRun(qs, s), x) && !InChunk(ServedRun(qs, s), x)
  {
    var q, t := qs[0], Served(qs[0], s);
    if Modest(q) {
      if q.Malloc? {
        FitsExactly(q.size);
      }
      ServeInv(q, s);
      var i :| 0 <= i < |qs| && !Modest(qs[i]);
      assert !Modest(qs[1..][i - 1]);
      x := ImmodestOverruns(qs[1..], t);
    } else {
      x := LeavesOverrun(s, q.size, q.base);
      ServedGrows(q, s);
      OverrunStays(qs[1..], t, x);
    }
  }

  lemma {:induction false} ModestStays(qs: seq<Request>, s: ArenaState)
    requires ArenaInv(s) && AdmittedRun(qs, s) && forall i :: 0 <= i < |qs| ==> Modest(qs[i])
    ensures ArenaInv(ServedRun(qs, s))
  {
    if qs != [] {
      if qs[0].Malloc? {
        FitsExactly(qs[0].size);
      }
      ServeInv(qs[0], s);
      ModestStays(qs[1..], Served(qs[0], s));
    }
  }

  /** After any run of admitted requests, everything in place lies in its chunk exactly if every request was modest. */
  lemma InChunkExactly(qs: seq<Request>, s: ArenaState)
    requires ArenaInv(s) && AdmittedRun(qs, s)
    ensures AllInChunk(ServedRun(qs, s)) <==> forall i :: 0 <= i < |qs| ==> Modest(qs[i])
  {
    if forall i :: 0 <= i < |qs| ==> Modest(qs[i]) {
      ModestStays(qs, s);
      forall x | Exists(ServedRun(qs, s), x) ensures InChunk(ServedRun(qs, s), x) {
        ExtentInHome(ServedRun(qs, s), x);
      }
    } else {
      var x := ImmodestOverruns(qs, s);
    }
  }
}
