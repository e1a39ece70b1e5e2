/**
 The arena in memory: chunk and sub-region descriptors, refining ArenaModel.
 The chunk lists are sequences, newest chunk first.
 */
module Arena {
  import opened PoolModel
  import opened Pool
  import opened ArenaModel

  datatype ChunkType = Log | SlabType

  class SRegionDesc {
    const paddr: nat
    const size: nat
    var ptail: nat

    constructor (paddr: nat, size: nat, ptail: nat)
      ensures this.paddr == paddr && this.size == size && this.ptail == ptail
    {
      this.paddr, this.size, this.ptail := paddr, size, ptail;
    }
  }

  /** Places for a new pool are at hand if the allocation will need one. */
  ghost predicate Ready(pool: Pool, addr1: nat, addr2: nat)
    reads pool, pool.space
  {
    pool.state.queue == [] ==> Choices(addr1, addr2, pool.space.mapped)
  }

  /** The bytes that are mapped while the arena goes from s to t. */
  ghost function MappedBy(s: ArenaState, t: ArenaState, base: nat): set<int> {
    if t.pool == s.pool then {} else NewlyMapped(s.pool, base)
  }

  class Chunk {
    const chunktype: ChunkType
    const paddr: nat
    var tail: nat
    var availsize: nat
    var dirtysize: nat
    var live: bool
    var regions: seq<Region>

    constructor (chunktype: ChunkType, paddr: nat)
      ensures this.chunktype == chunktype && this.paddr == paddr
      ensures tail == paddr + HEADER && availsize == CHUNK_SIZE - HEADER && dirtysize == 0 && live && regions == []
    {
      this.chunktype, this.paddr := chunktype, paddr;
      tail := paddr + HEADER;
      availsize, dirtysize, live, regions := CHUNK_SIZE - HEADER, 0, true, [];
    }

    ghost function Abs(): LogChunk
      reads this
    {
      LogChunk(paddr, tail, availsize, dirtysize, live, regions)
    }

    /** Appends a region behind the last one, whether or not it fits, and returns where it begins. */
    method AppendRegion(size: nat) returns (ret: nat)
      modifies this
      ensures ret == old(tail)
      ensures Abs() == old(Abs()).(tail := ret + size, avail := Sub64(old(availsize), size),
                                   regions := old(regions) + [Region(ret, size, false)])
    {
      ret := tail;
      tail := tail + size;
      availsize := Sub64(availsize, size);
      regions := regions + [Region(ret, size, false)];
    }

    /** Marks the j-th region dirty. */
    method DallocLarge(j: nat)
      requires j < |regions|
      modifies this
      ensures Abs() == MarkedDirty(old(Abs()), j)
    {
      regions := regions[j := regions[j].(dirty := true)];
      dirtysize := dirtysize + regions[j].size;
    }
  }

  /** cs lists the chunks newest first, logs oldest first. */
  ghost predicate LogsMatch(cs: seq<Chunk>, logs: seq<LogChunk>)
    reads cs
  {
    |cs| == |logs| && forall i :: 0 <= i < |logs| ==> LogMatches(cs[|logs| - 1 - i], logs[i])
  }

  ghost predicate LogMatches(c: Chunk, m: LogChunk)
    reads c
  {
    c.chunktype == Log && c.Abs() == m
  }

  ghost predicate SlabMatches(c: Chunk, m: SlabChunk)
    reads c
  {
    && c.chunktype == SlabType && c.paddr == m.paddr && c.tail == SlabTail(m)
    && c.availsize == CHUNK_ROOM - m.used * SREGION_SIZE
  }

  ghost predicate SlabsMatch(cs: seq<Chunk>, slabs: seq<SlabChunk>)
    reads cs
  {
    |cs| == |slabs| && forall i :: 0 <= i < |slabs| ==> SlabMatches(cs[|slabs| - 1 - i], slabs[i])
  }

  ghost predicate DistinctLogs(logs: seq<LogChunk>) {
    forall i, j :: 0 <= i < j < |logs| ==> logs[i].paddr != logs[j].paddr
  }

  ghost predicate DistinctSlabs(slabs: seq<SlabChunk>) {
    forall i, j :: 0 <= i < j < |slabs| ==> slabs[i].paddr != slabs[j].paddr
  }

  /** A list matches exactly when its newer part a and its older part b do. */
  lemma MatchParts(a: seq<Chunk>, b: seq<Chunk>, la: seq<LogChunk>, lb: seq<LogChunk>)
    requires |a| == |la| && |b| == |lb|
    ensures LogsMatch(a + b, lb + la) <==> LogsMatch(a, la) && LogsMatch(b, lb)
  {
    var cs, logs := a + b, lb + la;
    if LogsMatch(cs, logs) {
      forall i | 0 <= i < |la| ensures LogMatches(a[|la| - 1 - i], la[i]) {
        assert LogMatches(cs[|logs| - 1 - (|lb| + i)], logs[|lb| + i]);
      }
      forall i | 0 <= i < |lb| ensures LogMatches(b[|lb| - 1 - i], lb[i]) {
        assert LogMatches(cs[|logs| - 1 - i], logs[i]);
      }
    }
    if LogsMatch(a, la) && LogsMatch(b, lb) {
      forall i | 0 <= i < |logs| ensures LogMatches(cs[|logs| - 1 - i], logs[i]) {
        if i < |lb| {
          assert LogMatches(b[|lb| - 1 - i], lb[i]);
        } else {
          assert LogMatches(a[|la| - 1 - (i - |lb|)], la[i - |lb|]);
        }
      }
    }
  }

  /** Chunk objects of other logs are other objects. */
  lemma NotAmong(cs: seq<Chunk>, logs: seq<LogChunk>, c: Chunk)
    requires LogsMatch(cs, logs) && forall i :: 0 <= i < |logs| ==> logs[i].paddr != c.paddr
    ensures c !in cs
  {
    forall k | 0 <= k < |cs| ensures cs[k] != c {
      assert LogMatches(cs[|logs| - 1 - (|logs| - 1 - k)], logs[|logs| - 1 - k]);
    }
  }

  /** The newest chunk and the rest of the list. */
  lemma Newest(cs: seq<Chunk>, logs: seq<LogChunk>)
    requires LogsMatch(cs, logs) && DistinctLogs(logs) && cs != []
    ensures LogMatches(cs[0], logs[|logs| - 1])
    ensures LogsMatch(cs[1..], logs[..|logs| - 1]) && cs[0] !in cs[1..]
  {
    var h := |logs| - 1;
    assert LogMatches(cs[|logs| - 1 - h], logs[h]);
    assert cs == [cs[0]] + cs[1..] && logs == logs[..h] + [logs[h]];
    MatchParts([cs[0]], cs[1..], [logs[h]], logs[..h]);
    NotAmong(cs[1..], logs[..h], cs[0]);
  }

  lemma RoomOfFirst(cs: seq<Chunk>, logs: seq<LogChunk>)
    requires LogsMatch(cs, logs)
    ensures cs != [] ==> cs[0].availsize == logs[|logs| - 1].avail
  {
    if cs != [] {
      var h := |logs| - 1;
      assert LogMatches(cs[|logs| - 1 - h], logs[h]);
    }
  }

  lemma NewFirst(cs: seq<Chunk>, logs: seq<LogChunk>, c: Chunk, m: LogChunk)
    requires LogsMatch(cs, logs) && LogMatches(c, m)
    ensures LogsMatch([c] + cs, logs + [m])
  {
    MatchParts([c], cs, [m], logs);
  }

  /** The newest log chunk is no longer live. */
  method RetireFirst(cs: seq<Chunk>, ghost logs: seq<LogChunk>)
    requires LogsMatch(cs, logs) && DistinctLogs(logs) && cs != []
    modifies cs[0]
    ensures LogsMatch(cs, RetireLast(logs))
  {
    Newest(cs, logs);
    cs[0].live := false;
    NewFirst(cs[1..], logs[..|logs| - 1], cs[0], Retired(logs[|logs| - 1]));
    assert [cs[0]] + cs[1..] == cs;
  }

  /** A region is appended to the newest log chunk. */
  method AppendFirst(cs: seq<Chunk>, need: nat, ghost logs: seq<LogChunk>) returns (ret: nat)
    requires LogsMatch(cs, logs) && DistinctLogs(logs) && cs != []
    modifies cs[0]
    ensures LogsMatch(cs, AppendLast(logs, need))
    ensures ret == logs[|logs| - 1].tail
  {
    Newest(cs, logs);
    assert allocated(cs[1..]);
    ret := cs[0].AppendRegion(need);
    NewFirst(cs[1..], logs[..|logs| - 1], cs[0], Appended(logs[|logs| - 1], need));
    assert [cs[0]] + cs[1..] == cs;
  }

  /** The j-th region of the i-th log is marked dirty. */
  method DirtyAt(cs: seq<Chunk>, chunk: Chunk, j: nat, ghost logs: seq<LogChunk>, ghost i: nat)
    requires LogsMatch(cs, logs) && DistinctLogs(logs) && i < |logs| && j < |logs[i].regions|
    requires chunk == cs[|logs| - 1 - i]
    modifies chunk
    ensures LogsMatch(cs, logs[i := MarkedDirty(logs[i], j)])
  {
    ghost var k := |logs| - 1 - i;
    ghost var a, b, la, lb := cs[..k], cs[k + 1..], logs[i + 1..], logs[..i];
    assert LogMatches(chunk, logs[i]);
    assert cs == a + ([chunk] + b) && logs == (lb + [logs[i]]) + la;
    MatchParts(a, [chunk] + b, la, lb + [logs[i]]);
    MatchParts([chunk], b, [logs[i]], lb);
    NotAmong(a, la, chunk);
    NotAmong(b, lb, chunk);
    assert allocated(a) && allocated(b);
    chunk.DallocLarge(j);
    ghost var m := MarkedDirty(logs[i], j);
    NewFirst(b, lb, chunk, m);
    MatchParts(a, [chunk] + b, la, lb + [m]);
    assert logs[i := m] == (lb + [m]) + la;
  }

  // ---------------------------------------------------------------- what operations create

  ghost function Chunks(cs: seq<Chunk>): set<Chunk> {
    set c | c in cs
  }

  ghost function Descs(rs: seq<SRegionDesc?>): set<SRegionDesc> {
    set r: SRegionDesc | r in rs
  }

  /** A chunk list that was left alone or got one more chunk in front. */
  lemma ChunksGrown(r: seq<Chunk>, cs: seq<Chunk>)
    requires r == cs || (r != [] && r[1..] == cs)
    ensures Chunks(r) <= Chunks(cs) + if r == [] then {} else {r[0]}
  {
    forall o | o in r ensures o in cs || o == r[0] {
      var k :| 0 <= k < |r| && r[k] == o;
      assert k > 0 ==> r[1..][k - 1] == o;
    }
  }

  lemma DescsSet(rs: seq<SRegionDesc?>, cls: nat, sregion: SRegionDesc)
    requires cls < |rs|
    ensures Descs(rs[cls := sregion]) <= Descs(rs) + {sregion}
  {
  }

  // ---------------------------------------------------------------- the log side

  /** A new chunk, from the pool. */
  method ChunkAlloc(pool: Pool, chunktype: ChunkType, addr1: nat, addr2: nat)
    returns (chunk: Chunk, ghost made: set<object>)
    requires pool.Valid() && Ready(pool, addr1, addr2)
    modifies pool, Members(pool.ring), pool.space
    ensures pool.Valid() && pool.state == Allocated(old(pool.state), Base(addr1, addr2))
    ensures pool.space.mapped == old(pool.space.mapped) + NewlyMapped(old(pool.state), Base(addr1, addr2))
    ensures fresh(made) && Members(pool.ring) <= old(Members(pool.ring)) + made && chunk in made
    ensures chunk.chunktype == chunktype
    ensures chunk.Abs() == NewLog(Replenished(old(pool.state), Base(addr1, addr2)).queue[0])
  {
    ghost var free := Members(pool.ring);
    var paddr := pool.ChunkAlloc(addr1, addr2);
    chunk := new Chunk(chunktype, paddr);
    made := Members(pool.ring) - free + {chunk};
  }

  /** Retires the newest log chunk, if there is one, and puts a new one in front. */
  method OpenLogChunk(pool: Pool, cs: seq<Chunk>, addr1: nat, addr2: nat, ghost s: ArenaState)
    returns (r: seq<Chunk>, ghost made: set<object>)
    requires pool.Valid() && pool.state == s.pool && Ready(pool, addr1, addr2)
    requires LogsMatch(cs, s.logs) && DistinctLogs(s.logs)
    modifies pool, Members(pool.ring), pool.space, cs
    ensures pool.Valid() && pool.state == Allocated(s.pool, Base(addr1, addr2))
    ensures pool.space.mapped == old(pool.space.mapped) + NewlyMapped(s.pool, Base(addr1, addr2))
    ensures fresh(made) && Members(pool.ring) <= old(Members(pool.ring)) + made
    ensures r != [] && r[0] in made && Chunks(r) <= Chunks(cs) + made
    ensures LogsMatch(r, OpenLog(s, Base(addr1, addr2)).logs)
  {
    if cs != [] {
      RetireFirst(cs, s.logs);
    }
    var chunk;
    chunk, made := ChunkAlloc(pool, Log, addr1, addr2);
    NewFirst(cs, RetireLast(s.logs), chunk, NewLog(chunk.paddr));
    r := [chunk] + cs;
    ChunksGrown(r, cs);
  }

  /** A region at the start of a new log chunk. */
  method AppendNew(pool: Pool, cs: seq<Chunk>, need: nat, addr1: nat, addr2: nat, ghost s: ArenaState)
    returns (paddr: nat, r: seq<Chunk>, ghost made: set<object>)
    requires pool.Valid() && pool.state == s.pool && Ready(pool, addr1, addr2)
    requires LogsMatch(cs, s.logs) && DistinctLogs(s.logs) && DistinctLogs(OpenLog(s, Base(addr1, addr2)).logs)
    modifies pool, Members(pool.ring), pool.space, cs
    ensures var m := OpenLog(s, Base(addr1, addr2));
      && pool.Valid() && pool.state == m.pool
      && paddr == m.logs[|m.logs| - 1].tail && LogsMatch(r, AppendLast(m.logs, need))
    ensures pool.space.mapped == old(pool.space.mapped) + NewlyMapped(s.pool, Base(addr1, addr2))
    ensures fresh(made) && Members(pool.ring) <= old(Members(pool.ring)) + made
    ensures Chunks(r) <= Chunks(cs) + made
  {
    r, made := OpenLogChunk(pool, cs, addr1, addr2, s);
    assert allocated(r);
    paddr := AppendFirst(r, need, OpenLog(s, Base(addr1, addr2)).logs);
  }

  /** A region of need bytes at the end of the newest log chunk if that has room, else of a new one. */
  method RegionAlloc(pool: Pool, cs: seq<Chunk>, need: nat, addr1: nat, addr2: nat, ghost s: ArenaState)
    returns (ret: nat, r: seq<Chunk>, ghost made: set<object>)
    requires pool.Valid() && pool.state == s.pool && Ready(pool, addr1, addr2)
    requires LogsMatch(cs, s.logs) && DistinctLogs(s.logs) && DistinctLogs(OpenLog(s, Base(addr1, addr2)).logs)
    modifies pool, Members(pool.ring), pool.space, cs
    ensures var m := LogOpened(s, need, Base(addr1, addr2));
      && pool.Valid() && pool.state == m.pool
      && pool.space.mapped == old(pool.space.mapped) + MappedBy(s, m, Base(addr1, addr2))
      && ret == m.logs[|m.logs| - 1].tail + HEADER
      && LogsMatch(r, AppendLast(m.logs, need))
    ensures fresh(made) && Members(pool.ring) <= old(Members(pool.ring)) + made
    ensures Chunks(r) <= Chunks(cs) + made
  {
    RoomOfFirst(cs, s.logs);
    var paddr;
    if cs == [] || cs[0].availsize < need {
      paddr, r, made := AppendNew(pool, cs, need, addr1, addr2, s);
    } else {
      r, made := cs, {};
      paddr := AppendFirst(r, need, s.logs);
    }
    ret := paddr + HEADER;
  }

  // ---------------------------------------------------------------- the slab side

  lemma SlabParts(cs: seq<Chunk>, slabs: seq<SlabChunk>)
    requires SlabsMatch(cs, slabs) && DistinctSlabs(slabs) && cs != []
    ensures var h := |slabs| - 1;
      && SlabMatches(cs[0], slabs[h]) && SlabsMatch(cs[1..], slabs[..h]) && cs[0] !in cs[1..]
  {
    var h := |slabs| - 1;
    assert SlabMatches(cs[|slabs| - 1 - h], slabs[h]);
    forall i | 0 <= i < h ensures SlabMatches(cs[1..][h - 1 - i], slabs[i]) {
      assert SlabMatches(cs[|slabs| - 1 - i], slabs[i]);
    }
    forall k | 0 <= k < h ensures cs[1..][k] != cs[0] {
      var i := h - 1 - k;
      assert SlabMatches(cs[|slabs| - 1 - i], slabs[i]);
    }
  }

  lemma NewFirstSlab(cs: seq<Chunk>, slabs: seq<SlabChunk>, c: Chunk, m: SlabChunk)
    requires SlabsMatch(cs, slabs) && SlabMatches(c, m)
    ensures SlabsMatch([c] + cs, slabs + [m])
  {
    var cs', slabs' := [c] + cs, slabs + [m];
    forall i | 0 <= i < |slabs'| ensures SlabMatches(cs'[|slabs'| - 1 - i], slabs'[i]) {
      if i < |slabs| {
        assert SlabMatches(cs[|slabs| - 1 - i], slabs[i]);
      }
    }
  }

  /** Moves the tail of the newest slab chunk over one more sub-region. */
  method CutFirst(cs: seq<Chunk>, ghost slabs: seq<SlabChunk>) returns (paddr: nat)
    requires SlabsMatch(cs, slabs) && DistinctSlabs(slabs) && cs != []
    requires CHUNK_ROOM - slabs[|slabs| - 1].used * SREGION_SIZE >= SREGION_SIZE
    modifies cs[0]
    ensures SlabsMatch(cs, CutLast(slabs)) && paddr == SlabTail(slabs[|slabs| - 1])
  {
    SlabParts(cs, slabs);
    ghost var h := |slabs| - 1;
    var chunk := cs[0];
    paddr := chunk.tail;
    chunk.tail := chunk.tail + SREGION_SIZE;
    chunk.availsize := Sub64(chunk.availsize, SREGION_SIZE);
    NewFirstSlab(cs[1..], slabs[..h], chunk, slabs[h].(used := slabs[h].used + 1));
    assert [cs[0]] + cs[1..] == cs;
  }

  /** The sub-region currently filled for each class. */
  ghost predicate CurMatches(r: SRegionDesc?, cur: Option<nat>, slabs: seq<SlabChunk>, sregions: seq<SRegion>)
    reads r
  {
    match cur
    case None => r == null
    case Some(i) =>
      && r != null && i < |sregions| && sregions[i].home < |slabs|
      && var m := sregions[i];
         && r.paddr == SRegionAddr(slabs, m)
         && r.size == m.size && r.ptail == SlabAddr(r.paddr, m.size, m.count)
  }

  ghost predicate CursMatch(rs: seq<SRegionDesc?>, cur: seq<Option<nat>>, slabs: seq<SlabChunk>, sregions: seq<SRegion>)
    reads rs
  {
    |rs| == |cur| && forall c :: 0 <= c < |cur| ==> CurMatches(rs[c], cur[c], slabs, sregions)
  }

  /** New sub-regions and fuller slab chunks do not disturb the current ones. */
  lemma CursKept(rs: seq<SRegionDesc?>, cur: seq<Option<nat>>, slabs: seq<SlabChunk>, slabs': seq<SlabChunk>,
                 sregions: seq<SRegion>, sregions': seq<SRegion>)
    requires CursMatch(rs, cur, slabs, sregions)
    requires |slabs| <= |slabs'| && forall i :: 0 <= i < |slabs| ==> slabs'[i].paddr == slabs[i].paddr
    requires |sregions| <= |sregions'| && forall i :: 0 <= i < |sregions| ==> sregions'[i] == sregions[i]
    ensures CursMatch(rs, cur, slabs', sregions')
  {
    forall c | 0 <= c < |cur| ensures CurMatches(rs[c], cur[c], slabs', sregions') {
      assert CurMatches(rs[c], cur[c], slabs, sregions);
    }
  }

  lemma CursSet(rs: seq<SRegionDesc?>, cur: seq<Option<nat>>, slabs: seq<SlabChunk>, sregions: seq<SRegion>,
                cls: nat, r: SRegionDesc, i: nat)
    requires CursMatch(rs, cur, slabs, sregions) && cls < |cur| && CurMatches(r, Some(i), slabs, sregions)
    ensures CursMatch(rs[cls := r], cur[cls := Some(i)], slabs, sregions)
  {
    var rs', cur' := rs[cls := r], cur[cls := Some(i)];
    forall c | 0 <= c < |cur'| ensures CurMatches(rs'[c], cur'[c], slabs, sregions) {
      assert CurMatches(rs[c], cur[c], slabs, sregions);
    }
  }

  /** Puts a new slab chunk in front. */
  method OpenSlabChunk(pool: Pool, cs: seq<Chunk>, addr1: nat, addr2: nat, ghost s: ArenaState)
    returns (r: seq<Chunk>, ghost made: set<object>)
    requires pool.Valid() && pool.state == s.pool && Ready(pool, addr1, addr2)
    requires SlabsMatch(cs, s.slabs)
    modifies pool, Members(pool.ring), pool.space
    ensures pool.Valid() && pool.state == Allocated(s.pool, Base(addr1, addr2))
    ensures pool.space.mapped == old(pool.space.mapped) + NewlyMapped(s.pool, Base(addr1, addr2))
    ensures fresh(made) && Members(pool.ring) <= old(Members(pool.ring)) + made
    ensures r != [] && r[0] in made && Chunks(r) <= Chunks(cs) + made
    ensures SlabsMatch(r, OpenSlabs(s, Base(addr1, addr2)).slabs)
  {
    var chunk;
    chunk, made := ChunkAlloc(pool, SlabType, addr1, addr2);
    NewFirstSlab(cs, s.slabs, chunk, SlabChunk(chunk.paddr, 0));
    r := [chunk] + cs;
    ChunksGrown(r, cs);
  }

  lemma RoomOfFirstSlab(cs: seq<Chunk>, slabs: seq<SlabChunk>)
    requires SlabsMatch(cs, slabs)
    ensures cs != [] ==> cs[0].availsize == CHUNK_ROOM - slabs[|slabs| - 1].used * SREGION_SIZE
  {
    if cs != [] {
      var h := |slabs| - 1;
      assert SlabMatches(cs[|slabs| - 1 - h], slabs[h]);
    }
  }

  /** Cuts the first sub-region of a new slab chunk. */
  method CutNew(pool: Pool, cs: seq<Chunk>, addr1: nat, addr2: nat, ghost s: ArenaState)
    returns (paddr: nat, r: seq<Chunk>, ghost made: set<object>)
    requires pool.Valid() && pool.state == s.pool && Ready(pool, addr1, addr2)
    requires SlabsMatch(cs, s.slabs) && DistinctSlabs(OpenSlabs(s, Base(addr1, addr2)).slabs)
    modifies pool, Members(pool.ring), pool.space, cs
    ensures var m := OpenSlabs(s, Base(addr1, addr2));
      && pool.Valid() && pool.state == m.pool
      && SlabsMatch(r, CutLast(m.slabs)) && paddr == SlabTail(m.slabs[|m.slabs| - 1])
    ensures pool.space.mapped == old(pool.space.mapped) + NewlyMapped(s.pool, Base(addr1, addr2))
    ensures fresh(made) && Members(pool.ring) <= old(Members(pool.ring)) + made
    ensures Chunks(r) <= Chunks(cs) + made
  {
    r, made := OpenSlabChunk(pool, cs, addr1, addr2, s);
    assert allocated(r);
    paddr := CutFirst(r, OpenSlabs(s, Base(addr1, addr2)).slabs);
  }

  /** Cuts a new sub-region, from the newest slab chunk if that has room, else from a new one. */
  method CutSRegion(pool: Pool, cs: seq<Chunk>, addr1: nat, addr2: nat, ghost s: ArenaState)
    returns (paddr: nat, r: seq<Chunk>, ghost made: set<object>)
    requires pool.Valid() && pool.state == s.pool && Ready(pool, addr1, addr2)
    requires SlabsMatch(cs, s.slabs) && DistinctSlabs(s.slabs) && DistinctSlabs(OpenSlabs(s, Base(addr1, addr2)).slabs)
    modifies pool, Members(pool.ring), pool.space, cs
    ensures var m := SlabOpened(s, Base(addr1, addr2));
      && pool.Valid() && pool.state == m.pool
      && SlabsMatch(r, CutLast(m.slabs)) && paddr == SlabTail(m.slabs[|m.slabs| - 1])
      && pool.space.mapped == old(pool.space.mapped) + MappedBy(s, m, Base(addr1, addr2))
    ensures fresh(made) && Members(pool.ring) <= old(Members(pool.ring)) + made
    ensures Chunks(r) <= Chunks(cs) + made
  {
    RoomOfFirstSlab(cs, s.slabs);
    if cs == [] || cs[0].availsize < SREGION_SIZE {
      paddr, r, made := CutNew(pool, cs, addr1, addr2, s);
    } else {
      r, made := cs, {};
      paddr := CutFirst(r, s.slabs);
    }
  }

  /** Cuts a new sub-region and places the first slab in it. */
  method SmallHardAlloc(pool: Pool, cs: seq<Chunk>, size: nat, cls: nat, addr1: nat, addr2: nat, ghost s: ArenaState)
    returns (ret: nat, sregion: SRegionDesc, r: seq<Chunk>, ghost made: set<object>)
    requires pool.Valid() && pool.state == s.pool && Ready(pool, addr1, addr2)
    requires SlabsMatch(cs, s.slabs) && DistinctSlabs(s.slabs) && DistinctSlabs(OpenSlabs(s, Base(addr1, addr2)).slabs)
    requires cls < |CLASSES| == |s.cur| && size == CLASSES[cls]
    modifies pool, Members(pool.ring), pool.space, cs
    ensures var t := SmallHard(s, cls, Base(addr1, addr2));
      && pool.Valid() && pool.state == t.pool && SlabsMatch(r, t.slabs)
      && pool.space.mapped == old(pool.space.mapped) + MappedBy(s, t, Base(addr1, addr2))
      && CurMatches(sregion, Some(|s.sregions|), t.slabs, t.sregions)
      && ret == sregion.paddr + HEADER + SLAB_HEADER
    ensures fresh(made) && Members(pool.ring) <= old(Members(pool.ring)) + made
    ensures Chunks(r) <= Chunks(cs) + made
    ensures sregion in made
  {
    var paddr;
    paddr, r, made := CutSRegion(pool, cs, addr1, addr2, s);
    assert allocated(r);
    var tail := paddr + HEADER;
    ret := tail + SLAB_HEADER;
    sregion := new SRegionDesc(paddr, size, ret + size);
    made := made + {sregion};
  }

  /** Finds the least class that holds the size. */
  method SizeToClass(size: nat) returns (ret: nat)
    requires size <= MAX_SMALL
    ensures IsClassOf(size, ret)
  {
    ret := 0;
    assert CLASSES[11] == MAX_SMALL;
    for i := 0 to |CLASSES|
      invariant forall j :: 0 <= j < i ==> CLASSES[j] < size
    {
      if CLASSES[i] >= size {
        return i;
      }
    }
    assert false;
  }

  /** Places one more slab behind the last one of a sub-region; the others are left alone. */
  method AddSlabAt(rs: seq<SRegionDesc?>, cls: nat, sregion: SRegionDesc, size: nat, ghost s: ArenaState)
    returns (ret: nat)
    requires CursMatch(rs, s.cur, s.slabs, s.sregions) && CurOk(s.cur, s.sregions)
    requires cls < |s.cur| && s.cur[cls].Some? && rs[cls] == sregion && size == CLASSES[cls]
    requires SRegionRoom(s.sregions[s.cur[cls].value])
    modifies sregion
    ensures var t := AddSlab(s, s.cur[cls].value);
      && CursMatch(rs, t.cur, t.slabs, t.sregions)
    ensures ret == old(sregion.ptail) + SLAB_HEADER
  {
    ghost var i := s.cur[cls].value;
    ghost var t, m := AddSlab(s, i), s.sregions[i];
    assert CurMatches(sregion, s.cur[cls], s.slabs, s.sregions);
    NextSlabAddr(sregion.paddr, m.size, m.count);
    OthersApart(rs, s, cls);
    var tail := sregion.ptail;
    ret := tail + SLAB_HEADER;
    sregion.ptail := ret + size;
    forall c | 0 <= c < |t.cur| ensures CurMatches(rs[c], t.cur[c], t.slabs, t.sregions) {
      if c != cls {
        assert old(CurMatches(rs[c], s.cur[c], s.slabs, s.sregions));
        assert rs[c] != sregion;
      }
    }
  }

  lemma NextSlabAddr(a: nat, size: nat, i: nat)
    ensures SlabAddr(a, size, i + 1) == SlabAddr(a, size, i) + SLAB_HEADER + size
    ensures SlabAddr(a, size, i) == a + SlabAddr(0, size, i)
  {
    assert (i + 1) * (SLAB_HEADER + size) == i * (SLAB_HEADER + size) + (SLAB_HEADER + size);
  }

  lemma ClassesDiffer(c: nat, d: nat)
    requires c < |CLASSES| && d < |CLASSES| && CLASSES[c] == CLASSES[d]
    ensures c == d
  {
  }

  /** Sub-regions of different classes are different objects. */
  lemma OthersApart(rs: seq<SRegionDesc?>, s: ArenaState, cls: nat)
    requires CursMatch(rs, s.cur, s.slabs, s.sregions) && CurOk(s.cur, s.sregions)
    requires cls < |s.cur| && s.cur[cls].Some?
    ensures forall c :: 0 <= c < |s.cur| && c != cls ==>
      rs[c] != rs[cls] && (s.cur[c].Some? ==> s.cur[c] != s.cur[cls])
  {
    assert CurMatches(rs[cls], s.cur[cls], s.slabs, s.sregions);
    forall c | 0 <= c < |s.cur| && c != cls && s.cur[c].Some? ensures rs[c] != rs[cls] && s.cur[c] != s.cur[cls] {
      assert CurMatches(rs[c], s.cur[c], s.slabs, s.sregions);
      if CLASSES[c] == CLASSES[cls] {
        ClassesDiffer(c, cls);
      }
    }
    forall c | 0 <= c < |s.cur| && s.cur[c].None? ensures rs[c] != rs[cls] {
      assert CurMatches(rs[c], s.cur[c], s.slabs, s.sregions);
    }
  }

  /** Log chunks and slab chunks are different objects. */
  lemma KindsApart(cs: seq<Chunk>, logs: seq<LogChunk>, ss: seq<Chunk>, slabs: seq<SlabChunk>)
    requires LogsMatch(cs, logs) && SlabsMatch(ss, slabs)
    ensures forall k :: 0 <= k < |cs| ==> cs[k] !in ss
    ensures forall k :: 0 <= k < |ss| ==> ss[k] !in cs
  {
    forall k, l | 0 <= k < |cs| && 0 <= l < |ss| ensures cs[k] != ss[l] {
      assert LogMatches(cs[|logs| - 1 - (|logs| - 1 - k)], logs[|logs| - 1 - k]);
      assert SlabMatches(ss[|slabs| - 1 - (|slabs| - 1 - l)], slabs[|slabs| - 1 - l]);
    }
  }

  /** Chunks are distinct, and stay so if the pool's next chunk is added. */
  ghost predicate Openable(s: ArenaState, base: nat) {
    && DistinctLogs(s.logs) && DistinctLogs(OpenLog(s, base).logs)
    && DistinctSlabs(s.slabs) && DistinctSlabs(OpenSlabs(s, base).slabs)
    && CurOk(s.cur, s.sregions)
  }

  lemma InvOpenable(s: ArenaState, base: nat)
    requires ArenaInv(s) && PoolReady(s, base)
    ensures Openable(s, base)
  {
    InvOpenableLogs(s, base);
    InvOpenableSlabs(s, base);
  }

  lemma InvOpenableLogs(s: ArenaState, base: nat)
    requires ArenaInv(s) && PoolReady(s, base)
    ensures DistinctLogs(s.logs) && DistinctLogs(OpenLog(s, base).logs)
  {
    OpenLogInv(s, base);
  }

  lemma InvOpenableSlabs(s: ArenaState, base: nat)
    requires ArenaInv(s) && PoolReady(s, base)
    ensures DistinctSlabs(s.slabs) && DistinctSlabs(OpenSlabs(s, base).slabs)
  {
    OpenSlabsInv(s, base);
  }

  /** ret is where the newest slab of the class begins. */
  ghost predicate SlabBegins(t: ArenaState, cls: nat, ret: nat) {
    && cls < |t.cur| && t.cur[cls].Some? && t.cur[cls].value < |t.sregions|
    && var r := t.sregions[t.cur[cls].value];
       r.home < |t.slabs| && r.count > 0 && ret == SmallPlace(t, cls)
  }

  /** t is s with one more slab of the class, which begins at ret. */
  ghost predicate SmallAllocatedIs(s: ArenaState, t: ArenaState, cls: nat, base: nat, ret: nat) {
    && cls < |CLASSES| == |s.cur| && (s.cur[cls].Some? ==> s.cur[cls].value < |s.sregions|)
    && t == SmallAllocated(s, cls, base) && SlabBegins(t, cls, ret)
  }

  lemma CutPlaced(m: ArenaState, cls: nat, ret: nat)
    requires m.slabs != [] && cls < |CLASSES| == |m.cur|
    requires var t := Cut(m, cls); ret == SRegionAddr(t.slabs, t.sregions[|m.sregions|]) + HEADER + SLAB_HEADER
    ensures SlabBegins(Cut(m, cls), cls, ret)
  {
  }

  lemma AddPlaced(s: ArenaState, cls: nat, ret: nat)
    requires cls < |s.cur| && s.cur[cls].Some? && s.cur[cls].value < |s.sregions|
    requires var m := s.sregions[s.cur[cls].value];
      m.home < |s.slabs| && ret == SlabAddr(SRegionAddr(s.slabs, m), m.size, m.count) + SLAB_HEADER
    ensures SlabBegins(AddSlab(s, s.cur[cls].value), cls, ret)
  {
  }

  /** The current sub-region of a class: where its next slab goes, and when that fits. */
  lemma CurrentOne(rs: seq<SRegionDesc?>, cls: nat, s: ArenaState)
    requires CursMatch(rs, s.cur, s.slabs, s.sregions) && cls < |s.cur| && rs[cls] != null
    ensures s.cur[cls].Some? && s.cur[cls].value < |s.sregions|
    ensures var m := s.sregions[s.cur[cls].value];
      && m.home < |s.slabs| && rs[cls].paddr == SRegionAddr(s.slabs, m) && rs[cls].size == m.size
      && rs[cls].ptail == SlabAddr(SRegionAddr(s.slabs, m), m.size, m.count)
      && (SRegionRoom(m) <==> rs[cls].ptail + SLAB_HEADER + m.size <= rs[cls].paddr + SREGION_SIZE)
  {
    assert CurMatches(rs[cls], s.cur[cls], s.slabs, s.sregions);
    var m := s.sregions[s.cur[cls].value];
    NextSlabAddr(0, m.size, m.count);
    NextSlabAddr(rs[cls].paddr, m.size, m.count);
  }

  /** Log chunks cs, slab chunks ss and current sub-regions rs are those of s. */
  ghost predicate Refines(pool: Pool, cs: seq<Chunk>, ss: seq<Chunk>, rs: seq<SRegionDesc?>, s: ArenaState)
    reads pool, pool.ring, cs, ss, rs
  {
    && pool.Valid() && pool.state == s.pool
    && LogsMatch(cs, s.logs) && SlabsMatch(ss, s.slabs)
    && CursMatch(rs, s.cur, s.slabs, s.sregions)
  }

  method LargeStep(pool: Pool, cs: seq<Chunk>, need: nat, addr1: nat, addr2: nat,
                   ghost ss: seq<Chunk>, ghost rs: seq<SRegionDesc?>, ghost s: ArenaState)
    returns (ret: nat, r: seq<Chunk>, ghost made: set<object>)
    requires Refines(pool, cs, ss, rs, s) && Openable(s, Base(addr1, addr2)) && Ready(pool, addr1, addr2)
    modifies pool, Members(pool.ring), pool.space, cs
    ensures fresh(made) && Members(pool.ring) <= old(Members(pool.ring)) + made
    ensures Chunks(r) <= Chunks(cs) + made
    ensures var m := LogOpened(s, need, Base(addr1, addr2));
      && Refines(pool, r, ss, rs, AppendRegion(m, need))
      && pool.space.mapped == old(pool.space.mapped) + MappedBy(s, m, Base(addr1, addr2))
      && ret == m.logs[|m.logs| - 1].tail + HEADER
  {
    KindsApart(cs, s.logs, ss, s.slabs);
    assert allocated(ss) && allocated(rs);
    ret, r, made := RegionAlloc(pool, cs, need, addr1, addr2, s);
  }

  method SmallHardStep(pool: Pool, ss: seq<Chunk>, size: nat, cls: nat, addr1: nat, addr2: nat,
                       ghost cs: seq<Chunk>, ghost rs: seq<SRegionDesc?>, ghost s: ArenaState)
    returns (ret: nat, r: seq<Chunk>, sregion: SRegionDesc, ghost made: set<object>)
    requires Refines(pool, cs, ss, rs, s) && Openable(s, Base(addr1, addr2)) && Ready(pool, addr1, addr2)
    requires cls < |CLASSES| && size == CLASSES[cls]
    modifies pool, Members(pool.ring), pool.space, ss
    ensures fresh(made) && Members(pool.ring) <= old(Members(pool.ring)) + made
    ensures Chunks(r) <= Chunks(ss) + made
    ensures var t := SmallHard(s, cls, Base(addr1, addr2));
      && cls < |rs| && Refines(pool, cs, r, rs[cls := sregion], t)
      && pool.space.mapped == old(pool.space.mapped) + MappedBy(s, t, Base(addr1, addr2))
      && ret == SRegionAddr(t.slabs, t.sregions[|s.sregions|]) + HEADER + SLAB_HEADER
    ensures sregion in made
  {
    KindsApart(cs, s.logs, ss, s.slabs);
    assert allocated(cs) && allocated(rs);
    ret, sregion, r, made := SmallHardAlloc(pool, ss, size, cls, addr1, addr2, s);
    CursAfterCut(rs, s, cls, Base(addr1, addr2), sregion);
  }

  lemma CursAfterCut(rs: seq<SRegionDesc?>, s: ArenaState, cls: nat, base: nat, sregion: SRegionDesc)
    requires CursMatch(rs, s.cur, s.slabs, s.sregions) && cls < |CLASSES| == |s.cur|
    requires var t := SmallHard(s, cls, base); CurMatches(sregion, Some(|s.sregions|), t.slabs, t.sregions)
    ensures var t := SmallHard(s, cls, base); CursMatch(rs[cls := sregion], t.cur, t.slabs, t.sregions)
  {
    var t := SmallHard(s, cls, base);
    CursKept(rs, s.cur, s.slabs, t.slabs, s.sregions, t.sregions);
    CursSet(rs, s.cur, t.slabs, t.sregions, cls, sregion, |s.sregions|);
  }

  /** Makes a sub-region the current one of its class. */
  method SetCurrent(rs: array<SRegionDesc?>, cls: nat, sregion: SRegionDesc, pool: Pool,
                    ghost cs: seq<Chunk>, ghost ss: seq<Chunk>, ghost t: ArenaState)
    requires cls < rs.Length && Refines(pool, cs, ss, rs[..][cls := sregion], t)
    modifies rs
    ensures Refines(pool, cs, ss, rs[..], t) && rs[..] == old(rs[..])[cls := sregion]
  {
    assert allocated(cs) && allocated(ss) && allocated(rs[..][cls := sregion]);
    ghost var after := rs[..][cls := sregion];
    rs[cls] := sregion;
    assert rs[..] == after;
  }

  /** The layout invariant holds, and every pool is mapped. */
  ghost predicate Sound(s: ArenaState, mapped: set<int>) {
    ArenaInv(s) && PoolsMapped(s.pool.pools, mapped)
  }

  lemma SoundReady(s: ArenaState, addr1: nat, addr2: nat, mapped: set<int>)
    requires Sound(s, mapped) && (s.pool.queue == [] ==> Choices(addr1, addr2, mapped))
    ensures PoolReady(s, Base(addr1, addr2)) && Openable(s, Base(addr1, addr2)) && CurExists(s)
  {
    var b := Base(addr1, addr2);
    if s.pool.queue == [] {
      BasePlaced(addr1, addr2, mapped);
      PlacedFresh(s.pool.pools, b, mapped);
    }
    InvOpenable(s, b);
  }

  /** The pools stay mapped when t took no chunk from the pool of s, or one. */
  lemma SoundAfter(s: ArenaState, t: ArenaState, addr1: nat, addr2: nat, mapped: set<int>)
    requires Sound(s, mapped) && (s.pool.queue == [] ==> Choices(addr1, addr2, mapped)) && ArenaInv(t)
    requires t.pool == s.pool || t.pool == Allocated(s.pool, Base(addr1, addr2))
    ensures Sound(t, mapped + MappedBy(s, t, Base(addr1, addr2)))
  {
    if t.pool != s.pool {
      AllocatedPlaced(s.pool, addr1, addr2, mapped);
    }
  }

  lemma SoundFreed(s: ArenaState, i: nat, j: nat, mapped: set<int>)
    requires Sound(s, mapped) && i < |s.logs| && j < |s.logs[i].regions| && !s.logs[i].regions[j].dirty
    ensures Sound(Deallocated(s, i, j), mapped) && DistinctLogs(s.logs)
  {
    DeallocatedInv(s, i, j);
  }

  lemma PoolAfterSmall(s: ArenaState, cls: nat, base: nat)
    requires CurExists(s) && cls < |CLASSES|
    ensures var t := SmallAllocated(s, cls, base); t.pool == s.pool || t.pool == Allocated(s.pool, base)
  {
  }

  lemma PoolAfterLarge(s: ArenaState, need: nat, base: nat)
    ensures var t := RegionAllocated(s, need, base); t.pool == s.pool || t.pool == Allocated(s.pool, base)
  {
  }

  // ---------------------------------------------------------------- the arena object

  lemma NothingYet(pool: Pool, rs: seq<SRegionDesc?>)
    requires pool.Valid() && |rs| == |CLASSES| && forall c :: 0 <= c < |rs| ==> rs[c] == null
    ensures Refines(pool, [], [], rs, Emptied(pool.state)) && Descs(rs) == {}
  {
  }

  lemma OwnedAtFirst(a: Arena)
    requires a.availChunks == [] == a.availSchunks && Descs(a.availSregion[..]) == {}
    requires {a, a.pool, a.pool.space, a.availSregion} + Members(a.pool.ring) <= a.Repr
    ensures a.Owned()
  {
  }

  class Arena {
    const pool: Pool
    var availChunks: seq<Chunk>
    var availSchunks: seq<Chunk>
    const availSregion: array<SRegionDesc?>
    ghost var model: ArenaState
    ghost var Repr: set<object>

    /** The descriptors are those of the abstract state. */
    ghost predicate Valid()
      reads this`availChunks, this`availSchunks, this`model, pool, pool.ring
      reads availChunks, availSchunks, availSregion, availSregion[..]
    {
      Refines(pool, availChunks, availSchunks, availSregion[..], model)
    }

    /** Every object the arena is made of. */
    ghost function Footprint(): set<object>
      reads this, pool, availSregion
    {
      {this, pool, pool.space, availSregion} + Members(pool.ring)
      + Chunks(availChunks) + Chunks(availSchunks) + Descs(availSregion[..])
    }

    /** The arena is made of objects of its own. */
    ghost predicate Owned()
      reads this, pool, availSregion
    {
      Footprint() <= Repr
    }

    /** An arena over a pool, without chunks. */
    constructor (pool: Pool)
      requires pool.Valid()
      ensures Valid() && this.pool == pool && model == Emptied(pool.state)
      ensures Owned() && fresh(availSregion) && Repr == {this, pool, pool.space, availSregion} + Members(pool.ring)
    {
      this.pool := pool;
      availChunks, availSchunks := [], [];
      availSregion := new SRegionDesc?[|CLASSES|](_ => null);
      model := Emptied(pool.state);
      new;
      NothingYet(pool, availSregion[..]);
      Repr := {this, pool, pool.space, availSregion} + Members(pool.ring);
      OwnedAtFirst(this);
    }

    /** Takes further objects into its own. */
    ghost method Own(more: set<object>)
      requires Valid() && Footprint() <= Repr + more
      modifies this`Repr
      ensures Valid() && Owned() && Repr == old(Repr) + more
    {
      Repr := Repr + more;
    }

    /** Stores the lists of a new state. */
    method Adopt(cs: seq<Chunk>, ss: seq<Chunk>, ghost t: ArenaState)
      requires Refines(pool, cs, ss, availSregion[..], t)
      modifies this`availChunks, this`availSchunks, this`model
      ensures Valid() && model == t && availChunks == cs && availSchunks == ss
    {
      assert allocated(cs) && allocated(ss) && allocated(availSregion[..]);
      availChunks, availSchunks, model := cs, ss, t;
    }

    /** Stores the log chunks of a new state. */
    method StoreLogs(cs: seq<Chunk>, ghost t: ArenaState, ghost made: set<object>)
      requires Refines(pool, cs, availSchunks, availSregion[..], t)
      requires Footprint() + Chunks(cs) <= Repr + made
      modifies this
      ensures Valid() && model == t
      ensures Owned() && Repr == old(Repr) + made
    {
      Adopt(cs, availSchunks, t);
      Own(made);
    }

    /** A region of any size; one that does not fit a fresh chunk is appended all the same. */
    method RegionAlloc(need: nat, addr1: nat, addr2: nat) returns (ret: nat)
      requires Valid() && Owned() && Openable(model, Base(addr1, addr2)) && Ready(pool, addr1, addr2)
      modifies this, pool, Members(pool.ring), pool.space, availChunks
      ensures Valid() && model == RegionAllocated(old(model), need, Base(addr1, addr2))
      ensures pool.space.mapped == old(pool.space.mapped) + MappedBy(old(model), model, Base(addr1, addr2))
      ensures ret == RegionPlace(old(model), need, Base(addr1, addr2))
      ensures Owned() && fresh(Repr - old(Repr))
    {
      var r;
      ghost var made;
      ret, r, made := LargeStep(pool, availChunks, need, addr1, addr2, availSchunks, availSregion[..], model);
      StoreLogs(r, RegionAllocated(model, need, Base(addr1, addr2)), made);
    }

    method MallocLarge(size: nat, addr1: nat, addr2: nat) returns (ret: nat)
      requires Valid() && Owned() && Openable(model, Base(addr1, addr2)) && Ready(pool, addr1, addr2)
      modifies this, pool, Members(pool.ring), pool.space, availChunks
      ensures Valid() && model == LargeAllocated(old(model), size, Base(addr1, addr2))
      ensures pool.space.mapped == old(pool.space.mapped) + MappedBy(old(model), model, Base(addr1, addr2))
      ensures ret == LargePlace(old(model), size, Base(addr1, addr2))
      ensures Owned() && fresh(Repr - old(Repr))
    {
      ret := RegionAlloc(LargeNeed(size), addr1, addr2);
    }

    /** Marks a region dirty. */
    method DallocLarge(chunk: Chunk, ghost i: nat, j: nat)
      requires Valid() && Owned() && DistinctLogs(model.logs)
      requires i < |model.logs| && j < |model.logs[i].regions| && chunk == availChunks[|model.logs| - 1 - i]
      modifies this`model, chunk
      ensures Valid() && model == Deallocated(old(model), i, j)
      ensures Owned()
    {
      KindsApart(availChunks, model.logs, availSchunks, model.slabs);
      DirtyAt(availChunks, chunk, j, model.logs, i);
      model := Deallocated(model, i, j);
    }

    /** Stores a new sub-region's descriptor and the slab chunks it was cut from. */
    method Store(ss: seq<Chunk>, cls: nat, sregion: SRegionDesc, ghost t: ArenaState, ghost made: set<object>)
      requires cls < availSregion.Length && Refines(pool, availChunks, ss, availSregion[..][cls := sregion], t)
      requires Footprint() + Chunks(ss) + {sregion} <= Repr + made
      modifies this, availSregion
      ensures Valid() && model == t
      ensures Owned() && Repr == old(Repr) + made
    {
      DescsSet(availSregion[..], cls, sregion);
      SetCurrent(availSregion, cls, sregion, pool, availChunks, ss, t);
      Adopt(availChunks, ss, t);
      Own(made);
    }

    method MallocSmallHard(size: nat, cls: nat, addr1: nat, addr2: nat) returns (ret: nat)
      requires Valid() && Owned() && Openable(model, Base(addr1, addr2)) && Ready(pool, addr1, addr2)
      requires cls < |CLASSES| && size == CLASSES[cls]
      modifies this, pool, Members(pool.ring), pool.space, availSchunks, availSregion
      ensures Valid() && model == SmallHard(old(model), cls, Base(addr1, addr2))
      ensures pool.space.mapped == old(pool.space.mapped) + MappedBy(old(model), model, Base(addr1, addr2))
      ensures SlabBegins(model, cls, ret)
      ensures Owned() && fresh(Repr - old(Repr))
    {
      var r, sregion;
      ghost var made;
      ret, r, sregion, made :=
        SmallHardStep(pool, availSchunks, size, cls, addr1, addr2, availChunks, availSregion[..], model);
      ghost var t := SmallHard(model, cls, Base(addr1, addr2));
      CutPlaced(SlabOpened(model, Base(addr1, addr2)), cls, ret);
      Store(r, cls, sregion, t, made);
    }

    /** One more slab in the current sub-region if it has room, else the first slab of a new one. */
    method MallocSmallEasy(size: nat, sregion: SRegionDesc, cls: nat, addr1: nat, addr2: nat) returns (ret: nat)
      requires Valid() && Owned() && Openable(model, Base(addr1, addr2)) && Ready(pool, addr1, addr2)
      requires cls < |CLASSES| && size == CLASSES[cls] && availSregion[cls] == sregion
      modifies this, pool, Members(pool.ring), pool.space, availSchunks, availSregion, sregion
      ensures Valid() && SmallAllocatedIs(old(model), model, cls, Base(addr1, addr2), ret)
      ensures pool.space.mapped == old(pool.space.mapped) + MappedBy(old(model), model, Base(addr1, addr2))
      ensures Owned() && fresh(Repr - old(Repr))
    {
      CurrentOne(availSregion[..], cls, model);
      if sregion.ptail + SLAB_HEADER + size > sregion.paddr + SREGION_SIZE {
        ret := MallocSmallHard(size, cls, addr1, addr2);
      } else {
        ret := PlaceSlab(size, sregion, cls);
      }
    }

    /** One more slab in the current sub-region. */
    method PlaceSlab(size: nat, sregion: SRegionDesc, cls: nat) returns (ret: nat)
      requires Valid() && Owned() && CurOk(model.cur, model.sregions)
      requires cls < |CLASSES| && size == CLASSES[cls] && availSregion[cls] == sregion
      requires model.cur[cls].Some? && SRegionRoom(model.sregions[model.cur[cls].value])
      modifies this`model, sregion
      ensures Valid() && model == AddSlab(old(model), old(model).cur[cls].value)
      ensures SlabBegins(model, cls, ret)
      ensures Owned()
    {
      ghost var s, rs := model, availSregion[..];
      CurrentOne(rs, cls, s);
      ret := AddSlabAt(availSregion[..], cls, sregion, size, s);
      AddPlaced(s, cls, ret);
      model := AddSlab(model, model.cur[cls].value);
    }

    /** A slab of the given class, from its current sub-region if it has one. */
    method MallocClass(cls: nat, addr1: nat, addr2: nat) returns (ret: nat)
      requires Valid() && Owned() && Openable(model, Base(addr1, addr2)) && Ready(pool, addr1, addr2) && cls < |CLASSES|
      modifies this, pool, Members(pool.ring), pool.space, availSchunks, availSregion, availSregion[..]
      ensures Valid() && SmallAllocatedIs(old(model), model, cls, Base(addr1, addr2), ret)
      ensures pool.space.mapped == old(pool.space.mapped) + MappedBy(old(model), model, Base(addr1, addr2))
      ensures Owned() && fresh(Repr - old(Repr))
    {
      var sregion := availSregion[cls];
      assert CurMatches(sregion, model.cur[cls], model.slabs, model.sregions);
      if sregion != null {
        ret := MallocSmallEasy(CLASSES[cls], sregion, cls, addr1, addr2);
      } else {
        ret := MallocSmallHard(CLASSES[cls], cls, addr1, addr2);
      }
    }

    method MallocSmall(size: nat, addr1: nat, addr2: nat) returns (ret: nat, ghost cls: nat)
      requires Valid() && Owned() && Openable(model, Base(addr1, addr2)) && Ready(pool, addr1, addr2)
      requires size <= MAX_SMALL
      modifies this, pool, Members(pool.ring), pool.space, availSchunks, availSregion, availSregion[..]
      ensures Valid() && IsClassOf(size, cls)
      ensures SmallAllocatedIs(old(model), model, cls, Base(addr1, addr2), ret)
      ensures pool.space.mapped == old(pool.space.mapped) + MappedBy(old(model), model, Base(addr1, addr2))
      ensures Owned() && fresh(Repr - old(Repr))
    {
      var c := SizeToClass(size);
      ret := MallocClass(c, addr1, addr2);
      cls := c;
    }

    /** Serves a small request in full. */
    method ServeSmall(size: nat, addr1: nat, addr2: nat) returns (ret: nat, ghost x: Source)
      requires Valid() && Owned() && Sound(model, pool.space.mapped) && Ready(pool, addr1, addr2) && IsSmall(size)
      modifies this, pool, Members(pool.ring), pool.space, availSchunks, availSregion, availSregion[..]
      ensures Valid() && Sound(model, pool.space.mapped)
      ensures CurExists(old(model)) && model == Malloced(old(model), size, Base(addr1, addr2))
      ensures pool.space.mapped == old(pool.space.mapped) + MappedBy(old(model), model, Base(addr1, addr2))
      ensures HandsOut(old(model), model, x, ret, size)
      ensures Owned() && fresh(Repr - old(Repr))
    {
      ghost var s, b, mapped := model, Base(addr1, addr2), pool.space.mapped;
      SoundReady(s, addr1, addr2, mapped);
      ghost var cls;
      ret, cls := MallocSmall(size, addr1, addr2);
      ClassIsUnique(size, cls, ClassFrom(size, 0));
      x := SmallAllocatedInv(s, cls, b);
      x := SmallHandsOut(s, size, cls, b);
      PoolAfterSmall(s, cls, b);
      SoundAfter(s, model, addr1, addr2, mapped);
    }

    /** Serves a large request in full if it fits; otherwise what it returns runs past its chunk. */
    method ServeLarge(size: nat, addr1: nat, addr2: nat) returns (ret: nat, ghost x: Source)
      requires Valid() && Owned() && Sound(model, pool.space.mapped) && Ready(pool, addr1, addr2) && 0 < size
      modifies this, pool, Members(pool.ring), pool.space, availChunks
      ensures Valid() && model == LargeAllocated(old(model), size, Base(addr1, addr2))
      ensures pool.space.mapped == old(pool.space.mapped) + MappedBy(old(model), model, Base(addr1, addr2))
      ensures Fits(size) ==> Sound(model, pool.space.mapped) && HandsOut(old(model), model, x, ret, size)
      ensures !Fits(size) ==> ret + size > NextChunk(old(model), Base(addr1, addr2)) + CHUNK_SIZE
      ensures Owned() && fresh(Repr - old(Repr))
    {
      ghost var s, b, mapped := model, Base(addr1, addr2), pool.space.mapped;
      SoundReady(s, addr1, addr2, mapped);
      ret := MallocLarge(size, addr1, addr2);
      x := LogHeader(0);
      if Fits(size) {
        x := LargeAllocatedInv(s, size, b);
        x := LargeHandsOut(s, size, b);
        PoolAfterLarge(s, LargeNeed(size), b);
        SoundAfter(s, model, addr1, addr2, mapped);
      } else {
        Overruns(s, size, b);
      }
    }

    /** Frees a live large region. */
    method Free(chunk: Chunk, ghost i: nat, j: nat)
      requires Valid() && Owned() && Sound(model, pool.space.mapped)
      requires i < |model.logs| && j < |model.logs[i].regions| && !model.logs[i].regions[j].dirty
      requires chunk == availChunks[|model.logs| - 1 - i]
      modifies this`model, chunk
      ensures Valid() && Sound(model, pool.space.mapped) && model == Deallocated(old(model), i, j)
      ensures Owned()
    {
      ghost var s := model;
      DallocLarge(chunk, i, j);
      SoundFreed(s, i, j, pool.space.mapped);
    }

    /** Serves any request the arena admits. */
    method Malloc(size: nat, addr1: nat, addr2: nat) returns (ret: nat, ghost x: Source)
      requires Valid() && Owned() && Sound(model, pool.space.mapped) && Ready(pool, addr1, addr2)
      requires 0 < size <= CHUNK_SIZE
      modifies Repr
      ensures Owned() && fresh(Repr - old(Repr))
      ensures Valid() && CurExists(old(model)) && model == Malloced(old(model), size, Base(addr1, addr2))
      ensures pool.space.mapped == old(pool.space.mapped) + MappedBy(old(model), model, Base(addr1, addr2))
      ensures Fits(size) ==> Sound(model, pool.space.mapped) && HandsOut(old(model), model, x, ret, size)
      ensures !Fits(size) ==> ret + size > NextChunk(old(model), Base(addr1, addr2)) + CHUNK_SIZE
    {
      FitsExactly(size);
      SoundReady(model, addr1, addr2, pool.space.mapped);
      if size < MAX_SMALL {
        ret, x := ServeSmall(size, addr1, addr2);
      } else {
        ret, x := ServeLarge(size, addr1, addr2);
      }
    }
  }
}
