/**
 The arena as a value: log chunks tiled by regions, slab chunks cut into
 sub-regions of 1024 bytes, and each sub-region filled by slabs of one size class.
 */
module ArenaModel {
  import opened AddressSpace
  import opened PoolModel
  import Bits

  datatype Option<T> = None | Some(value: T)

  /** Header sizes: a chunk, region or sub-region header is one pointer; a slab header is padded to two. */
  const HEADER: nat := 8
  const SLAB_HEADER: nat := 16
  const SREGION_SIZE: nat := 1024
  const CHUNK_ROOM: nat := 4194296

  const CLASSES: seq<nat> := [8, 16, 32, 48, 64, 80, 96, 112, 128, 160, 192, 224]
  const MAX_SMALL: nat := 224

  datatype Region = Region(paddr: nat, size: nat, dirty: bool)

  datatype LogChunk = LogChunk(paddr: nat, tail: nat, avail: nat, dirty: int, live: bool, regions: seq<Region>)

  /** used counts the sub-regions cut so far; they stand behind the chunk header, one after the other. */
  datatype SlabChunk = SlabChunk(paddr: nat, used: nat)

  /** The k-th sub-region of slab chunk home, holding count slabs of one size. */
  datatype SRegion = SRegion(home: nat, k: nat, size: nat, count: nat)

  datatype ArenaState = ArenaState(
    pool: PoolState, logs: seq<LogChunk>, slabs: seq<SlabChunk>, sregions: seq<SRegion>, cur: seq<Option<nat>>)

  // ---------------------------------------------------------------- addresses

  ghost function SlabTail(c: SlabChunk): nat {
    c.paddr + HEADER + c.used * SREGION_SIZE
  }

  ghost function SRegionAddr(slabs: seq<SlabChunk>, r: SRegion): nat
    requires r.home < |slabs|
  {
    slabs[r.home].paddr + HEADER + r.k * SREGION_SIZE
  }

  /** The i-th slab of a sub-region at a. */
  ghost function SlabAddr(a: nat, size: nat, i: nat): nat {
    a + HEADER + i * (SLAB_HEADER + size)
  }

  // ---------------------------------------------------------------- invariant

  /** The regions follow each other without a gap from lo to hi. */
  ghost predicate Tiled(rs: seq<Region>, lo: nat, hi: nat) {
    if rs == [] then lo == hi
    else
      var r := rs[|rs| - 1];
      && Tiled(rs[..|rs| - 1], lo, r.paddr) && r.paddr + r.size == hi
      && r.size > HEADER && r.size % 8 == 0
  }

  ghost function DirtySum(rs: seq<Region>): nat {
    if rs == [] then 0
    else DirtySum(rs[..|rs| - 1]) + if rs[|rs| - 1].dirty then rs[|rs| - 1].size else 0
  }

  ghost predicate LogOk(c: LogChunk) {
    && Tiled(c.regions, c.paddr + HEADER, c.tail)
    && c.tail - c.paddr + c.avail == CHUNK_SIZE
    && c.dirty == DirtySum(c.regions)
  }

  ghost predicate SlabOk(c: SlabChunk) {
    HEADER + c.used * SREGION_SIZE <= CHUNK_SIZE
  }

  ghost predicate SRegionOk(slabs: seq<SlabChunk>, r: SRegion) {
    && r.home < |slabs| && r.k < slabs[r.home].used
    && r.size in CLASSES && r.size % 8 == 0
    && HEADER + r.count * (SLAB_HEADER + r.size) <= SREGION_SIZE
  }

  /** Every chunk of the arena is in use at the pool, and no two are the same chunk. */
  ghost predicate HomesOk(out: set<nat>, logs: seq<LogChunk>, slabs: seq<SlabChunk>) {
    && (forall i :: 0 <= i < |logs| ==> logs[i].paddr in out)
    && (forall i :: 0 <= i < |slabs| ==> slabs[i].paddr in out)
    && (forall i, j :: 0 <= i < j < |logs| ==> logs[i].paddr != logs[j].paddr)
    && (forall i, j :: 0 <= i < j < |slabs| ==> slabs[i].paddr != slabs[j].paddr)
    && (forall i, j :: 0 <= i < |logs| && 0 <= j < |slabs| ==> logs[i].paddr != slabs[j].paddr)
  }

  ghost predicate CurOk(cur: seq<Option<nat>>, sregions: seq<SRegion>) {
    && |cur| == |CLASSES|
    && forall c :: 0 <= c < |cur| && cur[c].Some? ==>
         cur[c].value < |sregions| && sregions[cur[c].value].size == CLASSES[c]
  }

  ghost predicate LogsOk(logs: seq<LogChunk>) {
    forall i :: 0 <= i < |logs| ==> LogOk(logs[i])
  }

  ghost predicate SlabsOk(slabs: seq<SlabChunk>) {
    forall i :: 0 <= i < |slabs| ==> SlabOk(slabs[i])
  }

  ghost predicate SRegionsOk(slabs: seq<SlabChunk>, sregions: seq<SRegion>) {
    && (forall i :: 0 <= i < |sregions| ==> SRegionOk(slabs, sregions[i]))
    && (forall i, j :: 0 <= i < j < |sregions| ==>
          sregions[i].home != sregions[j].home || sregions[i].k != sregions[j].k)
  }

  ghost predicate ArenaInv(s: ArenaState) {
    && Inv(s.pool) && HomesOk(s.pool.out, s.logs, s.slabs) && CurOk(s.cur, s.sregions)
    && LogsOk(s.logs) && SlabsOk(s.slabs) && SRegionsOk(s.slabs, s.sregions)
  }

  // ---------------------------------------------------------------- what is handed out

  /** Everything the arena has placed in persistent memory: headers, and payloads in use or dirty. */
  datatype Source =
    | LogHeader(i: nat) | RegionHeader(i: nat, j: nat) | RegionPayload(i: nat, j: nat)
    | SlabChunkHeader(i: nat) | SRegionHeader(i: nat) | SlabHeader(i: nat, j: nat) | SlabPayload(i: nat, j: nat)

  ghost predicate Exists(s: ArenaState, x: Source) {
    match x
    case LogHeader(i) => i < |s.logs|
    case RegionHeader(i, j) => i < |s.logs| && j < |s.logs[i].regions|
    case RegionPayload(i, j) => i < |s.logs| && j < |s.logs[i].regions|
    case SlabChunkHeader(i) => i < |s.slabs|
    case SRegionHeader(i) => i < |s.sregions| && s.sregions[i].home < |s.slabs|
    case SlabHeader(i, j) => i < |s.sregions| && s.sregions[i].home < |s.slabs| && j < s.sregions[i].count
    case SlabPayload(i, j) => i < |s.sregions| && s.sregions[i].home < |s.slabs| && j < s.sregions[i].count
  }

  datatype Extent = Extent(lo: nat, hi: nat)

  ghost function ExtentOf(s: ArenaState, x: Source): Extent
    requires Exists(s, x)
  {
    match x
    case LogHeader(i) => Extent(s.logs[i].paddr, s.logs[i].paddr + HEADER)
    case RegionHeader(i, j) =>
      var r := s.logs[i].regions[j];
      Extent(r.paddr, r.paddr + HEADER)
    case RegionPayload(i, j) =>
      var r := s.logs[i].regions[j];
      Extent(r.paddr + HEADER, r.paddr + r.size)
    case SlabChunkHeader(i) => Extent(s.slabs[i].paddr, s.slabs[i].paddr + HEADER)
    case SRegionHeader(i) =>
      var a := SRegionAddr(s.slabs, s.sregions[i]);
      Extent(a, a + HEADER)
    case SlabHeader(i, j) =>
      var a := SlabAddr(SRegionAddr(s.slabs, s.sregions[i]), s.sregions[i].size, j);
      Extent(a, a + SLAB_HEADER)
    case SlabPayload(i, j) =>
      var a := SlabAddr(SRegionAddr(s.slabs, s.sregions[i]), s.sregions[i].size, j);
      Extent(a + SLAB_HEADER, a + SLAB_HEADER + s.sregions[i].size)
  }

  ghost predicate Disjoint(e: Extent, f: Extent) {
    e.hi <= f.lo || f.hi <= e.lo
  }

  /** The chunk something lies in. */
  ghost function Home(s: ArenaState, x: Source): nat
    requires Exists(s, x)
  {
    match x
    case LogHeader(i) => s.logs[i].paddr
    case RegionHeader(i, _) => s.logs[i].paddr
    case RegionPayload(i, _) => s.logs[i].paddr
    case SlabChunkHeader(i) => s.slabs[i].paddr
    case SRegionHeader(i) => s.slabs[s.sregions[i].home].paddr
    case SlabHeader(i, _) => s.slabs[s.sregions[i].home].paddr
    case SlabPayload(i, _) => s.slabs[s.sregions[i].home].paddr
  }

  // ---------------------------------------------------------------- tilings

  lemma {:induction false} TiledAt(rs: seq<Region>, lo: nat, hi: nat, j: nat)
    requires Tiled(rs, lo, hi) && j < |rs|
    ensures lo <= rs[j].paddr && rs[j].paddr + rs[j].size <= hi
    ensures rs[j].size > HEADER && rs[j].size % 8 == 0
    decreases |rs|
  {
    var init := rs[..|rs| - 1];
    TiledBounds(init, lo, rs[|rs| - 1].paddr);
    if j < |rs| - 1 {
      TiledAt(init, lo, rs[|rs| - 1].paddr, j);
    }
  }

  lemma {:induction false} TiledBounds(rs: seq<Region>, lo: nat, hi: nat)
    requires Tiled(rs, lo, hi)
    ensures lo <= hi
    decreases |rs|
  {
    if rs != [] {
      TiledBounds(rs[..|rs| - 1], lo, rs[|rs| - 1].paddr);
    }
  }

  lemma {:induction false} TiledOrder(rs: seq<Region>, lo: nat, hi: nat, i: nat, j: nat)
    requires Tiled(rs, lo, hi) && i < j < |rs|
    ensures rs[i].paddr + rs[i].size <= rs[j].paddr
    decreases |rs|
  {
    var init, last := rs[..|rs| - 1], rs[|rs| - 1];
    if j < |rs| - 1 {
      TiledOrder(init, lo, last.paddr, i, j);
    } else {
      TiledAt(init, lo, last.paddr, i);
    }
  }

  lemma {:induction false} TiledAligned(rs: seq<Region>, lo: nat, hi: nat, j: nat)
    requires Tiled(rs, lo, hi) && j < |rs| && lo % 8 == 0
    ensures rs[j].paddr % 8 == 0 && hi % 8 == 0
    decreases |rs|
  {
    var init, last := rs[..|rs| - 1], rs[|rs| - 1];
    if init == [] {
    } else {
      TiledAligned(init, lo, last.paddr, if j < |init| then j else 0);
    }
  }

  lemma TimesStep(i: nat, j: nat, d: nat)
    requires i < j
    ensures i * d + d <= j * d
  {
    assert (j - i - 1) * d >= 0;
    assert j * d == i * d + d + (j - i - 1) * d;
  }

  // ---------------------------------------------------------------- the layout theorem

  lemma ExtentInHome(s: ArenaState, x: Source)
    requires ArenaInv(s) && Exists(s, x)
    ensures var e, h := ExtentOf(s, x), Home(s, x);
      h <= e.lo < e.hi <= h + CHUNK_SIZE && h in s.pool.out
  {
    match x
    case LogHeader(i) =>
      assert LogOk(s.logs[i]);
      TiledBounds(s.logs[i].regions, s.logs[i].paddr + HEADER, s.logs[i].tail);
    case RegionHeader(i, j) => RegionInLog(s.logs[i], j);
    case RegionPayload(i, j) => RegionInLog(s.logs[i], j);
    case SlabChunkHeader(i) =>
      assert SlabOk(s.slabs[i]);
    case SRegionHeader(i) => SRegionInHome(s, i);
    case SlabHeader(i, j) =>
      SRegionInHome(s, i);
      SlabInSRegion(s, i, j);
    case SlabPayload(i, j) =>
      SRegionInHome(s, i);
      SlabInSRegion(s, i, j);
  }

  lemma RegionInLog(c: LogChunk, j: nat)
    requires LogOk(c) && j < |c.regions|
    ensures c.paddr + HEADER <= c.regions[j].paddr && c.regions[j].size > HEADER
    ensures c.regions[j].paddr + c.regions[j].size <= c.paddr + CHUNK_SIZE
  {
    TiledAt(c.regions, c.paddr + HEADER, c.tail, j);
  }

  lemma RegionsApart(c: LogChunk, j: nat, k: nat)
    requires LogOk(c) && j < |c.regions| && k < |c.regions| && j != k
    ensures var q, r := c.regions[j], c.regions[k]; q.paddr + q.size <= r.paddr || r.paddr + r.size <= q.paddr
  {
    TiledOrder(c.regions, c.paddr + HEADER, c.tail, if j < k then j else k, if j < k then k else j);
  }

  lemma SRegionInHome(s: ArenaState, i: nat)
    requires ArenaInv(s) && i < |s.sregions|
    ensures var r := s.sregions[i];
      && r.home < |s.slabs|
      && s.slabs[r.home].paddr + HEADER <= SRegionAddr(s.slabs, r)
      && SRegionAddr(s.slabs, r) + SREGION_SIZE <= s.slabs[r.home].paddr + CHUNK_SIZE
  {
    var r := s.sregions[i];
    assert SRegionOk(s.slabs, r) && SlabOk(s.slabs[r.home]);
    TimesStep(r.k, s.slabs[r.home].used, SREGION_SIZE);
  }

  lemma SlabInSRegion(s: ArenaState, i: nat, j: nat)
    requires ArenaInv(s) && i < |s.sregions| && j < s.sregions[i].count && s.sregions[i].home < |s.slabs|
    ensures var r := s.sregions[i];
      var a := SRegionAddr(s.slabs, r);
      && a + HEADER <= SlabAddr(a, r.size, j)
      && SlabAddr(a, r.size, j) + SLAB_HEADER + r.size <= a + SREGION_SIZE
      && r.size > 0
  {
    var r := s.sregions[i];
    assert SRegionOk(s.slabs, r);
    TimesStep(j, r.count, SLAB_HEADER + r.size);
    assert j * (SLAB_HEADER + r.size) >= 0;
  }

  ghost predicate InLog(x: Source, i: nat) {
    match x
    case LogHeader(i') => i' == i
    case RegionHeader(i', _) => i' == i
    case RegionPayload(i', _) => i' == i
    case _ => false
  }

  ghost predicate InSRegion(x: Source, i: nat) {
    match x
    case SRegionHeader(i') => i' == i
    case SlabHeader(i', _) => i' == i
    case SlabPayload(i', _) => i' == i
    case _ => false
  }

  /** The region of a log chunk that something belongs to; none for the chunk's own header. */
  ghost function RegionOf(x: Source): Option<nat> {
    match x
    case RegionHeader(_, j) => Some(j)
    case RegionPayload(_, j) => Some(j)
    case _ => None
  }

  ghost function SlabOf(x: Source): Option<nat> {
    match x
    case SlabHeader(_, j) => Some(j)
    case SlabPayload(_, j) => Some(j)
    case _ => None
  }

  lemma LogParts(s: ArenaState, i: nat, x: Source)
    requires ArenaInv(s) && Exists(s, x) && InLog(x, i)
    ensures var e, c := ExtentOf(s, x), s.logs[i];
      if RegionOf(x).None? then x == LogHeader(i) && e == Extent(c.paddr, c.paddr + HEADER)
      else
        var r := c.regions[RegionOf(x).value];
        c.paddr + HEADER <= r.paddr <= e.lo && e.hi <= r.paddr + r.size
  {
    match RegionOf(x)
    case None =>
    case Some(j) => RegionInLog(s.logs[i], j);
  }

  lemma LogApart(s: ArenaState, i: nat, x: Source, y: Source)
    requires ArenaInv(s) && Exists(s, x) && Exists(s, y) && InLog(x, i) && InLog(y, i) && x != y
    ensures Disjoint(ExtentOf(s, x), ExtentOf(s, y))
  {
    LogParts(s, i, x);
    LogParts(s, i, y);
    if RegionOf(x).Some? && RegionOf(y).Some? && RegionOf(x) != RegionOf(y) {
      RegionsApart(s.logs[i], RegionOf(x).value, RegionOf(y).value);
    }
  }

  lemma SRegionParts(s: ArenaState, i: nat, x: Source)
    requires ArenaInv(s) && Exists(s, x) && InSRegion(x, i)
    ensures var e, r := ExtentOf(s, x), s.sregions[i];
      var a := SRegionAddr(s.slabs, r);
      && a <= e.lo && e.hi <= a + SREGION_SIZE
      && if SlabOf(x).None? then x == SRegionHeader(i) && e == Extent(a, a + HEADER)
         else
           var b := SlabAddr(a, r.size, SlabOf(x).value);
           a + HEADER <= b <= e.lo && e.hi <= b + SLAB_HEADER + r.size
  {
    match SlabOf(x)
    case None =>
    case Some(j) => SlabInSRegion(s, i, j);
  }

  lemma SRegionApart(s: ArenaState, i: nat, x: Source, y: Source)
    requires ArenaInv(s) && Exists(s, x) && Exists(s, y) && InSRegion(x, i) && InSRegion(y, i) && x != y
    ensures Disjoint(ExtentOf(s, x), ExtentOf(s, y))
  {
    SRegionParts(s, i, x);
    SRegionParts(s, i, y);
    if SlabOf(x).Some? && SlabOf(y).Some? && SlabOf(x) != SlabOf(y) {
      var j, k := SlabOf(x).value, SlabOf(y).value;
      TimesStep(if j < k then j else k, if j < k then k else j, SLAB_HEADER + s.sregions[i].size);
    }
  }

  lemma SRegionsApart(s: ArenaState, i: nat, j: nat)
    requires ArenaInv(s) && i < |s.sregions| && j < |s.sregions| && i != j
    requires s.sregions[i].home == s.sregions[j].home < |s.slabs|
    ensures var a, b := SRegionAddr(s.slabs, s.sregions[i]), SRegionAddr(s.slabs, s.sregions[j]);
      a + SREGION_SIZE <= b || b + SREGION_SIZE <= a
  {
    var k, l := s.sregions[i].k, s.sregions[j].k;
    assert k != l;
    TimesStep(if k < l then k else l, if k < l then l else k, SREGION_SIZE);
  }

  ghost function SRegionOf(x: Source): Option<nat> {
    match x
    case SRegionHeader(i) => Some(i)
    case SlabHeader(i, _) => Some(i)
    case SlabPayload(i, _) => Some(i)
    case _ => None
  }

  lemma SlabChunkApart(s: ArenaState, x: Source, y: Source)
    requires ArenaInv(s) && Exists(s, x) && Exists(s, y) && x != y && Home(s, x) == Home(s, y)
    requires x.SlabChunkHeader? || SRegionOf(x).Some?
    requires y.SlabChunkHeader? || SRegionOf(y).Some?
    ensures Disjoint(ExtentOf(s, x), ExtentOf(s, y))
  {
    if SRegionOf(x).Some? {
      SRegionInHome(s, SRegionOf(x).value);
      SRegionParts(s, SRegionOf(x).value, x);
    }
    if SRegionOf(y).Some? {
      SRegionInHome(s, SRegionOf(y).value);
      SRegionParts(s, SRegionOf(y).value, y);
    }
    if SRegionOf(x).Some? && SRegionOf(y).Some? {
      if SRegionOf(x) == SRegionOf(y) {
        SRegionApart(s, SRegionOf(x).value, x, y);
      } else {
        SRegionsApart(s, SRegionOf(x).value, SRegionOf(y).value);
      }
    }
  }

  ghost function LogOf(x: Source): Option<nat> {
    match x
    case LogHeader(i) => Some(i)
    case RegionHeader(i, _) => Some(i)
    case RegionPayload(i, _) => Some(i)
    case _ => None
  }

  /** Nothing the arena has placed overlaps anything else it has placed. */
  lemma NoOverlap(s: ArenaState, x: Source, y: Source)
    requires ArenaInv(s) && Exists(s, x) && Exists(s, y) && x != y
    ensures Disjoint(ExtentOf(s, x), ExtentOf(s, y))
  {
    ExtentInHome(s, x);
    ExtentInHome(s, y);
    var h, k := Home(s, x), Home(s, y);
    if h != k {
      assert h in ChunksOf(s.pool.pools) && k in ChunksOf(s.pool.pools);
      ChunksApart(s.pool, if h < k then h else k, if h < k then k else h);
    } else if LogOf(x).Some? && LogOf(y).Some? {
      LogApart(s, LogOf(x).value, x, y);
    } else if LogOf(x).None? && LogOf(y).None? {
      SlabChunkApart(s, x, y);
    }
  }

  /** Payloads are aligned to eight bytes. */
  lemma PayloadAligned(s: ArenaState, x: Source)
    requires ArenaInv(s) && Exists(s, x) && (x.RegionPayload? || x.SlabPayload?)
    ensures ExtentOf(s, x).lo % 8 == 0
  {
    HomeAligned(s, x);
    match x
    case RegionPayload(i, j) =>
      RegionAligned(s.logs[i], j);
    case SlabPayload(i, j) =>
      var r := s.sregions[i];
      assert SRegionOk(s.slabs, r);
      SlabAligned(Home(s, x), r.k, r.size, j);
  }

  lemma RegionAligned(c: LogChunk, j: nat)
    requires LogOk(c) && c.paddr % 8 == 0 && j < |c.regions|
    ensures (c.regions[j].paddr + HEADER) % 8 == 0
  {
    TiledAligned(c.regions, c.paddr + HEADER, c.tail, j);
  }

  lemma HomeAligned(s: ArenaState, x: Source)
    requires ArenaInv(s) && Exists(s, x)
    ensures Home(s, x) % 8 == 0
  {
    ExtentInHome(s, x);
    var p := ChunkPlace(s.pool.pools, Home(s, x));
    AlignedDown(Home(s, x));
  }

  lemma SlabAligned(home: nat, k: nat, size: nat, j: nat)
    requires home % 8 == 0 && size % 8 == 0
    ensures (SlabAddr(home + HEADER + k * SREGION_SIZE, size, j) + SLAB_HEADER) % 8 == 0
  {
    MultipleOfMultiple(k, SREGION_SIZE);
    AddMod(SLAB_HEADER, size, 8);
    MultipleOfMultiple(j, SLAB_HEADER + size);
    EightfoldSum(home, k * SREGION_SIZE, j * (SLAB_HEADER + size));
  }

  lemma EightfoldSum(a: nat, b: nat, c: nat)
    requires a % 8 == 0 && b % 8 == 0 && c % 8 == 0
    ensures (a + 8 + b + 8 + c + 16) % 8 == 0
  {
    var k, l, m := a / 8, b / 8, c / 8;
    assert a + 8 + b + 8 + c + 16 == (k + l + m + 4) * 8;
    MultipleMod(k + l + m + 4, 8);
  }

  lemma AlignedDown(c: nat)
    requires c % CHUNK_SIZE == 0
    ensures c % 8 == 0
  {
    var k := c / CHUNK_SIZE;
    assert c == (k * 524288) * 8;
  }

  lemma MultipleOfMultiple(j: nat, d: nat)
    requires d % 8 == 0
    ensures j * d % 8 == 0
  {
    var k := d / 8;
    assert d == k * 8;
    assert j * d == (j * k) * 8;
    MultipleMod(j * k, 8);
  }

  // ---------------------------------------------------------------- operations

  /** A new arena. */
  ghost function Emptied(pool: PoolState): ArenaState {
    ArenaState(pool, [], [], [], seq(|CLASSES|, _ => None))
  }

  /** A large request with its header, rounded up to eight bytes. */
  function LargeNeed(size: nat): (r: nat) {
    Ceiling(size + HEADER, 8)
  }

  /** The requests a fresh log chunk can hold. */
  predicate Fits(size: nat) {
    LargeNeed(size) <= CHUNK_ROOM
  }

  lemma FitsExactly(size: nat)
    ensures Fits(size) <==> size <= CHUNK_SIZE - 2 * HEADER
  {
  }

  function SizeOf(cls: nat): nat
    requires cls < |CLASSES|
  {
    CLASSES[cls]
  }

  /** The least class that holds the size. */
  ghost predicate IsClassOf(size: nat, cls: nat) {
    cls < |CLASSES| && size <= CLASSES[cls] && forall i :: 0 <= i < cls ==> CLASSES[i] < size
  }

  lemma ClassSizes(cls: nat)
    requires cls < |CLASSES|
    ensures CLASSES[cls] % 8 == 0 && CLASSES[cls] in CLASSES
    ensures HEADER + SLAB_HEADER + CLASSES[cls] <= SREGION_SIZE
  {
  }

  ghost predicate PoolReady(s: ArenaState, base: nat) {
    s.pool.queue == [] ==> Fresh(base, s.pool.pools)
  }

  /** The chunk the pool hands out next. */
  ghost function NextChunk(s: ArenaState, base: nat): nat {
    ChunksFromAre(base, CHUNKS_PER_POOL);
    Replenished(s.pool, base).queue[0]
  }

  ghost function Retired(c: LogChunk): LogChunk {
    c.(live := false)
  }

  ghost function RetireLast(logs: seq<LogChunk>): seq<LogChunk> {
    if logs == [] then [] else logs[..|logs| - 1] + [Retired(logs[|logs| - 1])]
  }

  ghost function NewLog(c: nat): LogChunk {
    LogChunk(c, c + HEADER, CHUNK_ROOM, 0, true, [])
  }

  lemma RetireLastIs(logs: seq<LogChunk>)
    ensures |RetireLast(logs)| == |logs|
    ensures forall i :: 0 <= i < |logs| ==>
      RetireLast(logs)[i] == (if i == |logs| - 1 then Retired(logs[i]) else logs[i])
      && LogGrows(logs[i], RetireLast(logs)[i])
    ensures LogsOk(logs) ==> LogsOk(RetireLast(logs))
  {
    forall i | 0 <= i < |logs| && LogsOk(logs) ensures LogOk(RetireLast(logs)[i]) {
      assert LogOk(logs[i]);
    }
  }

  /** The newest log chunk is retired, and a new one put in front of it. */
  ghost function OpenLog(s: ArenaState, base: nat): ArenaState {
    var c := NextChunk(s, base);
    s.(pool := Allocated(s.pool, base), logs := RetireLast(s.logs) + [NewLog(c)])
  }

  ghost predicate LogRoom(s: ArenaState, need: nat) {
    s.logs != [] && s.logs[|s.logs| - 1].avail >= need
  }

  /** size_t subtraction. */
  function Sub64(a: nat, b: nat): nat {
    (a - b) % Bits.WORD
  }

  /** One more region behind the last one, whether or not it fits. */
  ghost function Appended(c: LogChunk, need: nat): LogChunk {
    c.(tail := c.tail + need, avail := Sub64(c.avail, need), regions := c.regions + [Region(c.tail, need, false)])
  }

  ghost function AppendLast(logs: seq<LogChunk>, need: nat): seq<LogChunk>
    requires logs != []
  {
    logs[..|logs| - 1] + [Appended(logs[|logs| - 1], need)]
  }

  ghost function AppendRegion(s: ArenaState, need: nat): ArenaState
    requires s.logs != []
  {
    s.(logs := AppendLast(s.logs, need))
  }

  ghost function LogOpened(s: ArenaState, need: nat, base: nat): (t: ArenaState)
    ensures t.logs != []
  {
    if LogRoom(s, need) then s else OpenLog(s, base)
  }

  /** A region at the end of the newest log chunk if that has room, else in a new one. */
  ghost function RegionAllocated(s: ArenaState, need: nat, base: nat): ArenaState {
    AppendRegion(LogOpened(s, need, base), need)
  }

  ghost function LargeAllocated(s: ArenaState, size: nat, base: nat): ArenaState {
    RegionAllocated(s, LargeNeed(size), base)
  }

  ghost function OpenSlabs(s: ArenaState, base: nat): ArenaState {
    s.(pool := Allocated(s.pool, base), slabs := s.slabs + [SlabChunk(NextChunk(s, base), 0)])
  }

  ghost predicate SlabRoom(s: ArenaState) {
    s.slabs != [] && CHUNK_ROOM - s.slabs[|s.slabs| - 1].used * SREGION_SIZE >= SREGION_SIZE
  }

  ghost function CutLast(slabs: seq<SlabChunk>): seq<SlabChunk>
    requires slabs != []
  {
    var h := |slabs| - 1;
    slabs[..h] + [slabs[h].(used := slabs[h].used + 1)]
  }

  /** Cuts the next sub-region of the newest slab chunk, with one slab in it. */
  ghost function Cut(s: ArenaState, cls: nat): ArenaState
    requires s.slabs != [] && cls < |CLASSES| == |s.cur|
  {
    var h := |s.slabs| - 1;
    s.(slabs := CutLast(s.slabs),
       sregions := s.sregions + [SRegion(h, s.slabs[h].used, SizeOf(cls), 1)],
       cur := s.cur[cls := Some(|s.sregions|)])
  }

  ghost function SlabOpened(s: ArenaState, base: nat): (t: ArenaState)
    ensures t.slabs != [] && t.cur == s.cur && t.sregions == s.sregions
  {
    if SlabRoom(s) then s else OpenSlabs(s, base)
  }

  ghost function SmallHard(s: ArenaState, cls: nat, base: nat): ArenaState
    requires cls < |CLASSES| == |s.cur|
  {
    Cut(SlabOpened(s, base), cls)
  }

  /** One more slab fits behind the last one of the sub-region. */
  ghost predicate SRegionRoom(r: SRegion) {
    SlabAddr(0, r.size, r.count + 1) <= SREGION_SIZE
  }

  ghost function AddSlab(s: ArenaState, i: nat): ArenaState
    requires i < |s.sregions|
  {
    s.(sregions := s.sregions[i := s.sregions[i].(count := s.sregions[i].count + 1)])
  }

  ghost function SmallAllocated(s: ArenaState, cls: nat, base: nat): ArenaState
    requires cls < |CLASSES| == |s.cur| && (s.cur[cls].Some? ==> s.cur[cls].value < |s.sregions|)
  {
    if s.cur[cls].Some? && SRegionRoom(s.sregions[s.cur[cls].value]) then AddSlab(s, s.cur[cls].value)
    else SmallHard(s, cls, base)
  }

  ghost function MarkedDirty(c: LogChunk, j: nat): LogChunk
    requires j < |c.regions|
  {
    c.(dirty := c.dirty + c.regions[j].size, regions := c.regions[j := c.regions[j].(dirty := true)])
  }

  ghost function Deallocated(s: ArenaState, i: nat, j: nat): ArenaState
    requires i < |s.logs| && j < |s.logs[i].regions|
  {
    s.(logs := s.logs[i := MarkedDirty(s.logs[i], j)])
  }

  // ---------------------------------------------------------------- operations keep the invariant

  ghost predicate LogGrows(c: LogChunk, d: LogChunk) {
    && d.paddr == c.paddr && |c.regions| <= |d.regions|
    && forall j :: 0 <= j < |c.regions| ==>
         d.regions[j].paddr == c.regions[j].paddr && d.regions[j].size == c.regions[j].size
  }

  ghost predicate SRegionGrows(q: SRegion, r: SRegion) {
    r.home == q.home && r.k == q.k && r.size == q.size && q.count <= r.count
  }

  ghost predicate Grows(s: ArenaState, t: ArenaState) {
    && s.pool.out <= t.pool.out
    && |s.logs| <= |t.logs| && (forall i :: 0 <= i < |s.logs| ==> LogGrows(s.logs[i], t.logs[i]))
    && |s.slabs| <= |t.slabs| && (forall i :: 0 <= i < |s.slabs| ==> t.slabs[i].paddr == s.slabs[i].paddr)
    && |s.sregions| <= |t.sregions|
    && (forall i :: 0 <= i < |s.sregions| ==> SRegionGrows(s.sregions[i], t.sregions[i]))
  }

  /** What was placed before an operation is still there afterwards, and has not moved. */
  lemma NothingMoves(s: ArenaState, t: ArenaState, x: Source)
    requires Grows(s, t) && Exists(s, x)
    ensures Exists(t, x) && ExtentOf(t, x) == ExtentOf(s, x) && Home(t, x) == Home(s, x)
  {
    match x
    case LogHeader(i) => assert LogGrows(s.logs[i], t.logs[i]);
    case RegionHeader(i, j) => assert LogGrows(s.logs[i], t.logs[i]);
    case RegionPayload(i, j) => assert LogGrows(s.logs[i], t.logs[i]);
    case SlabChunkHeader(i) =>
    case SRegionHeader(i) => assert SRegionGrows(s.sregions[i], t.sregions[i]);
    case SlabHeader(i, j) => assert SRegionGrows(s.sregions[i], t.sregions[i]);
    case SlabPayload(i, j) => assert SRegionGrows(s.sregions[i], t.sregions[i]);
  }

  lemma HomesWithLog(out: set<nat>, logs: seq<LogChunk>, logs': seq<LogChunk>, slabs: seq<SlabChunk>, c: nat)
    requires HomesOk(out, logs, slabs) && c !in out && |logs'| == |logs| + 1
    requires logs'[|logs|].paddr == c && forall i :: 0 <= i < |logs| ==> logs'[i].paddr == logs[i].paddr
    ensures HomesOk(out + {c}, logs', slabs)
  {
  }

  lemma HomesWithSlab(out: set<nat>, logs: seq<LogChunk>, slabs: seq<SlabChunk>, slabs': seq<SlabChunk>, c: nat)
    requires HomesOk(out, logs, slabs) && c !in out && |slabs'| == |slabs| + 1
    requires slabs'[|slabs|].paddr == c && forall i :: 0 <= i < |slabs| ==> slabs'[i].paddr == slabs[i].paddr
    ensures HomesOk(out + {c}, logs, slabs')
  {
  }

  lemma HomesSame(out: set<nat>, logs: seq<LogChunk>, logs': seq<LogChunk>, slabs: seq<SlabChunk>,
                  slabs': seq<SlabChunk>)
    requires HomesOk(out, logs, slabs) && |logs'| == |logs| && |slabs'| == |slabs|
    requires forall i :: 0 <= i < |logs| ==> logs'[i].paddr == logs[i].paddr
    requires forall i :: 0 <= i < |slabs| ==> slabs'[i].paddr == slabs[i].paddr
    ensures HomesOk(out, logs', slabs')
  {
  }

  lemma OpenLogInv(s: ArenaState, base: nat)
    requires ArenaInv(s) && PoolReady(s, base)
    ensures ArenaInv(OpenLog(s, base))
  {
    AllocatedInv(s.pool, base);
    LogsRetired(s.logs, NextChunk(s, base));
    HomesWithLog(s.pool.out, s.logs, OpenLog(s, base).logs, s.slabs, NextChunk(s, base));
  }

  lemma OpenLogGrows(s: ArenaState, base: nat)
    requires Inv(s.pool) && PoolReady(s, base)
    ensures Grows(s, OpenLog(s, base)) && LogRoom(OpenLog(s, base), CHUNK_ROOM)
  {
    AllocatedInv(s.pool, base);
    LogsRetired(s.logs, NextChunk(s, base));
    LogsGrow(s, OpenLog(s, base));
  }

  lemma LogsRetired(logs: seq<LogChunk>, c: nat)
    ensures var logs' := RetireLast(logs) + [NewLog(c)];
      && |logs'| == |logs| + 1 && logs'[|logs|].paddr == c
      && (forall i :: 0 <= i < |logs| ==> LogGrows(logs[i], logs'[i]))
      && (LogsOk(logs) ==> LogsOk(logs'))
  {
    RetireLastIs(logs);
    assert LogOk(NewLog(c));
  }

  lemma LogsGrow(s: ArenaState, t: ArenaState)
    requires s.pool.out <= t.pool.out && t.slabs == s.slabs && t.sregions == s.sregions && |s.logs| <= |t.logs|
    requires forall i :: 0 <= i < |s.logs| ==> LogGrows(s.logs[i], t.logs[i])
    ensures Grows(s, t)
  {
  }

  lemma AppendedOk(c: LogChunk, need: nat)
    requires LogOk(c) && c.avail >= need > HEADER && need % 8 == 0
    ensures LogOk(Appended(c, need)) && LogGrows(c, Appended(c, need))
  {
    TiledBounds(c.regions, c.paddr + HEADER, c.tail);
    assert Sub64(c.avail, need) == c.avail - need;
    assert Appended(c, need).regions[..|c.regions|] == c.regions;
  }

  lemma AppendRegionInv(s: ArenaState, need: nat)
    requires ArenaInv(s) && LogRoom(s, need) && need > HEADER && need % 8 == 0
    ensures ArenaInv(AppendRegion(s, need)) && Grows(s, AppendRegion(s, need))
  {
    var t, h := AppendRegion(s, need), |s.logs| - 1;
    AppendedOk(s.logs[h], need);
    forall i | 0 <= i < |s.logs| ensures LogGrows(s.logs[i], t.logs[i]) && LogOk(t.logs[i]) {
      if i < h {
        assert t.logs[i] == s.logs[i] && LogOk(s.logs[i]);
      }
    }
  }

  lemma GrowsTrans(s: ArenaState, t: ArenaState, u: ArenaState)
    requires Grows(s, t) && Grows(t, u)
    ensures Grows(s, u)
  {
    forall i | 0 <= i < |s.logs| ensures LogGrows(s.logs[i], u.logs[i]) {
      assert LogGrows(s.logs[i], t.logs[i]) && LogGrows(t.logs[i], u.logs[i]);
    }
    forall i | 0 <= i < |s.sregions| ensures SRegionGrows(s.sregions[i], u.sregions[i]) {
      assert SRegionGrows(s.sregions[i], t.sregions[i]) && SRegionGrows(t.sregions[i], u.sregions[i]);
    }
  }

  lemma GrowsRefl(s: ArenaState)
    ensures Grows(s, s)
  {
  }

  /** The newest region of the newest log chunk: where a large request's payload is. */
  ghost function NewestRegion(s: ArenaState): Source
    requires s.logs != [] && s.logs[|s.logs| - 1].regions != []
  {
    RegionPayload(|s.logs| - 1, |s.logs[|s.logs| - 1].regions| - 1)
  }

  /** x is the newest region of t, is new in t, and has the given extent. */
  ghost predicate NewRegion(s: ArenaState, t: ArenaState, x: Source, lo: nat, size: nat) {
    && t.logs != [] && t.logs[|t.logs| - 1].regions != []
    && x == NewestRegion(t) && Exists(t, x) && !Exists(s, x)
    && ExtentOf(t, x) == Extent(lo, lo + size)
  }

  ghost function RegionPlace(s: ArenaState, need: nat, base: nat): nat {
    var m := LogOpened(s, need, base);
    m.logs[|m.logs| - 1].tail + HEADER
  }

  lemma NewestPlace(m: ArenaState, need: nat)
    requires m.logs != [] && need > HEADER
    ensures var t := AppendRegion(m, need);
      NewRegion(m, t, NewestRegion(t), m.logs[|m.logs| - 1].tail + HEADER, need - HEADER)
  {
  }

  lemma LogOpenedInv(s: ArenaState, need: nat, base: nat)
    requires ArenaInv(s) && PoolReady(s, base) && need <= CHUNK_ROOM
    ensures var m := LogOpened(s, need, base); ArenaInv(m) && Grows(s, m) && LogRoom(m, need)
  {
    if LogRoom(s, need) {
      GrowsRefl(s);
    } else {
      OpenLogInv(s, base);
      OpenLogGrows(s, base);
    }
  }

  /** A region that fits a fresh chunk is new, has its extent, and moves nothing else. */
  lemma RegionAllocatedInv(s: ArenaState, need: nat, base: nat) returns (x: Source)
    requires ArenaInv(s) && PoolReady(s, base) && HEADER < need <= CHUNK_ROOM && need % 8 == 0
    ensures var t := RegionAllocated(s, need, base);
      ArenaInv(t) && Grows(s, t) && NewRegion(s, t, x, RegionPlace(s, need, base), need - HEADER)
  {
    var m := LogOpened(s, need, base);
    LogOpenedInv(s, need, base);
    x := AppendedSince(s, m, need);
    var t, lo := AppendRegion(m, need), m.logs[|m.logs| - 1].tail + HEADER;
    assert t == RegionAllocated(s, need, base) && lo == RegionPlace(s, need, base);
    assert NewRegion(s, t, x, lo, need - HEADER);
  }

  lemma AppendedSince(s: ArenaState, m: ArenaState, need: nat) returns (x: Source)
    requires ArenaInv(m) && Grows(s, m) && LogRoom(m, need) && need > HEADER && need % 8 == 0
    ensures ArenaInv(AppendRegion(m, need)) && Grows(s, AppendRegion(m, need))
    ensures NewRegion(s, AppendRegion(m, need), x, m.logs[|m.logs| - 1].tail + HEADER, need - HEADER)
  {
    var t := AppendRegion(m, need);
    x := NewestRegion(t);
    AppendRegionInv(m, need);
    GrowsTrans(s, m, t);
    NewestPlace(m, need);
    NewSince(s, m, t, x, m.logs[|m.logs| - 1].tail + HEADER, need - HEADER);
  }

  lemma NewSince(s: ArenaState, m: ArenaState, t: ArenaState, x: Source, lo: nat, size: nat)
    requires Grows(s, m) && NewRegion(m, t, x, lo, size)
    ensures NewRegion(s, t, x, lo, size)
  {
    if Exists(s, x) {
      NothingMoves(s, m, x);
    }
  }

  /** A large request that fits gets a new payload of at least its size; nothing else moves. */
  lemma LargeAllocatedInv(s: ArenaState, size: nat, base: nat) returns (x: Source)
    requires ArenaInv(s) && PoolReady(s, base) && Fits(size) && size > 0
    ensures var t := LargeAllocated(s, size, base);
      && ArenaInv(t) && Grows(s, t)
      && NewRegion(s, t, x, LargePlace(s, size, base), LargeNeed(size) - HEADER)
    ensures LargeNeed(size) - HEADER >= size
  {
    x := RegionAllocatedInv(s, LargeNeed(size), base);
  }

  lemma SRegionsKept(slabs: seq<SlabChunk>, slabs': seq<SlabChunk>, sregions: seq<SRegion>)
    requires SRegionsOk(slabs, sregions) && |slabs| <= |slabs'|
    requires forall i :: 0 <= i < |slabs| ==> slabs[i].used <= slabs'[i].used
    ensures SRegionsOk(slabs', sregions)
  {
    forall i | 0 <= i < |sregions| ensures SRegionOk(slabs', sregions[i]) {
      assert SRegionOk(slabs, sregions[i]);
    }
  }

  lemma OpenSlabsInv(s: ArenaState, base: nat)
    requires ArenaInv(s) && PoolReady(s, base)
    ensures ArenaInv(OpenSlabs(s, base))
  {
    AllocatedInv(s.pool, base);
    var slabs', c := OpenSlabs(s, base).slabs, NextChunk(s, base);
    SlabsWith(s.slabs, c);
    HomesWithSlab(s.pool.out, s.logs, s.slabs, slabs', c);
    SRegionsKept(s.slabs, slabs', s.sregions);
  }

  lemma SlabsWith(slabs: seq<SlabChunk>, c: nat)
    requires SlabsOk(slabs)
    ensures SlabsOk(slabs + [SlabChunk(c, 0)])
    ensures forall i :: 0 <= i < |slabs| ==> (slabs + [SlabChunk(c, 0)])[i] == slabs[i]
  {
    assert SlabOk(SlabChunk(c, 0));
  }

  lemma OpenSlabsGrows(s: ArenaState, base: nat)
    requires Inv(s.pool) && PoolReady(s, base)
    ensures Grows(s, OpenSlabs(s, base)) && SlabRoom(OpenSlabs(s, base))
  {
    AllocatedInv(s.pool, base);
    SlabsGrow(s, OpenSlabs(s, base));
  }

  lemma SlabsGrow(s: ArenaState, t: ArenaState)
    requires s.pool.out <= t.pool.out && t.logs == s.logs && t.sregions == s.sregions && |s.slabs| <= |t.slabs|
    requires forall i :: 0 <= i < |s.slabs| ==> t.slabs[i].paddr == s.slabs[i].paddr
    ensures Grows(s, t)
  {
  }

  lemma CutInv(s: ArenaState, cls: nat)
    requires ArenaInv(s) && SlabRoom(s) && cls < |CLASSES|
    ensures ArenaInv(Cut(s, cls)) && Grows(s, Cut(s, cls))
  {
    var t, n := Cut(s, cls), |s.sregions|;
    ClassSizes(cls);
    CutLastIs(s.slabs);
    HomesSame(s.pool.out, s.logs, t.logs, s.slabs, t.slabs);
    SRegionsKept(s.slabs, t.slabs, s.sregions);
    CutDistinct(s.slabs, t.slabs, s.sregions, t.sregions[n]);
    CurSet(s.cur, s.sregions, cls, t.sregions[n]);
    CutGrows(s, t);
  }

  lemma CutLastIs(slabs: seq<SlabChunk>)
    requires slabs != [] && SlabsOk(slabs)
    requires CHUNK_ROOM - slabs[|slabs| - 1].used * SREGION_SIZE >= SREGION_SIZE
    ensures SlabsOk(CutLast(slabs)) && |CutLast(slabs)| == |slabs|
    ensures forall i :: 0 <= i < |slabs| ==>
      CutLast(slabs)[i].paddr == slabs[i].paddr && CutLast(slabs)[i].used >= slabs[i].used
    ensures CutLast(slabs)[|slabs| - 1].used > slabs[|slabs| - 1].used
  {
    forall i | 0 <= i < |slabs| ensures SlabOk(CutLast(slabs)[i]) {
      assert SlabOk(slabs[i]);
    }
  }

  lemma CurSet(cur: seq<Option<nat>>, sregions: seq<SRegion>, cls: nat, r: SRegion)
    requires CurOk(cur, sregions) && cls < |CLASSES| && r.size == CLASSES[cls]
    ensures CurOk(cur[cls := Some(|sregions|)], sregions + [r])
  {
  }

  lemma CutGrows(s: ArenaState, t: ArenaState)
    requires t.pool == s.pool && t.logs == s.logs && |t.slabs| == |s.slabs| && s.sregions <= t.sregions
    requires forall i :: 0 <= i < |s.slabs| ==> t.slabs[i].paddr == s.slabs[i].paddr
    ensures Grows(s, t)
  {
  }

  /** The sub-region just cut is none of the earlier ones. */
  lemma CutDistinct(slabs: seq<SlabChunk>, slabs': seq<SlabChunk>, sregions: seq<SRegion>, r: SRegion)
    requires SRegionsOk(slabs, sregions) && SRegionsOk(slabs', sregions) && SRegionOk(slabs', r)
    requires r.home < |slabs| && r.k >= slabs[r.home].used
    ensures SRegionsOk(slabs', sregions + [r])
  {
    forall i | 0 <= i < |sregions| ensures sregions[i].home != r.home || sregions[i].k != r.k {
      assert SRegionOk(slabs, sregions[i]);
    }
  }

  lemma AddSlabInv(s: ArenaState, i: nat)
    requires ArenaInv(s) && i < |s.sregions| && SRegionRoom(s.sregions[i])
    ensures ArenaInv(AddSlab(s, i)) && Grows(s, AddSlab(s, i))
  {
    var t := AddSlab(s, i);
    forall j | 0 <= j < |s.sregions| ensures SRegionOk(t.slabs, t.sregions[j]) && SRegionGrows(s.sregions[j], t.sregions[j]) {
      assert SRegionOk(s.slabs, s.sregions[j]);
    }
    forall j | 0 <= j < |s.logs| ensures LogGrows(s.logs[j], t.logs[j]) {
    }
  }

  /** The slab a small request of the class was just given. */
  ghost function NewestSlab(t: ArenaState, cls: nat): Source
    requires cls < |t.cur| && t.cur[cls].Some? && t.cur[cls].value < |t.sregions|
    requires t.sregions[t.cur[cls].value].count > 0
  {
    SlabPayload(t.cur[cls].value, t.sregions[t.cur[cls].value].count - 1)
  }

  lemma SmallHardInv(s: ArenaState, cls: nat, base: nat)
    requires ArenaInv(s) && PoolReady(s, base) && cls < |CLASSES|
    ensures ArenaInv(SmallHard(s, cls, base)) && Grows(s, SmallHard(s, cls, base))
  {
    if SlabRoom(s) {
      CutInv(s, cls);
    } else {
      var m := OpenSlabs(s, base);
      OpenSlabsInv(s, base);
      OpenSlabsGrows(s, base);
      CutInv(m, cls);
      GrowsTrans(s, m, Cut(m, cls));
    }
  }

  /** x is the newest slab of the class, is new in t, and has the class's size. */
  ghost predicate NewSlab(s: ArenaState, t: ArenaState, cls: nat, x: Source) {
    && cls < |CLASSES| == |t.cur| && t.cur[cls].Some? && t.cur[cls].value < |t.sregions|
    && var r := t.sregions[t.cur[cls].value];
       && r.home < |t.slabs| && r.count > 0
       && x == NewestSlab(t, cls) && Exists(t, x) && !Exists(s, x)
       && ExtentOf(t, x).hi - ExtentOf(t, x).lo == CLASSES[cls]
  }

  lemma AddSlabIsNew(s: ArenaState, cls: nat) returns (x: Source)
    requires CurOk(s.cur, s.sregions) && SRegionsOk(s.slabs, s.sregions)
    requires cls < |CLASSES| && s.cur[cls].Some?
    ensures NewSlab(s, AddSlab(s, s.cur[cls].value), cls, x)
  {
    assert SRegionOk(s.slabs, s.sregions[s.cur[cls].value]);
    x := NewestSlab(AddSlab(s, s.cur[cls].value), cls);
  }

  lemma CutIsNew(s: ArenaState, m: ArenaState, cls: nat) returns (x: Source)
    requires m.slabs != [] && cls < |CLASSES| == |m.cur| && m.sregions == s.sregions
    ensures NewSlab(s, Cut(m, cls), cls, x)
  {
    x := NewestSlab(Cut(m, cls), cls);
  }

  /** A small request gets a new payload of its class's size; nothing else moves. */
  lemma SmallAllocatedInv(s: ArenaState, cls: nat, base: nat) returns (x: Source)
    requires ArenaInv(s) && PoolReady(s, base) && cls < |CLASSES|
    ensures var t := SmallAllocated(s, cls, base);
      ArenaInv(t) && Grows(s, t) && NewSlab(s, t, cls, x)
  {
    if s.cur[cls].Some? && SRegionRoom(s.sregions[s.cur[cls].value]) {
      AddSlabInv(s, s.cur[cls].value);
      x := AddSlabIsNew(s, cls);
    } else {
      SmallHardInv(s, cls, base);
      x := CutIsNew(s, SlabOpened(s, base), cls);
    }
  }

  lemma {:induction false} DirtyUpdate(rs: seq<Region>, j: nat)
    requires j < |rs| && !rs[j].dirty
    ensures var d := rs[j := rs[j].(dirty := true)];
      && DirtySum(d) == DirtySum(rs) + rs[j].size
      && forall lo, hi :: Tiled(rs, lo, hi) ==> Tiled(d, lo, hi)
    decreases |rs|
  {
    var d, n := rs[j := rs[j].(dirty := true)], |rs| - 1;
    if j < n {
      DirtyUpdate(rs[..n], j);
      assert d[..n] == rs[..n][j := rs[j].(dirty := true)];
    } else {
      assert d[..n] == rs[..n];
    }
  }

  /** Freeing a live region keeps the accounts and moves nothing. */
  lemma DeallocatedInv(s: ArenaState, i: nat, j: nat)
    requires ArenaInv(s) && i < |s.logs| && j < |s.logs[i].regions| && !s.logs[i].regions[j].dirty
    ensures ArenaInv(Deallocated(s, i, j)) && Grows(s, Deallocated(s, i, j))
  {
    var t, c := Deallocated(s, i, j), s.logs[i];
    assert LogOk(c);
    DirtyUpdate(c.regions, j);
    forall h | 0 <= h < |s.logs| ensures LogOk(t.logs[h]) && LogGrows(s.logs[h], t.logs[h]) {
      assert LogOk(s.logs[h]);
    }
  }

  lemma {:induction false} DirtyBound(rs: seq<Region>, lo: nat, hi: nat)
    requires Tiled(rs, lo, hi)
    ensures DirtySum(rs) <= hi - lo
    ensures DirtySum(rs) == hi - lo <==> forall j :: 0 <= j < |rs| ==> rs[j].dirty
    decreases |rs|
  {
    if rs != [] {
      var init, last := rs[..|rs| - 1], rs[|rs| - 1];
      DirtyBound(init, lo, last.paddr);
      assert forall j :: 0 <= j < |init| ==> init[j] == rs[j];
    }
  }

  /** Free and dirty bytes fill a log chunk exactly when every region in it is dirty. */
  lemma AllDirtyExactly(c: LogChunk)
    requires LogOk(c)
    ensures c.avail + c.dirty <= CHUNK_ROOM
    ensures c.avail + c.dirty == CHUNK_ROOM <==> forall j :: 0 <= j < |c.regions| ==> c.regions[j].dirty
  {
    DirtyBound(c.regions, c.paddr + HEADER, c.tail);
  }

  // ---------------------------------------------------------------- any request

  ghost function ClassFrom(size: nat, i: nat): (c: nat)
    requires i < |CLASSES| && size <= MAX_SMALL && forall j :: 0 <= j < i ==> CLASSES[j] < size
    ensures IsClassOf(size, c)
    decreases |CLASSES| - i
  {
    assert CLASSES[|CLASSES| - 1] == MAX_SMALL;
    if size <= CLASSES[i] then i else ClassFrom(size, i + 1)
  }

  lemma ClassIsUnique(size: nat, c: nat, d: nat)
    requires IsClassOf(size, c) && IsClassOf(size, d)
    ensures c == d
  {
  }

  ghost predicate IsSmall(size: nat) {
    size < MAX_SMALL
  }

  /** The current sub-regions exist; all that SmallAllocated needs. */
  ghost predicate CurExists(s: ArenaState) {
    |s.cur| == |CLASSES| && forall c :: 0 <= c < |s.cur| && s.cur[c].Some? ==> s.cur[c].value < |s.sregions|
  }

  ghost function Malloced(s: ArenaState, size: nat, base: nat): ArenaState
    requires CurExists(s)
  {
    if IsSmall(size) then SmallAllocated(s, ClassFrom(size, 0), base) else LargeAllocated(s, size, base)
  }

  /** x is new in t, at least size bytes long, aligned, and begins at ret. */
  ghost predicate HandsOut(s: ArenaState, t: ArenaState, x: Source, ret: nat, size: nat) {
    && Exists(t, x) && !Exists(s, x) && (x.RegionPayload? || x.SlabPayload?)
    && ExtentOf(t, x).lo == ret && ExtentOf(t, x).hi >= ret + size && ret % 8 == 0
  }

  /** Where the payload of a large request begins. */
  ghost function LargePlace(s: ArenaState, size: nat, base: nat): nat {
    RegionPlace(s, LargeNeed(size), base)
  }

  ghost function SmallPlace(t: ArenaState, cls: nat): nat
    requires cls < |t.cur| && t.cur[cls].Some? && t.cur[cls].value < |t.sregions|
    requires var r := t.sregions[t.cur[cls].value]; r.home < |t.slabs| && r.count > 0
  {
    var r := t.sregions[t.cur[cls].value];
    SlabAddr(SRegionAddr(t.slabs, r), r.size, r.count - 1) + SLAB_HEADER
  }

  lemma IsHandedOut(s: ArenaState, t: ArenaState, x: Source, ret: nat, size: nat)
    requires ArenaInv(t) && Exists(t, x) && !Exists(s, x) && (x.RegionPayload? || x.SlabPayload?)
    requires ExtentOf(t, x).lo == ret && ExtentOf(t, x).hi - ExtentOf(t, x).lo >= size
    ensures HandsOut(s, t, x, ret, size)
  {
    PayloadAligned(t, x);
  }

  lemma LargeHandsOut(s: ArenaState, size: nat, base: nat) returns (x: Source)
    requires ArenaInv(s) && PoolReady(s, base) && Fits(size) && size > 0
    ensures HandsOut(s, LargeAllocated(s, size, base), x, LargePlace(s, size, base), size)
  {
    x := LargeAllocatedInv(s, size, base);
    IsHandedOut(s, LargeAllocated(s, size, base), x, LargePlace(s, size, base), size);
  }

  lemma SmallHandsOut(s: ArenaState, size: nat, cls: nat, base: nat) returns (x: Source)
    requires ArenaInv(s) && PoolReady(s, base) && IsClassOf(size, cls)
    ensures var t := SmallAllocated(s, cls, base);
      NewSlab(s, t, cls, x) && HandsOut(s, t, x, SmallPlace(t, cls), size)
  {
    x := SmallAllocatedInv(s, cls, base);
    var t := SmallAllocated(s, cls, base);
    SmallPlaceIs(s, t, cls, x);
    IsHandedOut(s, t, x, SmallPlace(t, cls), size);
  }

  lemma SmallPlaceIs(s: ArenaState, t: ArenaState, cls: nat, x: Source)
    requires NewSlab(s, t, cls, x)
    ensures ExtentOf(t, x).lo == SmallPlace(t, cls)
  {
  }

  /** A large request that does not fit is placed so that it runs past the end of its chunk. */
  lemma Overruns(s: ArenaState, size: nat, base: nat)
    requires ArenaInv(s) && !Fits(size)
    ensures LargePlace(s, size, base) == NextChunk(s, base) + 2 * HEADER
    ensures LargePlace(s, size, base) + size > NextChunk(s, base) + CHUNK_SIZE
  {
    FitsExactly(size);
    if s.logs != [] {
      var c := s.logs[|s.logs| - 1];
      assert LogOk(c);
      TiledBounds(c.regions, c.paddr + HEADER, c.tail);
    }
  }

  // ---------------------------------------------------------------- runs

  /** An allocation, with the place of the pool it maps if it needs one; or the freeing of a large region. */
  datatype Request = Malloc(size: nat, base: nat) | Dalloc(i: nat, j: nat)

  ghost predicate Legal(q: Request, s: ArenaState) {
    match q
    case Malloc(size, base) => 0 < size && Fits(size) && PoolReady(s, base) && CurExists(s)
    case Dalloc(i, j) => i < |s.logs| && j < |s.logs[i].regions| && !s.logs[i].regions[j].dirty
  }

  ghost function Serve(q: Request, s: ArenaState): ArenaState
    requires Legal(q, s)
  {
    match q
    case Malloc(size, base) => Malloced(s, size, base)
    case Dalloc(i, j) => Deallocated(s, i, j)
  }

  ghost predicate LegalRun(qs: seq<Request>, s: ArenaState) {
    qs == [] || (Legal(qs[0], s) && LegalRun(qs[1..], Serve(qs[0], s)))
  }

  ghost function Run(qs: seq<Request>, s: ArenaState): ArenaState
    requires LegalRun(qs, s)
  {
    if qs == [] then s else Run(qs[1..], Serve(qs[0], s))
  }

  lemma ServeInv(q: Request, s: ArenaState)
    requires ArenaInv(s) && Legal(q, s)
    ensures ArenaInv(Serve(q, s)) && Grows(s, Serve(q, s))
  {
    match q
    case Malloc(size, base) =>
      if IsSmall(size) {
        var x := SmallAllocatedInv(s, ClassFrom(size, 0), base);
      } else {
        var x := LargeAllocatedInv(s, size, base);
      }
    case Dalloc(i, j) => DeallocatedInv(s, i, j);
  }

  /** Over any interleaving of small and large requests and frees, the layout stays sound and nothing moves. */
  lemma {:induction false} RunInv(qs: seq<Request>, s: ArenaState)
    requires ArenaInv(s) && LegalRun(qs, s)
    ensures ArenaInv(Run(qs, s)) && Grows(s, Run(qs, s))
  {
    if qs == [] {
      GrowsRefl(s);
    } else {
      var m := Serve(qs[0], s);
      ServeInv(qs[0], s);
      RunInv(qs[1..], m);
      GrowsTrans(s, m, Run(qs[1..], m));
    }
  }

  /** Whatever was in place at some moment is disjoint, at every later moment, from everything else in place then. */
  lemma ForeverApart(qs: seq<Request>, s: ArenaState, x: Source, y: Source)
    requires ArenaInv(s) && LegalRun(qs, s) && Exists(s, x) && Exists(Run(qs, s), y) && x != y
    ensures Disjoint(ExtentOf(s, x), ExtentOf(Run(qs, s), y))
  {
    RunInv(qs, s);
    NothingMoves(s, Run(qs, s), x);
    NoOverlap(Run(qs, s), x, y);
  }

  lemma EmptiedInv(pool: PoolState)
    requires Inv(pool)
    ensures ArenaInv(Emptied(pool))
  {
  }
}
