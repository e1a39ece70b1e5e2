/**
 Whole runs of an arena in memory: a new arena, and then any requests and frees.
 */
module ArenaRun {
  import opened AddressSpace
  import opened Pool
  import opened ArenaModel
  import opened Arena
  import opened ArenaPacked

  /** A request, with the places the system offers for a new pool; or the freeing of the j-th region of the i-th log. */
  datatype Call = Take(size: nat, addr1: nat, addr2: nat) | Give(i: nat, j: nat)

  datatype Payload = Payload(addr: nat, size: nat)

  /** What a caller may ask for, and what the system provides: unmapped places if a new pool is needed. */
  ghost predicate Permitted(c: Call, s: ArenaState, mapped: set<int>) {
    match c
    case Take(size, addr1, addr2) =>
      CurExists(s) && 0 < size && Fits(size) && (s.pool.queue == [] ==> Choices(addr1, addr2, mapped))
    case Give(i, j) => i < |s.logs| && j < |s.logs[i].regions| && !s.logs[i].regions[j].dirty
  }

  ghost function After(c: Call, s: ArenaState, mapped: set<int>): ArenaState
    requires Permitted(c, s, mapped)
  {
    match c
    case Take(size, addr1, addr2) => Malloced(s, size, Base(addr1, addr2))
    case Give(i, j) => Deallocated(s, i, j)
  }

  ghost function MappedAfter(c: Call, s: ArenaState, mapped: set<int>): set<int>
    requires Permitted(c, s, mapped)
  {
    match c
    case Take(_, addr1, addr2) => mapped + MappedBy(s, After(c, s, mapped), Base(addr1, addr2))
    case Give(_, _) => mapped
  }

  ghost predicate PermittedRun(cs: seq<Call>, s: ArenaState, mapped: set<int>) {
    cs == [] ||
    (Permitted(cs[0], s, mapped) && PermittedRun(cs[1..], After(cs[0], s, mapped), MappedAfter(cs[0], s, mapped)))
  }

  /** The call as a request of the model. */
  ghost function RequestOf(c: Call): Request {
    match c
    case Take(size, addr1, addr2) => Malloc(size, Base(addr1, addr2))
    case Give(i, j) => Dalloc(i, j)
  }

  ghost function Requests(cs: seq<Call>): seq<Request> {
    if cs == [] then [] else [RequestOf(cs[0])] + Requests(cs[1..])
  }

  /** The sizes asked for, in order. */
  ghost function Sizes(cs: seq<Call>): seq<nat> {
    if cs == [] then [] else (if cs[0].Take? then [cs[0].size] else []) + Sizes(cs[1..])
  }

  ghost function Asked(hs: seq<Payload>): seq<nat> {
    if hs == [] then [] else [hs[0].size] + Asked(hs[1..])
  }

  lemma {:induction false} AskedAppend(a: seq<Payload>, b: seq<Payload>)
    ensures Asked(a + b) == Asked(a) + Asked(b)
  {
    if a == [] {
      assert a + b == b;
    } else {
      AskedAppend(a[1..], b);
      assert (a + b)[1..] == a[1..] + b;
    }
  }

  /** The calls were handed what hs' has beyond hs, each payload of the size asked for. */
  ghost predicate Asks(hs': seq<Payload>, hs: seq<Payload>, calls: seq<Call>) {
    Asked(hs') == Asked(hs) + Sizes(calls)
  }

  lemma AsksOn(hs'': seq<Payload>, hs': seq<Payload>, hs: seq<Payload>, calls: seq<Call>)
    requires calls != [] && Asks(hs', hs, [calls[0]]) && Asks(hs'', hs', calls[1..])
    ensures Asks(hs'', hs, calls)
  {
    assert [calls[0]][1..] == [];
    assert Sizes([calls[0]]) + Sizes(calls[1..]) == Sizes(calls);
  }

  lemma AsksOne(hs: seq<Payload>, h: Payload, c: Call)
    requires c.Take? && h.size == c.size
    ensures Asks(hs + [h], hs, [c])
  {
    AskedAppend(hs, [h]);
    assert [c][1..] == [] && [h][1..] == [];
  }

  // ---------------------------------------------------------------- the runs of the model

  /** A permitted call is a legal request, and serving it keeps the arena sound. */
  lemma PermittedIsLegal(c: Call, s: ArenaState, mapped: set<int>)
    requires Sound(s, mapped) && Permitted(c, s, mapped)
    ensures Legal(RequestOf(c), s) && Serve(RequestOf(c), s) == After(c, s, mapped)
    ensures Sound(After(c, s, mapped), MappedAfter(c, s, mapped)) && Grows(s, After(c, s, mapped))
  {
    match c
    case Take(size, addr1, addr2) =>
      SoundReady(s, addr1, addr2, mapped);
      ServeInv(RequestOf(c), s);
      if IsSmall(size) {
        PoolAfterSmall(s, ClassFrom(size, 0), Base(addr1, addr2));
      } else {
        PoolAfterLarge(s, LargeNeed(size), Base(addr1, addr2));
      }
      SoundAfter(s, After(c, s, mapped), addr1, addr2, mapped);
    case Give(_, _) => ServeInv(RequestOf(c), s);
  }

  lemma {:induction false} PermittedRunIsLegal(cs: seq<Call>, s: ArenaState, mapped: set<int>)
    requires Sound(s, mapped) && PermittedRun(cs, s, mapped)
    ensures LegalRun(Requests(cs), s)
  {
    if cs != [] {
      PermittedIsLegal(cs[0], s, mapped);
      PermittedRunIsLegal(cs[1..], After(cs[0], s, mapped), MappedAfter(cs[0], s, mapped));
      assert Requests(cs)[1..] == Requests(cs[1..]);
    }
  }

  // ---------------------------------------------------------------- what was handed out

  /** xs are different payloads of s, and hold what was handed out. */
  ghost predicate Holds(s: ArenaState, xs: seq<Source>, hs: seq<Payload>) {
    && |xs| == |hs| && (forall k :: 0 <= k < |xs| ==> HoldsOne(s, xs[k], hs[k]))
    && forall j, k :: 0 <= j < k < |xs| ==> xs[j] != xs[k]
  }

  ghost predicate HoldsOne(s: ArenaState, x: Source, h: Payload) {
    && Exists(s, x) && (x.RegionPayload? || x.SlabPayload?)
    && ExtentOf(s, x).lo == h.addr && ExtentOf(s, x).hi >= h.addr + h.size
  }

  lemma HoldsAfter(s: ArenaState, t: ArenaState, xs: seq<Source>, hs: seq<Payload>)
    requires Holds(s, xs, hs) && Grows(s, t)
    ensures Holds(t, xs, hs)
  {
    forall k | 0 <= k < |xs| ensures HoldsOne(t, xs[k], hs[k]) {
      assert HoldsOne(s, xs[k], hs[k]);
      NothingMoves(s, t, xs[k]);
    }
  }

  lemma HoldsMore(s: ArenaState, t: ArenaState, xs: seq<Source>, hs: seq<Payload>, x: Source, h: Payload)
    requires Holds(s, xs, hs) && Grows(s, t) && HandsOut(s, t, x, h.addr, h.size)
    ensures Holds(t, xs + [x], hs + [h])
  {
    HoldsAfter(s, t, xs, hs);
    assert HoldsOne(t, x, h);
    forall k | 0 <= k < |xs| ensures xs[k] != x {
      assert HoldsOne(s, xs[k], hs[k]);
    }
  }

  ghost predicate Separate(hs: seq<Payload>) {
    forall j, k :: 0 <= j < k < |hs| ==>
      hs[j].addr + hs[j].size <= hs[k].addr || hs[k].addr + hs[k].size <= hs[j].addr
  }

  /** What the payloads hold is apart, aligned and mapped. */
  lemma HeldIsSound(s: ArenaState, mapped: set<int>, xs: seq<Source>, hs: seq<Payload>)
    requires Sound(s, mapped) && Holds(s, xs, hs)
    ensures Separate(hs)
    ensures forall k :: 0 <= k < |hs| ==>
      hs[k].addr % 8 == 0 && Range(hs[k].addr, hs[k].addr + hs[k].size) <= mapped
  {
    forall j, k | 0 <= j < k < |hs|
      ensures hs[j].addr + hs[j].size <= hs[k].addr || hs[k].addr + hs[k].size <= hs[j].addr
    {
      assert HoldsOne(s, xs[j], hs[j]) && HoldsOne(s, xs[k], hs[k]);
      NoOverlap(s, xs[j], xs[k]);
    }
    forall k | 0 <= k < |hs| ensures hs[k].addr % 8 == 0 && Range(hs[k].addr, hs[k].addr + hs[k].size) <= mapped {
      assert HoldsOne(s, xs[k], hs[k]);
      PayloadAligned(s, xs[k]);
      ExtentMapped(s, mapped, xs[k]);
    }
  }

  /** Everything in place lies in mapped memory. */
  lemma ExtentMapped(s: ArenaState, mapped: set<int>, x: Source)
    requires Sound(s, mapped) && Exists(s, x)
    ensures Range(ExtentOf(s, x).lo, ExtentOf(s, x).hi) <= mapped
  {
    ExtentInHome(s, x);
    var p := PoolModel.ChunkPlace(s.pool.pools, Home(s, x));
    assert Range(ExtentOf(s, x).lo, ExtentOf(s, x).hi) <= PoolRange(p);
  }

  // ---------------------------------------------------------------- the calls

  /** The calls left take s to t. */
  ghost predicate LeadsTo(rest: seq<Call>, s: ArenaState, mapped: set<int>, t: ArenaState) {
    PermittedRun(rest, s, mapped) && LegalRun(Requests(rest), s) && Run(Requests(rest), s) == t
  }

  lemma LeadsOn(rest: seq<Call>, s: ArenaState, mapped: set<int>, t: ArenaState)
    requires Sound(s, mapped) && LeadsTo(rest, s, mapped, t) && rest != []
    ensures Permitted(rest[0], s, mapped)
    ensures LeadsTo(rest[1..], After(rest[0], s, mapped), MappedAfter(rest[0], s, mapped), t)
  {
    PermittedIsLegal(rest[0], s, mapped);
    assert Requests(rest)[1..] == Requests(rest[1..]);
  }

  /** A new arena, with its first pool. */
  method Create(space: Space, addr1: nat, addr2: nat) returns (arena: Arena)
    requires Choices(addr1, addr2, space.mapped)
    modifies space
    ensures fresh(arena) && arena.Valid() && arena.pool.space == space
    ensures arena.Owned() && forall o :: o in arena.Repr && o != space ==> fresh(o)
    ensures arena.model == Emptied(PoolModel.Created(Base(addr1, addr2))) && Sound(arena.model, space.mapped)
    ensures space.mapped == old(space.mapped) + PoolRange(Base(addr1, addr2))
  {
    CreatedPlaced(addr1, addr2, space.mapped);
    EmptiedInv(PoolModel.Created(Base(addr1, addr2)));
    var pool := new Pool(space, addr1, addr2);
    arena := new Arena(pool);
  }

  /** Serves a permitted request; x is the payload it hands out. */
  method PerformTake(arena: Arena, size: nat, addr1: nat, addr2: nat) returns (ret: nat, ghost x: Source)
    requires arena.Valid() && arena.Owned() && Sound(arena.model, arena.pool.space.mapped)
    requires Permitted(Take(size, addr1, addr2), arena.model, arena.pool.space.mapped)
    modifies arena.Repr
    ensures arena.Valid() && arena.Owned()
    ensures forall o :: o in arena.Repr && o !in old(arena.Repr) ==> fresh(o)
    ensures arena.model == After(Take(size, addr1, addr2), old(arena.model), old(arena.pool.space.mapped))
    ensures arena.pool.space.mapped ==
            MappedAfter(Take(size, addr1, addr2), old(arena.model), old(arena.pool.space.mapped))
    ensures HandsOut(old(arena.model), arena.model, x, ret, size)
  {
    FitsExactly(size);
    ret, x := arena.Malloc(size, addr1, addr2);
  }

  method PerformGive(arena: Arena, i: nat, j: nat)
    requires arena.Valid() && arena.Owned() && Sound(arena.model, arena.pool.space.mapped)
    requires Permitted(Give(i, j), arena.model, arena.pool.space.mapped)
    modifies arena.Repr
    ensures arena.Valid() && arena.Owned() && arena.Repr == old(arena.Repr)
    ensures arena.model == Deallocated(old(arena.model), i, j)
    ensures arena.pool.space.mapped == old(arena.pool.space.mapped)
  {
    arena.Free(arena.availChunks[|arena.availChunks| - 1 - i], i, j);
  }

  /** One call, and what has been handed out by then. */
  method Perform(arena: Arena, c: Call, hs: seq<Payload>, ghost xs: seq<Source>)
    returns (hs': seq<Payload>, ghost xs': seq<Source>)
    requires arena.Valid() && arena.Owned() && Sound(arena.model, arena.pool.space.mapped)
    requires Permitted(c, arena.model, arena.pool.space.mapped) && Holds(arena.model, xs, hs)
    modifies arena.Repr
    ensures arena.Valid() && arena.Owned()
    ensures forall o :: o in arena.Repr && o !in old(arena.Repr) ==> fresh(o)
    ensures arena.model == After(c, old(arena.model), old(arena.pool.space.mapped))
    ensures arena.pool.space.mapped == MappedAfter(c, old(arena.model), old(arena.pool.space.mapped))
    ensures Sound(arena.model, arena.pool.space.mapped)
    ensures Holds(arena.model, xs', hs') && Asks(hs', hs, [c])
  {
    ghost var m := arena.model;
    PermittedIsLegal(c, m, arena.pool.space.mapped);
    match c
    case Take(size, addr1, addr2) =>
      var ret;
      ghost var x;
      ret, x := PerformTake(arena, size, addr1, addr2);
      HoldsMore(m, arena.model, xs, hs, x, Payload(ret, size));
      AsksOne(hs, Payload(ret, size), c);
      hs', xs' := hs + [Payload(ret, size)], xs + [x];
    case Give(i, j) =>
      PerformGive(arena, i, j);
      HoldsAfter(m, arena.model, xs, hs);
      hs', xs' := hs, xs;
  }

  /** A run of calls on an arena, and what has been handed out by its end. */
  method PerformAll(arena: Arena, calls: seq<Call>, hs: seq<Payload>, ghost xs: seq<Source>, ghost t: ArenaState)
    returns (hs': seq<Payload>, ghost xs': seq<Source>)
    requires arena.Valid() && arena.Owned() && Sound(arena.model, arena.pool.space.mapped) && Holds(arena.model, xs, hs)
    requires LeadsTo(calls, arena.model, arena.pool.space.mapped, t)
    modifies arena.Repr
    ensures arena.Valid() && arena.Owned()
    ensures forall o :: o in arena.Repr && o !in old(arena.Repr) ==> fresh(o)
    ensures arena.model == t && Sound(t, arena.pool.space.mapped)
    ensures Holds(t, xs', hs') && Asks(hs', hs, calls)
    decreases |calls|
  {
    if calls == [] {
      hs', xs' := hs, xs;
    } else {
      LeadsOn(calls, arena.model, arena.pool.space.mapped, t);
      hs', xs' := Perform(arena, calls[0], hs, xs);
      ghost var between := hs';
      hs', xs' := PerformAll(arena, calls[1..], hs', xs', t);
      AsksOn(hs', between, hs, calls);
    }
  }

  /** Any permitted run on a new arena is the run of the model, and all that it hands out, live or freed since,
      is apart, aligned and mapped. */
  method Replay(space: Space, addr1: nat, addr2: nat, calls: seq<Call>) returns (arena: Arena, hs: seq<Payload>)
    requires Choices(addr1, addr2, space.mapped)
    requires var b := Base(addr1, addr2);
      PermittedRun(calls, Emptied(PoolModel.Created(b)), space.mapped + PoolRange(b))
    modifies space
    ensures fresh(arena) && arena.Valid() && arena.pool.space == space && Sound(arena.model, space.mapped)
    ensures var s := Emptied(PoolModel.Created(Base(addr1, addr2)));
      LegalRun(Requests(calls), s) && arena.model == Run(Requests(calls), s) && Packed(arena.model)
    ensures Asked(hs) == Sizes(calls) && Separate(hs)
    ensures forall k :: 0 <= k < |hs| ==>
      hs[k].addr % 8 == 0 && Range(hs[k].addr, hs[k].addr + hs[k].size) <= space.mapped
  {
    arena := Create(space, addr1, addr2);
    PermittedRunIsLegal(calls, arena.model, space.mapped);
    ghost var t := Run(Requests(calls), arena.model);
    EmptiedPacked(arena.model.pool);
    RunPacked(Requests(calls), arena.model);
    ghost var xs;
    hs, xs := PerformAll(arena, calls, [], [], t);
    HeldIsSound(t, space.mapped, xs, hs);
  }
}
