/**
 Whole runs of a chunk pool in memory: a new pool, and then any allocations and frees.
 */
module PoolRun {
  import opened AddressSpace
  import opened PoolModel
  import opened Pool

  /** An allocation, with the places the system offers for a further pool; or the freeing of a chunk. */
  datatype Call = Take(addr1: nat, addr2: nat) | Give(ptr: nat)

  ghost function OpOf(c: Call): Op {
    match c
    case Take(addr1, addr2) => Alloc(Base(addr1, addr2))
    case Give(ptr) => Free(ptr)
  }

  ghost function Ops(cs: seq<Call>): seq<Op> {
    if cs == [] then [] else [OpOf(cs[0])] + Ops(cs[1..])
  }

  /** The system offers unmapped places if a pool is needed; only chunks in use are freed. */
  ghost predicate Permitted(c: Call, s: PoolState, mapped: set<int>) {
    match c
    case Take(addr1, addr2) => s.queue == [] ==> Choices(addr1, addr2, mapped)
    case Give(ptr) => ptr in s.out
  }

  ghost function MappedAfter(c: Call, s: PoolState, mapped: set<int>): set<int> {
    match c
    case Take(addr1, addr2) => mapped + NewlyMapped(s, Base(addr1, addr2))
    case Give(_) => mapped
  }

  ghost predicate PermittedRun(cs: seq<Call>, s: PoolState, mapped: set<int>) {
    cs == [] ||
    (Permitted(cs[0], s, mapped) && PermittedRun(cs[1..], Step(OpOf(cs[0]), s), MappedAfter(cs[0], s, mapped)))
  }

  /** A permitted call is a legal operation, and keeps the partition and the pools mapped. */
  lemma PermittedIsLegal(c: Call, s: PoolState, mapped: set<int>)
    requires Placed(s, mapped) && Permitted(c, s, mapped)
    ensures Legal(OpOf(c), s) && Placed(Step(OpOf(c), s), MappedAfter(c, s, mapped))
  {
    match c
    case Take(addr1, addr2) =>
      if s.queue == [] {
        BasePlaced(addr1, addr2, mapped);
        PlacedFresh(s.pools, Base(addr1, addr2), mapped);
      }
      AllocatedPlaced(s, addr1, addr2, mapped);
    case Give(ptr) => FreedPlaced(s, ptr, mapped);
  }

  lemma {:induction false} PermittedRunIsLegal(cs: seq<Call>, s: PoolState, mapped: set<int>)
    requires Placed(s, mapped) && PermittedRun(cs, s, mapped)
    ensures LegalRun(Ops(cs), s)
  {
    if cs != [] {
      PermittedIsLegal(cs[0], s, mapped);
      PermittedRunIsLegal(cs[1..], Step(OpOf(cs[0]), s), MappedAfter(cs[0], s, mapped));
      assert Ops(cs)[1..] == Ops(cs[1..]);
    }
  }

  /** One call, as one step of the model. */
  method Perform(pool: Pool, c: Call) returns (handed: seq<nat>)
    requires pool.Valid() && Placed(pool.state, pool.space.mapped)
    requires Permitted(c, pool.state, pool.space.mapped)
    modifies pool, Members(pool.ring), pool.space
    ensures pool.Valid() && pool.state == Step(OpOf(c), old(pool.state))
    ensures handed == HandedBy(OpOf(c), old(pool.state))
    ensures pool.space.mapped == MappedAfter(c, old(pool.state), old(pool.space.mapped))
    ensures forall e :: e in Members(pool.ring) && e !in old(Members(pool.ring)) ==> fresh(e)
  {
    match c
    case Take(addr1, addr2) =>
      var ret := pool.ChunkAlloc(addr1, addr2);
      handed := [ret];
    case Give(ptr) =>
      FreedPlaced(pool.state, ptr, pool.space.mapped);
      pool.Free(ptr);
      handed := [];
  }

  method PerformAll(pool: Pool, calls: seq<Call>) returns (handed: seq<nat>)
    requires pool.Valid() && Placed(pool.state, pool.space.mapped)
    requires PermittedRun(calls, pool.state, pool.space.mapped)
    modifies pool, Members(pool.ring), pool.space
    ensures pool.Valid() && Placed(pool.state, pool.space.mapped)
    ensures pool.state == Run(Ops(calls), old(pool.state)) && handed == Handed(Ops(calls), old(pool.state))
    ensures forall e :: e in Members(pool.ring) && e !in old(Members(pool.ring)) ==> fresh(e)
    decreases |calls|
  {
    if calls == [] {
      handed := [];
    } else {
      PermittedIsLegal(calls[0], pool.state, pool.space.mapped);
      handed := Perform(pool, calls[0]);
      var rest := PerformAll(pool, calls[1..]);
      handed := handed + rest;
      assert Ops(calls)[1..] == Ops(calls[1..]);
    }
  }

  /** Any permitted run on a new pool is the run of the model: its chunks stay partitioned, and they are
      handed out in the order in which the first pool and then the run put them in. */
  method Replay(space: Space, addr1: nat, addr2: nat, calls: seq<Call>) returns (pool: Pool, handed: seq<nat>)
    requires Choices(addr1, addr2, space.mapped)
    requires var b := Base(addr1, addr2); PermittedRun(calls, Created(b), space.mapped + PoolRange(b))
    modifies space
    ensures fresh(pool) && pool.Valid() && pool.space == space && Placed(pool.state, space.mapped)
    ensures var s := Created(Base(addr1, addr2));
      && LegalRun(Ops(calls), s) && pool.state == Run(Ops(calls), s) && handed == Handed(Ops(calls), s)
      && PoolChunks(Base(addr1, addr2)) + Pushed(Ops(calls), s) == handed + pool.state.queue
      && LeastPools(|pool.state.pools|, PeakOf(Ops(calls), s, 0))
  {
    CreatedPlaced(addr1, addr2, space.mapped);
    pool := new Pool(space, addr1, addr2);
    ghost var s := pool.state;
    PermittedRunIsLegal(calls, s, space.mapped);
    Fifo(Ops(calls), s);
    CreatedLeast(Base(addr1, addr2));
    PoolsExactly(Ops(calls), s, 0);
    handed := PerformAll(pool, calls);
  }
}
