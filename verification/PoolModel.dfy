/**
 The chunk pool as a value: a FIFO queue of free chunk addresses, the chunks in
 use, and the pools mapped so far.
 */
module PoolModel {
  import opened AddressSpace

  const CHUNK_SIZE: nat := 4194304
  const POOL_SIZE: nat := 167772160
  const CHUNKS_PER_POOL: nat := 40

  lemma PoolSizeIsWhole()
    ensures POOL_SIZE == CHUNKS_PER_POOL * CHUNK_SIZE == 160 * 1024 * 1024
    ensures CHUNK_SIZE == 1024 * 4096
  {
  }

  /** The consecutive chunks of a pool, in address order. */
  ghost function ChunksFrom(base: nat, n: nat): seq<nat> {
    if n == 0 then [] else ChunksFrom(base, n - 1) + [base + (n - 1) * CHUNK_SIZE]
  }

  ghost function PoolChunks(base: nat): seq<nat> {
    ChunksFrom(base, CHUNKS_PER_POOL)
  }

  ghost function SetOf(s: seq<nat>): set<nat> {
    set x | x in s
  }

  ghost predicate NoDup(s: seq<nat>) {
    forall i, j :: 0 <= i < j < |s| ==> s[i] != s[j]
  }

  ghost function ChunksOf(pools: seq<nat>): set<nat> {
    if pools == [] then {} else ChunksOf(pools[..|pools| - 1]) + SetOf(PoolChunks(pools[|pools| - 1]))
  }

  ghost predicate Apart(p: nat, q: nat) {
    p + POOL_SIZE <= q || q + POOL_SIZE <= p
  }

  /** A place for a new pool: chunk-aligned, not at NULL, overlapping no mapped pool. */
  ghost predicate Fresh(base: nat, pools: seq<nat>) {
    base > 0 && base % CHUNK_SIZE == 0 && forall q :: q in pools ==> Apart(base, q)
  }

  datatype PoolState = PoolState(queue: seq<nat>, pools: seq<nat>, out: set<nat>, tot: int, used: int)

  ghost predicate WellPlaced(pools: seq<nat>) {
    pools == [] || (WellPlaced(pools[..|pools| - 1]) && Fresh(pools[|pools| - 1], pools[..|pools| - 1]))
  }

  /** Free and outstanding chunks partition the chunks of all mapped pools; the counters are exact. */
  ghost predicate Inv(s: PoolState) {
    && WellPlaced(s.pools)
    && NoDup(s.queue)
    && SetOf(s.queue) !! s.out
    && SetOf(s.queue) + s.out == ChunksOf(s.pools)
    && s.used == |s.out|
    && s.used + |s.queue| == s.tot == CHUNKS_PER_POOL * |s.pools|
  }

  ghost function Created(base: nat): PoolState {
    PoolState(PoolChunks(base), [base], {}, CHUNKS_PER_POOL, 0)
  }

  /** The state in which an allocation pops: an exhausted pool is extended first. */
  ghost function Replenished(s: PoolState, base: nat): PoolState {
    if s.queue != [] then s
    else s.(queue := PoolChunks(base), pools := s.pools + [base], tot := s.tot + CHUNKS_PER_POOL)
  }

  lemma {:induction false} ChunksFromAre(base: nat, n: nat)
    ensures |ChunksFrom(base, n)| == n
    ensures forall i :: 0 <= i < n ==> ChunksFrom(base, n)[i] == base + i * CHUNK_SIZE
    ensures NoDup(ChunksFrom(base, n))
    ensures forall c :: c in ChunksFrom(base, n) ==> base <= c && c + CHUNK_SIZE <= base + n * CHUNK_SIZE
    ensures base % CHUNK_SIZE == 0 ==> forall c :: c in ChunksFrom(base, n) ==> c % CHUNK_SIZE == 0
  {
    if n > 0 {
      ChunksFromAre(base, n - 1);
      MultipleMod(n - 1, CHUNK_SIZE);
      if base % CHUNK_SIZE == 0 {
        AddMod(base, (n - 1) * CHUNK_SIZE, CHUNK_SIZE);
      }
    }
  }

  ghost function Popped(s: PoolState): PoolState
    requires s.queue != []
  {
    s.(queue := s.queue[1..], out := s.out + {s.queue[0]}, used := s.used + 1)
  }

  ghost function Allocated(s: PoolState, base: nat): PoolState
    ensures Replenished(s, base).queue != []
  {
    ChunksFromAre(base, CHUNKS_PER_POOL);
    Popped(Replenished(s, base))
  }

  ghost function Freed(s: PoolState, p: nat): PoolState {
    s.(queue := s.queue + [p], out := s.out - {p}, used := s.used - 1)
  }

  /** Where a chunk lies: aligned, not NULL, and inside one of the pools. */
  lemma {:induction false} ChunkPlace(pools: seq<nat>, c: nat) returns (p: nat)
    requires WellPlaced(pools) && c in ChunksOf(pools)
    ensures c > 0 && c % CHUNK_SIZE == 0
    ensures p in pools && p <= c && c + CHUNK_SIZE <= p + POOL_SIZE
    decreases |pools|
  {
    var last, init := pools[|pools| - 1], pools[..|pools| - 1];
    if c in SetOf(PoolChunks(last)) {
      ChunksFromAre(last, CHUNKS_PER_POOL);
      p := last;
    } else {
      p := ChunkPlace(init, c);
    }
  }

  lemma FreshChunks(pools: seq<nat>, base: nat)
    requires WellPlaced(pools) && Fresh(base, pools)
    ensures WellPlaced(pools + [base])
    ensures ChunksOf(pools + [base]) == ChunksOf(pools) + SetOf(PoolChunks(base))
    ensures ChunksOf(pools) !! SetOf(PoolChunks(base))
  {
    assert (pools + [base])[..|pools|] == pools;
    ChunksFromAre(base, CHUNKS_PER_POOL);
    forall c | c in ChunksOf(pools) ensures c !in SetOf(PoolChunks(base)) {
      var p := ChunkPlace(pools, c);
      assert Apart(base, p);
    }
  }

  lemma {:induction false} NoDupCount(s: seq<nat>)
    requires NoDup(s)
    ensures |SetOf(s)| == |s|
  {
    if s != [] {
      var init := s[..|s| - 1];
      NoDupCount(init);
      assert SetOf(s) == SetOf(init) + {s[|s| - 1]};
    } else {
      assert SetOf(s) == {};
    }
  }

  lemma CreatedInv(base: nat)
    requires Fresh(base, [])
    ensures Inv(Created(base))
  {
    ChunksFromAre(base, CHUNKS_PER_POOL);
    FreshChunks([], base);
    assert [] + [base] == [base];
  }

  lemma ReplenishedInv(s: PoolState, base: nat)
    requires Inv(s) && (s.queue == [] ==> Fresh(base, s.pools))
    ensures Inv(Replenished(s, base)) && Replenished(s, base).queue != []
  {
    if s.queue == [] {
      ChunksFromAre(base, CHUNKS_PER_POOL);
      FreshChunks(s.pools, base);
      assert SetOf(s.queue) == {};
    }
  }

  lemma PoppedInv(s: PoolState)
    requires Inv(s) && s.queue != []
    ensures Inv(Popped(s))
  {
    HeadAndTail(s.queue);
  }

  lemma HeadAndTail(s: seq<nat>)
    requires NoDup(s) && s != []
    ensures NoDup(s[1..]) && s[0] !in s[1..] && SetOf(s) == {s[0]} + SetOf(s[1..])
  {
    var q := s[1..];
    assert forall i :: 0 <= i < |q| ==> q[i] == s[i + 1];
    forall y ensures y in s <==> y == s[0] || y in q {
      if y in q {
        var i :| 0 <= i < |q| && q[i] == y;
        assert s[i + 1] == y;
      }
    }
  }

  lemma AllocatedInv(s: PoolState, base: nat)
    requires Inv(s) && (s.queue == [] ==> Fresh(base, s.pools))
    ensures Inv(Allocated(s, base))
    ensures var c := Replenished(s, base).queue[0];
      c > 0 && c % CHUNK_SIZE == 0 && c !in s.out && Allocated(s, base).out == s.out + {c}
  {
    var r := Replenished(s, base);
    ReplenishedInv(s, base);
    PoppedInv(r);
    assert r.queue[0] in SetOf(r.queue);
    var p := ChunkPlace(r.pools, r.queue[0]);
  }

  lemma FreedInv(s: PoolState, p: nat)
    requires Inv(s) && p in s.out
    ensures Inv(Freed(s, p))
  {
    assert p !in s.queue by {
      assert p !in SetOf(s.queue);
    }
    assert SetOf(s.queue + [p]) == SetOf(s.queue) + {p};
  }

  /** Distinct chunks, free or in use, never overlap. */
  lemma ChunksApart(s: PoolState, c: nat, d: nat)
    requires Inv(s) && c in ChunksOf(s.pools) && d in ChunksOf(s.pools) && c < d
    ensures c + CHUNK_SIZE <= d
  {
    var p := ChunkPlace(s.pools, c);
    var q := ChunkPlace(s.pools, d);
    var k, l := c / CHUNK_SIZE, d / CHUNK_SIZE;
    assert c == k * CHUNK_SIZE && d == l * CHUNK_SIZE;
    assert k < l;
  }

  // ---------------------------------------------------------------- runs

  datatype Op = Alloc(base: nat) | Free(p: nat)

  ghost predicate Legal(op: Op, s: PoolState) {
    match op
    case Alloc(base) => s.queue == [] ==> Fresh(base, s.pools)
    case Free(p) => p in s.out
  }

  ghost function Step(op: Op, s: PoolState): PoolState {
    match op
    case Alloc(base) => Allocated(s, base)
    case Free(p) => Freed(s, p)
  }

  ghost predicate LegalRun(ops: seq<Op>, s: PoolState) {
    ops == [] || (Legal(ops[0], s) && LegalRun(ops[1..], Step(ops[0], s)))
  }

  ghost function Run(ops: seq<Op>, s: PoolState): PoolState {
    if ops == [] then s else Run(ops[1..], Step(ops[0], s))
  }

  /** What one step hands out, and what it puts into the queue. */
  ghost function HandedBy(op: Op, s: PoolState): seq<nat> {
    match op
    case Alloc(base) => ChunksFromAre(base, CHUNKS_PER_POOL); [Replenished(s, base).queue[0]]
    case Free(_) => []
  }

  ghost function PushedBy(op: Op, s: PoolState): seq<nat> {
    match op
    case Alloc(base) => if s.queue == [] then PoolChunks(base) else []
    case Free(p) => [p]
  }

  ghost function Handed(ops: seq<Op>, s: PoolState): seq<nat> {
    if ops == [] then [] else HandedBy(ops[0], s) + Handed(ops[1..], Step(ops[0], s))
  }

  ghost function Pushed(ops: seq<Op>, s: PoolState): seq<nat> {
    if ops == [] then [] else PushedBy(ops[0], s) + Pushed(ops[1..], Step(ops[0], s))
  }

  lemma {:induction false} RunInv(ops: seq<Op>, s: PoolState)
    requires Inv(s) && LegalRun(ops, s)
    ensures Inv(Run(ops, s))
  {
    if ops != [] {
      StepHandsChunks(ops[0], s);
      RunInv(ops[1..], Step(ops[0], s));
    }
  }

  /** First in, first out: what a run hands out, followed by what is still queued,
      is what was queued at the start followed by what the run put in. */
  lemma {:induction false} Fifo(ops: seq<Op>, s: PoolState)
    ensures s.queue + Pushed(ops, s) == Handed(ops, s) + Run(ops, s).queue
  {
    if ops != [] {
      var op, s' := ops[0], Step(ops[0], s);
      var rest, rest' := Pushed(ops[1..], s'), Handed(ops[1..], s');
      Fifo(ops[1..], s');
      StepFifo(op, s);
      Regroup(s.queue, PushedBy(op, s), rest);
      Regroup(HandedBy(op, s), s'.queue, rest);
      Regroup(HandedBy(op, s), rest', Run(ops, s).queue);
    }
  }

  lemma StepFifo(op: Op, s: PoolState)
    ensures s.queue + PushedBy(op, s) == HandedBy(op, s) + Step(op, s).queue
  {
    match op
    case Alloc(base) =>
      ChunksFromAre(base, CHUNKS_PER_POOL);
      var q := Replenished(s, base).queue;
      assert q == [q[0]] + q[1..];
    case Free(p) =>
  }

  lemma Regroup(a: seq<nat>, b: seq<nat>, c: seq<nat>)
    ensures (a + b) + c == a + (b + c)
  {
  }

  /** No address is ever NULL, so the sentinel is never handed out. */
  lemma {:induction false} HandedAreChunks(ops: seq<Op>, s: PoolState, c: nat)
    requires Inv(s) && LegalRun(ops, s) && c in Handed(ops, s)
    ensures c > 0 && c % CHUNK_SIZE == 0
  {
    StepHandsChunks(ops[0], s);
    if c !in HandedBy(ops[0], s) {
      HandedAreChunks(ops[1..], Step(ops[0], s), c);
    }
  }

  lemma StepHandsChunks(op: Op, s: PoolState)
    requires Inv(s) && Legal(op, s)
    ensures Inv(Step(op, s))
    ensures forall c :: c in HandedBy(op, s) ==> c > 0 && c % CHUNK_SIZE == 0
  {
    match op
    case Alloc(base) => AllocatedInv(s, base);
    case Free(p) => FreedInv(s, p);
  }

  // ---------------------------------------------------------------- how many pools

  /** The most chunks that were in use at once. */
  ghost function PeakOf(ops: seq<Op>, s: PoolState, peak: int): int {
    if ops == [] then peak
    else
      var t := Step(ops[0], s);
      PeakOf(ops[1..], t, Max(peak, |t.out|))
  }

  /** n is the least number of pools, but at least one, that hold peak chunks. */
  ghost predicate LeastPools(n: nat, peak: int) {
    n >= 1 && peak <= n * CHUNKS_PER_POOL && (n > 1 ==> (n - 1) * CHUNKS_PER_POOL < peak)
  }

  lemma LeastPoolsStep(op: Op, s: PoolState, peak: int)
    requires Inv(s) && Legal(op, s) && |s.out| <= peak && LeastPools(|s.pools|, peak)
    ensures var t := Step(op, s);
      |t.out| <= Max(peak, |t.out|) && LeastPools(|t.pools|, Max(peak, |t.out|))
  {
    StepHandsChunks(op, s);
    OutCount(s);
    OutCount(Step(op, s));
    match op
    case Alloc(base) => PoolsAfter(s, base);
    case Free(p) => assert |Step(op, s).pools| == |s.pools|;
  }

  lemma OutCount(s: PoolState)
    requires Inv(s)
    ensures |s.out| == s.used && s.used + |s.queue| == CHUNKS_PER_POOL * |s.pools|
  {
  }

  /** A pool is mapped exactly if nothing is queued. */
  lemma PoolsAfter(s: PoolState, base: nat)
    ensures var t := Allocated(s, base);
      t.used == s.used + 1 && |t.pools| == |s.pools| + if s.queue == [] then 1 else 0
  {
  }

  /** A further pool is mapped only when nothing is left: over any run there are exactly as many as the peak needs. */
  lemma {:induction false} PoolsExactly(ops: seq<Op>, s: PoolState, peak: int)
    requires Inv(s) && LegalRun(ops, s) && |s.out| <= peak && LeastPools(|s.pools|, peak)
    ensures LeastPools(|Run(ops, s).pools|, PeakOf(ops, s, peak))
  {
    if ops != [] {
      var t := Step(ops[0], s);
      StepHandsChunks(ops[0], s);
      LeastPoolsStep(ops[0], s, peak);
      PoolsExactly(ops[1..], t, Max(peak, |t.out|));
    }
  }

  lemma CreatedLeast(base: nat)
    ensures LeastPools(|Created(base).pools|, 0)
  {
  }
}
