/**
 The chunk pool in memory: a ring of free chunks with one sentinel of address
 NULL and a moving cursor, refining the queue of PoolModel.
 */
module Pool {
  import opened AddressSpace
  import opened PoolModel
  import opened Ring

  type FreeElm = Elm<nat>

  ghost function Addr(e: FreeElm): seq<nat> {
    if e.data == NULL then [] else [e.data]
  }

  /** The addresses along a ring, with sentinels erased. */
  ghost function Addrs(s: seq<FreeElm>): seq<nat> {
    if s == [] then [] else Addrs(s[..|s| - 1]) + Addr(s[|s| - 1])
  }

  lemma {:induction false} AddrsAppend(a: seq<FreeElm>, b: seq<FreeElm>)
    ensures Addrs(a + b) == Addrs(a) + Addrs(b)
    decreases |b|
  {
    if b == [] {
      assert a + b == a;
    } else {
      var init := b[..|b| - 1];
      assert (a + b)[..|a + b| - 1] == a + init;
      AddrsAppend(a, init);
    }
  }

  lemma {:induction false} AddrsCount(s: seq<FreeElm>, e: FreeElm)
    ensures |Addrs(s)| <= |s|
    ensures |Addrs(s)| == |s| && e in s ==> e.data != NULL
    decreases |s|
  {
    if s != [] {
      AddrsCount(s[..|s| - 1], e);
    }
  }

  lemma AddrsOne(f: FreeElm, r: seq<FreeElm>)
    ensures Addrs([f] + r) == Addr(f) + Addrs(r)
    ensures Addrs(r + [f]) == Addrs(r) + Addr(f)
  {
    AddrsAppend([f], r);
    AddrsAppend(r, [f]);
    assert [f][..0] == [];
  }

  /** A ring, read from the cursor, that holds the sentinel exactly once; q is its queue. */
  ghost predicate FreeRing(ring: seq<FreeElm>, cursor: FreeElm, q: seq<nat>)
    reads ring
  {
    && IsRing(ring) && ring[0] == cursor
    && Addrs(ring) == q && |q| + 1 == |ring|
  }

  ghost function Members(s: seq<FreeElm>): set<FreeElm> {
    set e | e in s
  }

  lemma MembersOne(e: FreeElm, r: seq<FreeElm>)
    ensures Members([e] + r) == Members(r) + {e} == Members(r + [e])
  {
    assert e in [e];
    forall x ensures x in [e] + r <==> x == e || x in r {
    }
    forall x ensures x in r + [e] <==> x == e || x in r {
    }
  }

  lemma RingFacts(ring: seq<FreeElm>, cursor: FreeElm, r: seq<FreeElm>)
    requires IsRing(ring) && ring == [cursor] + r
    ensures cursor.next == (if r == [] then cursor else r[0])
    ensures cursor.next in ring && cursor.prev in ring && cursor !in r
    ensures IsRing(r + [cursor])
    ensures Members(ring) == Members(r) + {cursor} == Members(r + [cursor])
  {
    assert ring == [] + ([cursor] + r);
    Neighbours(cursor, [], r);
    Swapped(r, [cursor]);
    MembersOne(cursor, r);
  }

  /** The cursor's element and the rest of the ring. */
  lemma Uncons(ring: seq<FreeElm>, cursor: FreeElm) returns (r: seq<FreeElm>)
    requires IsRing(ring) && ring[0] == cursor
    ensures ring == [cursor] + r
    ensures cursor.next == (if r == [] then cursor else r[0])
    ensures cursor.next in ring && cursor.prev in ring && cursor !in r
    ensures IsRing(r + [cursor])
    ensures Members(ring) == Members(r) + {cursor} == Members(r + [cursor])
    ensures Addrs(ring) == Addr(cursor) + Addrs(r)
    ensures Addrs(r + [cursor]) == Addrs(r) + Addr(cursor)
  {
    r := ring[1..];
    assert ring == [cursor] + r;
    RingFacts(ring, cursor, r);
    AddrsOne(cursor, r);
  }

  /** Only the sentinel is left exactly when the cursor is its own successor. */
  lemma OnlySentinel(ring: seq<FreeElm>, cursor: FreeElm, q: seq<nat>)
    requires FreeRing(ring, cursor, q)
    ensures cursor.next == cursor <==> q == []
    ensures q == [] ==> ring == [cursor] && cursor.data == NULL
  {
    var r := Uncons(ring, cursor);
    assert |q| == |r|;
    if r == [] {
      assert Addrs(r) == [] && Addr(cursor) == q;
    } else {
      assert r[0] in r;
    }
  }

  /** The cursor is moved off the sentinel. */
  method SkipSentinel(cursor: FreeElm, ghost ring: seq<FreeElm>, ghost q: seq<nat>)
    returns (c: FreeElm, ghost s: seq<FreeElm>)
    requires FreeRing(ring, cursor, q) && q != []
    ensures FreeRing(s, c, q) && c.data != NULL
    ensures Members(s) == Members(ring)
  {
    c, s := cursor, ring;
    if cursor.data == NULL {
      ghost var r := Uncons(ring, cursor);
      AddrsCount(r, r[0]);
      c, s := cursor.next, r + [cursor];
    }
  }

  /** Unlinks the chunk at the cursor. */
  method Pop(cursor: FreeElm, ghost ring: seq<FreeElm>, ghost q: seq<nat>)
    returns (ret: nat, c: FreeElm, ghost s: seq<FreeElm>)
    requires FreeRing(ring, cursor, q) && q != []
    modifies Members(ring)
    ensures FreeRing(s, c, q[1..]) && ret == q[0]
    ensures Members(s) <= Members(ring)
  {
    var tmp;
    ghost var t;
    tmp, t := SkipSentinel(cursor, ring, q);
    ghost var r := Uncons(t, tmp);
    assert {tmp, tmp.next, tmp.prev} <= Members(t);
    ret := tmp.data;
    c := tmp.next;
    Ring.Remove(tmp, t);
    s := t[1..];
    assert s == r;
  }

  /** Links a new element in just before the cursor. */
  method Push(cursor: FreeElm, tmp: FreeElm, ghost ring: seq<FreeElm>, ghost q: seq<nat>)
    requires FreeRing(ring, cursor, q) && tmp !in ring && tmp.data != NULL
    modifies Members(ring), tmp
    ensures FreeRing(ring + [tmp], cursor, q + [tmp.data])
    ensures Members(ring + [tmp]) == Members(ring) + {tmp}
  {
    ghost var r := Uncons(ring, cursor);
    assert {cursor, cursor.prev} <= Members(ring);
    AddrsOne(tmp, ring);
    BeforeInsert(cursor, tmp, ring);
  }

  /** The loop that inserts n consecutive chunks, one behind the other, after a lone sentinel,
      and the cursor step that follows it. */
  method BuildFreelist(sentinel: FreeElm, base: nat, n: nat) returns (c: FreeElm, ghost s: seq<FreeElm>)
    requires FreeRing([sentinel], sentinel, []) && base > 0 && n > 0
    modifies sentinel
    ensures FreeRing(s, c, ChunksFrom(base, n))
    ensures fresh(Members(s) - {sentinel})
  {
    var pre := sentinel;
    s := [sentinel];
    for i := 0 to n
      invariant IsRing(s) && |s| == i + 1 && s[0] == sentinel && pre == s[i] && sentinel.data == NULL
      invariant Addrs(s) == ChunksFrom(base, i)
      invariant fresh(Members(s) - {sentinel})
    {
      var tmp := new Elm<nat>(base + i * CHUNK_SIZE);
      assert pre.next == sentinel && pre in Members(s);
      AddrsNext(s, tmp, base, i);
      MembersOne(tmp, s);
      s := Extend(s, pre, tmp);
      pre := tmp;
    }
    ghost var r := Uncons(s, sentinel);
    ChunksFromAre(base, n);
    c := sentinel.next;
    s := r + [sentinel];
  }

  lemma AddrsNext(s: seq<FreeElm>, tmp: FreeElm, base: nat, i: nat)
    requires Addrs(s) == ChunksFrom(base, i) && tmp.data == base + i * CHUNK_SIZE && base > 0
    ensures Addrs(s + [tmp]) == ChunksFrom(base, i + 1)
  {
    AddrsOne(tmp, s);
  }

  method Extend(ghost s: seq<FreeElm>, pre: FreeElm, tmp: FreeElm) returns (ghost r: seq<FreeElm>)
    requires IsRing(s) && pre == s[|s| - 1] && tmp !in s
    modifies pre, pre.next, tmp
    ensures r == s + [tmp] && IsRing(r)
  {
    ghost var x := s[..|s| - 1];
    assert s == x + ([pre] + []);
    Swapped([pre], x);
    AfterInsert(pre, tmp, [pre] + x);
    assert ([pre] + x)[1..] == x && [pre, tmp] + x == [pre] + ([tmp] + x);
    Swapped(x, [pre, tmp]);
    assert x + [pre, tmp] == s + [tmp];
    r := s + [tmp];
  }

  // ---------------------------------------------------------------- mapping

  /** Where a new pool ends up: at the first place if that is aligned, else inside the second. */
  function Base(addr1: nat, addr2: nat): nat {
    if addr1 == Ceiling(addr1, CHUNK_SIZE) then addr1 else Ceiling(addr2, CHUNK_SIZE)
  }

  /** The first place is taken exactly if it is aligned; else the first aligned one inside the second is. */
  lemma BaseExactly(addr1: nat, addr2: nat)
    ensures if addr1 % CHUNK_SIZE == 0 then Base(addr1, addr2) == addr1
            else Base(addr1, addr2) % CHUNK_SIZE == 0 && addr2 <= Base(addr1, addr2) < addr2 + CHUNK_SIZE
  {
  }

  ghost function PoolRange(base: nat): set<int> {
    Range(base, base + POOL_SIZE)
  }

  /** The places the system may choose: for the first try, and for the over-sized second one. */
  ghost predicate Choices(addr1: nat, addr2: nat, mapped: set<int>) {
    && addr1 > 0 && PoolRange(addr1) !! mapped
    && addr2 > 0 && Range(addr2, addr2 + POOL_SIZE + CHUNK_SIZE) !! mapped
  }

  /** Maps a pool-sized, chunk-aligned range and nothing else. */
  method MapPool(space: Space, addr1: nat, addr2: nat) returns (ret: nat)
    requires Choices(addr1, addr2, space.mapped)
    modifies space
    ensures ret == Base(addr1, addr2) > 0 && ret % CHUNK_SIZE == 0
    ensures PoolRange(ret) !! old(space.mapped)
    ensures space.mapped == old(space.mapped) + PoolRange(ret)
  {
    ghost var m := space.mapped;
    var addr := space.Map(addr1, POOL_SIZE);
    if addr == Ceiling(addr, CHUNK_SIZE) {
      ret := addr;
    } else {
      space.Unmap(addr, POOL_SIZE);
      assert space.mapped == m;
      addr := space.Map(addr2, POOL_SIZE + CHUNK_SIZE);
      ret := Ceiling(addr, CHUNK_SIZE);
      TrimmedMiddle(m, addr, ret, ret + POOL_SIZE, addr + POOL_SIZE + CHUNK_SIZE);
      space.Unmap(addr, ret - addr);
      space.Unmap(ret + POOL_SIZE, addr + CHUNK_SIZE - ret);
      assert PoolRange(ret) <= Range(addr, addr + POOL_SIZE + CHUNK_SIZE);
    }
  }

  ghost predicate PoolsMapped(pools: seq<nat>, mapped: set<int>) {
    forall p :: p in pools ==> PoolRange(p) <= mapped
  }

  /** A range that was not mapped is apart from every pool. */
  lemma PlacedFresh(pools: seq<nat>, base: nat, mapped: set<int>)
    requires base > 0 && base % CHUNK_SIZE == 0 && PoolRange(base) !! mapped
    requires PoolsMapped(pools, mapped)
    ensures Fresh(base, pools)
    ensures PoolsMapped(pools + [base], mapped + PoolRange(base))
  {
    forall p | p in pools ensures Apart(base, p) {
      if !Apart(base, p) {
        Overlapping(base, p);
      }
    }
  }

  lemma Overlapping(p: nat, q: nat)
    requires !Apart(p, q)
    ensures PoolRange(p) * PoolRange(q) != {}
  {
    assert Max(p, q) in PoolRange(p) * PoolRange(q);
  }

  /** The state is consistent, and every pool it knows is mapped. */
  ghost predicate Placed(s: PoolState, mapped: set<int>) {
    Inv(s) && PoolsMapped(s.pools, mapped)
  }

  /** The bytes an allocation maps. */
  ghost function NewlyMapped(s: PoolState, base: nat): set<int> {
    if s.queue == [] then PoolRange(base) else {}
  }

  lemma BasePlaced(addr1: nat, addr2: nat, mapped: set<int>)
    requires Choices(addr1, addr2, mapped)
    ensures var b := Base(addr1, addr2); b > 0 && b % CHUNK_SIZE == 0 && PoolRange(b) !! mapped
  {
    var b := Base(addr1, addr2);
    if b != addr1 {
      assert PoolRange(b) <= Range(addr2, addr2 + POOL_SIZE + CHUNK_SIZE);
    }
  }

  lemma CreatedPlaced(addr1: nat, addr2: nat, mapped: set<int>)
    requires Choices(addr1, addr2, mapped)
    ensures var b := Base(addr1, addr2); Placed(Created(b), mapped + PoolRange(b))
  {
    BasePlaced(addr1, addr2, mapped);
    CreatedInv(Base(addr1, addr2));
  }

  /** Allocation keeps the partition, wherever the system maps a further pool. */
  lemma AllocatedPlaced(s: PoolState, addr1: nat, addr2: nat, mapped: set<int>)
    requires Placed(s, mapped) && (s.queue == [] ==> Choices(addr1, addr2, mapped))
    ensures var b := Base(addr1, addr2);
      && Placed(Allocated(s, b), mapped + NewlyMapped(s, b))
      && var c := Replenished(s, b).queue[0];
         c > 0 && c % CHUNK_SIZE == 0 && c !in s.out && Allocated(s, b).out == s.out + {c}
  {
    var b := Base(addr1, addr2);
    if s.queue == [] {
      BasePlaced(addr1, addr2, mapped);
      PlacedFresh(s.pools, b, mapped);
    }
    AllocatedInv(s, b);
  }

  lemma FreedPlaced(s: PoolState, ptr: nat, mapped: set<int>)
    requires Placed(s, mapped) && ptr in s.out
    ensures Placed(Freed(s, ptr), mapped) && ptr > 0
  {
    FreedInv(s, ptr);
    var p := ChunkPlace(s.pools, ptr);
  }

  // ---------------------------------------------------------------- the pool object

  class Pool {
    const space: Space
    var flNow: FreeElm
    var chunkTot: int
    var chunkUsed: int
    ghost var ring: seq<FreeElm>
    ghost var state: PoolState

    /** The ring and the counters are those of the abstract state. */
    ghost predicate Valid()
      reads this, ring
    {
      && FreeRing(ring, flNow, state.queue)
      && state.tot == chunkTot && state.used == chunkUsed
    }

    /** A lone sentinel, and then the first pool. */
    constructor (space: Space, addr1: nat, addr2: nat)
      requires Choices(addr1, addr2, space.mapped)
      modifies space
      ensures Valid() && this.space == space && state == Created(Base(addr1, addr2))
      ensures space.mapped == old(space.mapped) + PoolRange(Base(addr1, addr2))
      ensures fresh(Members(ring))
    {
      this.space := space;
      var sentinel := new Elm<nat>(NULL);
      flNow, ring := sentinel, [sentinel];
      chunkTot, chunkUsed := 0, 0;
      state := PoolState([], [], {}, 0, 0);
      new;
      assert [sentinel][..0] == [];
      CreateOne(addr1, addr2);
      assert [] + [Base(addr1, addr2)] == [Base(addr1, addr2)];
    }

    /** Maps a pool and links its chunks behind the sentinel. */
    method CreateOne(addr1: nat, addr2: nat)
      requires Valid() && state.queue == [] && Choices(addr1, addr2, space.mapped)
      modifies this, Members(ring), space
      ensures Valid() && state == Replenished(old(state), Base(addr1, addr2))
      ensures space.mapped == old(space.mapped) + PoolRange(Base(addr1, addr2))
      ensures fresh(Members(ring) - old(Members(ring)))
    {
      OnlySentinel(ring, flNow, state.queue);
      assert flNow in Members(ring);
      var ret := MapPool(space, addr1, addr2);
      PoolSizeIsWhole();
      var freelistLen := POOL_SIZE / CHUNK_SIZE;
      chunkTot := chunkTot + freelistLen;
      flNow, ring := BuildFreelist(flNow, ret, freelistLen);
      state := Replenished(state, ret);
    }

    /** Hands out the chunk at the cursor, stepping over the sentinel; maps a pool when only that is left. */
    method ChunkAlloc(addr1: nat, addr2: nat) returns (ret: nat)
      requires Valid() && (state.queue == [] ==> Choices(addr1, addr2, space.mapped))
      modifies this, Members(ring), space
      ensures Valid() && state == Allocated(old(state), Base(addr1, addr2))
      ensures ret == Replenished(old(state), Base(addr1, addr2)).queue[0]
      ensures space.mapped == old(space.mapped) + NewlyMapped(old(state), Base(addr1, addr2))
      ensures fresh(Members(ring) - old(Members(ring)))
    {
      OnlySentinel(ring, flNow, state.queue);
      if flNow.next == flNow {
        CreateOne(addr1, addr2);
      }
      ret := Take();
    }

    /** Pops the chunk at the cursor. */
    method Take() returns (ret: nat)
      requires Valid() && state.queue != []
      modifies this, Members(ring)
      ensures Valid() && state == Popped(old(state)) && ret == old(state).queue[0]
      ensures Members(ring) <= old(Members(ring))
    {
      ret, flNow, ring := Pop(flNow, ring, state.queue);
      chunkUsed := chunkUsed + 1;
      state := Popped(state);
    }

    /** Gives a chunk back: it is linked in behind everything that is queued. */
    method Free(ptr: nat)
      requires Valid() && ptr > 0
      modifies this, Members(ring)
      ensures Valid() && state == Freed(old(state), ptr)
      ensures fresh(Members(ring) - old(Members(ring)))
    {
      var tmp := new Elm<nat>(ptr);
      Push(flNow, tmp, ring, state.queue);
      Enqueued(tmp);
    }

    /** Records a chunk that was linked in. */
    method Enqueued(ghost tmp: FreeElm)
      requires FreeRing(ring + [tmp], flNow, state.queue + [tmp.data]) && tmp.data > 0
      requires state.tot == chunkTot && state.used == chunkUsed
      modifies this
      ensures Valid() && state == Freed(old(state), tmp.data) && ring == old(ring) + [tmp]
    {
      assert allocated(ring + [tmp]);
      ring := ring + [tmp];
      chunkUsed := chunkUsed - 1;
      state := Freed(state, tmp.data);
    }
  }
}
