/**
 Thread-to-arena assignment over the array of arena pointers, refining BalanceModel.
 */
module Balance {
  import opened BalanceModel

  class ArenaRef {
    var nthreads: nat

    constructor ()
      ensures nthreads == 0
    {
      nthreads := 0;
    }
  }

  ghost predicate SlotMatches(r: ArenaRef?, slot: Slot)
    reads r
  {
    if slot.Null? then r == null else r != null && r.nthreads == slot.nthreads
  }

  /** The array holds the slots, and no arena twice. */
  ghost predicate SlotsMatch(arenas: seq<ArenaRef?>, slots: seq<Slot>)
    reads arenas
  {
    && |arenas| == |slots|
    && (forall i :: 0 <= i < |slots| ==> SlotMatches(arenas[i], slots[i]))
    && (forall i, j :: 0 <= i < j < |arenas| && arenas[i] != null ==> arenas[i] != arenas[j])
  }

  class Balancer {
    const arenas: array<ArenaRef?>
    ghost var slots: seq<Slot>

    ghost predicate Valid()
      reads this, arenas, arenas[..]
    {
      SlotsMatch(arenas[..], slots) && slots != [] && slots[0].Arena?
    }

    /** Boots with one arena. */
    constructor (narenas: nat)
      requires narenas > 0
      ensures Valid() && fresh(arenas) && fresh(arenas[0]) && slots == Booted(narenas).slots
    {
      arenas := new ArenaRef?[narenas](_ => null);
      slots := Booted(narenas).slots;
      new;
      arenas[0] := new ArenaRef();
    }

    /** Initializes the arena of an empty slot. */
    method ArenasExtend(ind: nat) returns (ret: ArenaRef)
      requires Valid() && ind < |slots| && slots[ind].Null?
      modifies this`slots, arenas
      ensures Valid() && slots == old(slots)[ind := Arena(0)] && ret == arenas[ind] && fresh(ret)
      ensures forall i :: 0 <= i < arenas.Length && i != ind ==> arenas[i] == old(arenas[i])
    {
      ret := new ArenaRef();
      arenas[ind] := ret;
      slots := slots[ind := Arena(0)];
    }

    /** One more thread on an arena. */
    method Enter(ret: ArenaRef, ghost k: nat)
      requires Valid() && k < |slots| && ret == arenas[k]
      modifies this`slots, ret
      ensures Valid() && slots == Assigned(old(slots), k)
    {
      ret.nthreads := ret.nthreads + 1;
      slots := Assigned(slots, k);
    }

    /** The least loaded initialized arena, and the first empty slot. */
    method Scan() returns (choose: nat, firstNull: nat)
      requires Valid()
      ensures LeastArena(slots, choose)
      ensures if firstNull == |slots| then NoNull(slots) else FirstNull(slots, firstNull)
    {
      assert SlotMatches(arenas[0], slots[0]);
      choose, firstNull := 0, arenas.Length;
      for i := 1 to arenas.Length
        invariant choose < i && slots[choose].Arena?
        invariant forall j :: 0 <= j < i && slots[j].Arena? ==>
          slots[choose].nthreads <= slots[j].nthreads && (slots[choose].nthreads == slots[j].nthreads ==> choose <= j)
        invariant if firstNull == arenas.Length then forall j :: 0 <= j < i ==> slots[j].Arena?
                  else firstNull < i && FirstNull(slots, firstNull)
      {
        assert SlotMatches(arenas[i], slots[i]) && SlotMatches(arenas[choose], slots[choose]);
        if arenas[i] != null {
          if arenas[i].nthreads < arenas[choose].nthreads {
            choose := i;
          }
        } else if firstNull == arenas.Length {
          firstNull := i;
        }
      }
    }

    /** Gives a new thread its arena. */
    method ChooseArenaHard() returns (ret: ArenaRef, ghost k: nat)
      requires Valid()
      modifies this`slots, arenas, arenas[..]
      ensures Valid() && Chosen(old(slots), k) && slots == Assigned(old(slots), k) && ret == arenas[k]
      ensures forall i :: 0 <= i < arenas.Length && (i != k || old(arenas[i]) != null) ==> arenas[i] == old(arenas[i])
      ensures old(arenas[k]) == null ==> fresh(ret)
    {
      assert SlotMatches(arenas[0], slots[0]);
      if arenas.Length > 1 {
        var choose, firstNull := Scan();
        assert SlotMatches(arenas[choose], slots[choose]);
        if arenas[choose].nthreads == 0 || firstNull == arenas.Length {
          ret, k := arenas[choose], choose;
        } else {
          k := firstNull;
          ret := ArenasExtend(firstNull);
        }
        Enter(ret, k);
      } else {
        ret, k := arenas[0], 0;
        Enter(ret, k);
      }
    }

    /** A thread of the k-th arena exits. */
    method ArenasCleanup(arena: ArenaRef, ghost k: nat)
      requires Valid() && k < |slots| && arena == arenas[k] && Load(slots, k) > 0
      modifies this`slots, arena
      ensures Valid() && slots == Exited(old(slots), k)
    {
      assert SlotMatches(arenas[k], slots[k]);
      arena.nthreads := arena.nthreads - 1;
      slots := Exited(slots, k);
    }
  }

  // ---------------------------------------------------------------- runs

  /** A thread asks for its arena, or one of the k-th arena exits. */
  datatype Event = Arrive | Leave(k: nat)

  /** Only live threads exit, whichever arenas they were given. */
  ghost predicate Possible(events: seq<Event>, m: Balance) {
    events == [] ||
    match events[0]
    case Arrive => forall k :: Chosen(m.slots, k) ==> Possible(events[1..], Step(Assign(k), m))
    case Leave(k) => Legal(Exit(k), m) && Possible(events[1..], Step(Exit(k), m))
  }

  ghost predicate Answers(op: Op, e: Event) {
    match e
    case Arrive => op.Assign?
    case Leave(k) => op == Exit(k)
  }

  /** One event, as one step of the model. */
  method Perform(b: Balancer, e: Event, ghost m: Balance) returns (ghost op: Op)
    requires b.Valid() && b.slots == m.slots && (e.Leave? ==> Legal(Exit(e.k), m))
    modifies b, b.arenas, b.arenas[..]
    ensures b.Valid() && Legal(op, m) && b.slots == Step(op, m).slots && Answers(op, e)
    ensures forall i :: 0 <= i < b.arenas.Length ==> b.arenas[i] == old(b.arenas[i]) || fresh(b.arenas[i])
  {
    match e
    case Arrive =>
      var ret;
      ghost var k;
      ret, k := b.ChooseArenaHard();
      op := Assign(k);
    case Leave(k) =>
      assert SlotMatches(b.arenas[k], b.slots[k]);
      b.ArenasCleanup(b.arenas[k], k);
      op := Exit(k);
  }

  method PerformAll(b: Balancer, events: seq<Event>, ghost m: Balance) returns (ghost ops: seq<Op>)
    requires b.Valid() && b.slots == m.slots && Possible(events, m)
    modifies b, b.arenas, b.arenas[..]
    ensures b.Valid() && LegalRun(ops, m) && b.slots == Run(ops, m).slots
    ensures |ops| == |events| && forall i :: 0 <= i < |ops| ==> Answers(ops[i], events[i])
    decreases |events|
  {
    if events == [] {
      ops := [];
    } else {
      ghost var op := Perform(b, events[0], m);
      ghost var rest := PerformAll(b, events[1..], Step(op, m));
      ops := [op] + rest;
      assert ops[1..] == rest;
    }
  }

  /** Any run of arrivals and exits on a new array of arenas is a run of the model, and keeps the balance. */
  method Replay(narenas: nat, events: seq<Event>) returns (b: Balancer, ghost ops: seq<Op>)
    requires narenas > 0 && Possible(events, Booted(narenas))
    ensures fresh(b) && b.Valid()
    ensures |ops| == |events| && forall i :: 0 <= i < |ops| ==> Answers(ops[i], events[i])
    ensures LegalRun(ops, Booted(narenas))
    ensures var m := Run(ops, Booted(narenas)); b.slots == m.slots && Inv(m)
  {
    b := new Balancer(narenas);
    ops := PerformAll(b, events, Booted(narenas));
    BootedInv(narenas);
    RunInv(ops, Booted(narenas));
  }
}
