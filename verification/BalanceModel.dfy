/**
 Which arena a thread is given: slots that hold no arena yet or an arena with its number
 of threads, and the runs of assignments and exits over them.
 */
module BalanceModel {
  import opened AddressSpace

  datatype Slot = Null | Arena(nthreads: nat)

  /** An empty slot counts as an arena without threads. */
  ghost function Load(slots: seq<Slot>, i: nat): nat
    requires i < |slots|
  {
    if slots[i].Null? then 0 else slots[i].nthreads
  }

  /** The first initialized arena with the fewest threads. */
  ghost predicate LeastArena(slots: seq<Slot>, k: nat) {
    && k < |slots| && slots[k].Arena?
    && forall i :: 0 <= i < |slots| && slots[i].Arena? ==>
         slots[k].nthreads <= slots[i].nthreads && (slots[k].nthreads == slots[i].nthreads ==> k <= i)
  }

  ghost predicate FirstNull(slots: seq<Slot>, k: nat) {
    k < |slots| && slots[k].Null? && forall i :: 0 <= i < k ==> slots[i].Arena?
  }

  ghost predicate NoNull(slots: seq<Slot>) {
    forall i :: 0 <= i < |slots| ==> slots[i].Arena?
  }

  ghost predicate AllBusy(slots: seq<Slot>) {
    forall i :: 0 <= i < |slots| && slots[i].Arena? ==> slots[i].nthreads > 0
  }

  /** A new arena only when every initialized one is busy; else the least busy one. */
  ghost predicate Chosen(slots: seq<Slot>, k: nat) {
    || (LeastArena(slots, k) && (slots[k].nthreads == 0 || NoNull(slots)))
    || (FirstNull(slots, k) && AllBusy(slots))
  }

  lemma ChosenIsUnique(slots: seq<Slot>, j: nat, k: nat)
    requires Chosen(slots, j) && Chosen(slots, k)
    ensures j == k
  {
  }

  /** There is always a slot to choose. */
  lemma ChosenExists(slots: seq<Slot>) returns (k: nat)
    requires slots != [] && slots[0].Arena?
    ensures Chosen(slots, k)
  {
    k := LeastExists(slots);
    if slots[k].nthreads > 0 && !NoNull(slots) {
      k := FirstNullExists(slots);
    }
  }

  lemma {:induction false} LeastExists(slots: seq<Slot>) returns (k: nat)
    requires slots != [] && slots[0].Arena?
    ensures LeastArena(slots, k)
  {
    var h := |slots| - 1;
    if h == 0 {
      k := 0;
    } else {
      k := LeastExists(slots[..h]);
      if slots[h].Arena? && slots[h].nthreads < slots[k].nthreads {
        k := h;
      }
    }
  }

  lemma {:induction false} FirstNullExists(slots: seq<Slot>) returns (k: nat)
    requires !NoNull(slots)
    ensures FirstNull(slots, k)
  {
    var h := |slots| - 1;
    if NoNull(slots[..h]) {
      assert forall i :: 0 <= i < h ==> slots[i] == slots[..h][i];
      k := h;
    } else {
      k := FirstNullExists(slots[..h]);
    }
  }

  lemma ChosenIsLeastLoaded(slots: seq<Slot>, k: nat, i: nat)
    requires Chosen(slots, k) && i < |slots|
    ensures Load(slots, k) <= Load(slots, i)
  {
  }

  /** Some initialized arena has no threads, or there is no room for another arena. */
  ghost predicate IdleOrFull(slots: seq<Slot>) {
    NoNull(slots) || exists i :: 0 <= i < |slots| && slots[i] == Arena(0)
  }

  /** The chosen slot has the least load, holds an arena exactly if one is idle or no slot is empty,
      and is the first such. */
  lemma ChosenExactly(slots: seq<Slot>, k: nat)
    requires k < |slots|
    ensures Chosen(slots, k) <==>
      && (forall i :: 0 <= i < |slots| ==> Load(slots, k) <= Load(slots, i))
      && (slots[k].Arena? <==> IdleOrFull(slots))
      && forall i :: 0 <= i < k && (slots[i].Arena? <==> slots[k].Arena?) ==> Load(slots, i) != Load(slots, k)
  {
    if Chosen(slots, k) && slots[k].Arena? && !NoNull(slots) {
      assert slots[k] == Arena(0);
    }
    if slots[k].Null? && !IdleOrFull(slots) {
      assert forall i :: 0 <= i < |slots| && slots[i].Arena? ==> slots[i] != Arena(0);
    }
    if slots[k].Null? {
      assert !NoNull(slots);
    }
    if slots[k].Arena? && exists i :: 0 <= i < |slots| && slots[i] == Arena(0) {
      var i :| 0 <= i < |slots| && slots[i] == Arena(0);
      assert Load(slots, i) == 0;
    }
    assert forall i :: 0 <= i < |slots| && slots[i].Arena? ==> Load(slots, i) == slots[i].nthreads;
  }

  ghost function Assigned(slots: seq<Slot>, k: nat): seq<Slot>
    requires k < |slots|
  {
    slots[k := Arena(Load(slots, k) + 1)]
  }

  ghost function Exited(slots: seq<Slot>, k: nat): seq<Slot>
    requires k < |slots| && Load(slots, k) > 0
  {
    slots[k := Arena(Load(slots, k) - 1)]
  }

  // ---------------------------------------------------------------- totals

  ghost function TotalLoad(slots: seq<Slot>): nat {
    if slots == [] then 0 else TotalLoad(slots[..|slots| - 1]) + Load(slots, |slots| - 1)
  }

  ghost function Initialized(slots: seq<Slot>): nat {
    if slots == [] then 0
    else Initialized(slots[..|slots| - 1]) + if slots[|slots| - 1].Arena? then 1 else 0
  }

  lemma {:induction false} TotalsAfter(slots: seq<Slot>, k: nat, n: nat)
    requires k < |slots|
    ensures TotalLoad(slots[k := Arena(n)]) == TotalLoad(slots) - Load(slots, k) + n
    ensures Initialized(slots[k := Arena(n)]) == Initialized(slots) + if slots[k].Null? then 1 else 0
    decreases |slots|
  {
    var h, t := |slots| - 1, slots[k := Arena(n)];
    if k == h {
      assert t[..h] == slots[..h];
    } else {
      assert t[..h] == slots[..h][k := Arena(n)];
      TotalsAfter(slots[..h], k, n);
    }
  }

  lemma {:induction false} TotalAtLeast(slots: seq<Slot>, m: nat)
    requires forall i :: 0 <= i < |slots| ==> m <= Load(slots, i)
    ensures m * |slots| <= TotalLoad(slots)
  {
    if slots != [] {
      var init := slots[..|slots| - 1];
      assert forall i :: 0 <= i < |init| ==> Load(init, i) == Load(slots, i);
      TotalAtLeast(init, m);
      assert m * |slots| == m * |init| + m;
    }
  }

  lemma {:induction false} BusyCount(slots: seq<Slot>)
    requires AllBusy(slots)
    ensures Initialized(slots) <= TotalLoad(slots)
  {
    if slots != [] {
      var init := slots[..|slots| - 1];
      BusyCount(init);
    }
  }

  // ---------------------------------------------------------------- runs

  /** live holds the slot of every live thread; peak is the most threads that were ever live at once. */
  datatype Balance = Balance(slots: seq<Slot>, live: multiset<nat>, peak: nat)

  function CeilDiv(a: nat, n: nat): nat
    requires n > 0
  {
    (a + n - 1) / n
  }

  ghost predicate WithinShare(slots: seq<Slot>, share: nat) {
    forall i :: 0 <= i < |slots| ==> Load(slots, i) <= share
  }

  ghost predicate Inv(b: Balance) {
    && b.slots != [] && b.slots[0].Arena?
    && (forall k :: k in b.live ==> k < |b.slots|)
    && (forall i :: 0 <= i < |b.slots| ==> Load(b.slots, i) == b.live[i])
    && TotalLoad(b.slots) == |b.live| <= b.peak
    && WithinShare(b.slots, CeilDiv(b.peak, |b.slots|))
    && Initialized(b.slots) <= Max(1, b.peak)
  }

  datatype Op = Assign(k: nat) | Exit(k: nat)

  /** A thread is given the slot the search chooses; only a live thread exits. */
  ghost predicate Legal(op: Op, b: Balance) {
    match op
    case Assign(k) => Chosen(b.slots, k)
    case Exit(k) => k in b.live && k < |b.slots| && Load(b.slots, k) > 0
  }

  ghost function Step(op: Op, b: Balance): Balance
    requires Legal(op, b)
  {
    match op
    case Assign(k) => Balance(Assigned(b.slots, k), b.live + multiset{k}, Max(b.peak, |b.live| + 1))
    case Exit(k) => Balance(Exited(b.slots, k), b.live - multiset{k}, b.peak)
  }

  ghost predicate LegalRun(ops: seq<Op>, b: Balance) {
    ops == [] || (Legal(ops[0], b) && LegalRun(ops[1..], Step(ops[0], b)))
  }

  ghost function Run(ops: seq<Op>, b: Balance): Balance
    requires LegalRun(ops, b)
  {
    if ops == [] then b else Run(ops[1..], Step(ops[0], b))
  }

  /** One arena and no threads. */
  ghost function Booted(n: nat): Balance
    requires n > 0
  {
    Balance([Arena(0)] + seq(n - 1, _ => Null), multiset{}, 0)
  }

  lemma {:induction false} NullTotals(slots: seq<Slot>)
    requires slots != [] && slots[0] == Arena(0) && forall i :: 1 <= i < |slots| ==> slots[i].Null?
    ensures TotalLoad(slots) == 0 && Initialized(slots) == 1
  {
    var init := slots[..|slots| - 1];
    if init != [] {
      NullTotals(init);
    }
  }

  lemma BootedInv(n: nat)
    requires n > 0
    ensures Inv(Booted(n))
  {
    NullTotals(Booted(n).slots);
    assert 0 <= CeilDiv(0, n);
  }

  lemma CeilDivBound(m: nat, n: nat, a: nat)
    requires n > 0 && m * n < a
    ensures m + 1 <= CeilDiv(a, n)
  {
    var q, r := (a + n - 1) / n, (a + n - 1) % n;
    assert a + n - 1 == q * n + r;
    if q < m + 1 {
      TimesAtLeast(m + 1 - q, n);
    }
  }

  lemma CeilDivGrows(n: nat, a: nat, b: nat)
    requires n > 0 && a <= b
    ensures CeilDiv(a, n) <= CeilDiv(b, n)
  {
    var q, r := (a + n - 1) / n, (a + n - 1) % n;
    var p, s := (b + n - 1) / n, (b + n - 1) % n;
    assert a + n - 1 == q * n + r && b + n - 1 == p * n + s;
    if p < q {
      TimesAtLeast(q - p, n);
    }
  }

  lemma AssignInv(b: Balance, k: nat)
    requires Inv(b) && Chosen(b.slots, k)
    ensures Inv(Step(Assign(k), b))
  {
    TotalsAfter(b.slots, k, Load(b.slots, k) + 1);
    AssignedShare(b, k);
    AssignedInit(b, k);
  }

  /** The least load is below the average, so that one more thread is within the share. */
  lemma AssignedShare(b: Balance, k: nat)
    requires Inv(b) && Chosen(b.slots, k)
    ensures var t := Step(Assign(k), b);
      WithinShare(t.slots, CeilDiv(t.peak, |b.slots|))
  {
    var n, m := |b.slots|, Load(b.slots, k);
    var t := Step(Assign(k), b);
    LeastShare(b, k, t.peak);
    CeilDivGrows(n, b.peak, t.peak);
    forall i | 0 <= i < n ensures Load(t.slots, i) <= CeilDiv(t.peak, n) {
      assert i != k ==> Load(t.slots, i) == Load(b.slots, i);
    }
  }

  lemma LeastShare(b: Balance, k: nat, peak: nat)
    requires Inv(b) && Chosen(b.slots, k) && peak > |b.live|
    ensures Load(b.slots, k) + 1 <= CeilDiv(peak, |b.slots|)
  {
    var n, m := |b.slots|, Load(b.slots, k);
    forall i | 0 <= i < n ensures m <= Load(b.slots, i) {
      ChosenIsLeastLoaded(b.slots, k, i);
    }
    TotalAtLeast(b.slots, m);
    CeilDivBound(m, n, peak);
  }

  /** A new arena is only initialized when every other one has a thread. */
  lemma AssignedInit(b: Balance, k: nat)
    requires Inv(b) && Chosen(b.slots, k)
    ensures Initialized(Assigned(b.slots, k)) <= Max(1, Max(b.peak, |b.live| + 1))
  {
    TotalsAfter(b.slots, k, Load(b.slots, k) + 1);
    if b.slots[k].Null? {
      BusyCount(b.slots);
    }
  }

  lemma ExitInv(b: Balance, k: nat)
    requires Inv(b) && Legal(Exit(k), b)
    ensures Inv(Step(Exit(k), b))
  {
    TotalsAfter(b.slots, k, Load(b.slots, k) - 1);
  }

  /** Over any run, the loads are exact, no arena has more than its share of the peak,
      and no more arenas were initialized than there were threads. */
  lemma {:induction false} RunInv(ops: seq<Op>, b: Balance)
    requires Inv(b) && LegalRun(ops, b)
    ensures Inv(Run(ops, b))
  {
    if ops != [] {
      match ops[0] {
        case Assign(k) => AssignInv(b, k);
        case Exit(k) => ExitInv(b, k);
      }
      RunInv(ops[1..], Step(ops[0], b));
    }
  }

  /** A live thread can always exit: its arena's count is not zero. */
  lemma LiveCanExit(b: Balance, k: nat)
    requires Inv(b) && k in b.live
    ensures Legal(Exit(k), b)
  {
  }
}
