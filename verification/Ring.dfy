/**
 Intrusive circular doubly linked lists. A ring is named by the sequence of its
 elements, read forwards from any one of them.
 */
module Ring {

  class Elm<T> {
    const data: T
    var next: Elm<T>
    var prev: Elm<T>

    /** A fresh element, already made a ring of its own. */
    constructor (data: T)
      ensures this.data == data && IsRing([this])
    {
      this.data := data;
      next := this;
      prev := this;
    }
  }

  ghost predicate Distinct<T>(s: seq<Elm<T>>) {
    forall i, j :: 0 <= i < j < |s| ==> s[i] != s[j]
  }

  ghost predicate Joined<T>(x: Elm<T>, y: Elm<T>)
    reads x, y
  {
    x.next == y && y.prev == x
  }

  /** next leads through s and back to its start, prev undoes next, and no element repeats. */
  ghost predicate IsRing<T>(s: seq<Elm<T>>)
    reads s
  {
    && s != [] && Distinct(s)
    && (forall i, j :: 0 <= i < j < |s| && j == i + 1 ==> Joined(s[i], s[j]))
    && Joined(s[|s| - 1], s[0])
  }

  /** A ring may be read from any of its elements. */
  lemma Rotate<T>(s: seq<Elm<T>>, k: nat)
    requires IsRing(s) && k < |s|
    ensures IsRing(s[k..] + s[..k])
  {
    var r := s[k..] + s[..k];
    forall i', i | 0 <= i' < i < |r| && i == i' + 1 ensures Joined(r[i'], r[i]) {
      if i == |s| - k {
        assert r[i - 1] == s[|s| - 1] && r[i] == s[0];
      } else if i < |s| - k {
        assert r[i - 1] == s[k + i - 1] && r[i] == s[k + i];
      } else {
        assert r[i - 1] == s[i - 1 - (|s| - k)] && r[i] == s[i - (|s| - k)];
      }
    }
    if k > 0 {
      assert r[|r| - 1] == s[k - 1] && r[0] == s[k];
    } else {
      assert r == s;
    }
  }

  lemma Swapped<T>(x: seq<Elm<T>>, y: seq<Elm<T>>)
    requires IsRing(y + x)
    ensures IsRing(x + y)
  {
    if x == [] {
      assert y + x == x + y;
    } else {
      Rotate(y + x, |y|);
      assert (y + x)[|y|..] + (y + x)[..|y|] == x + y;
    }
  }

  method BeforeInsert<T>(elm: Elm<T>, qr: Elm<T>, ghost s: seq<Elm<T>>)
    requires IsRing(s) && s[0] == elm && qr !in s
    modifies elm, elm.prev, qr
    ensures IsRing(s + [qr])
  {
    assert elm.prev == s[|s| - 1];
    qr.prev := elm.prev;
    qr.next := elm;
    qr.prev.next := qr;
    elm.prev := qr;
  }

  method AfterInsert<T>(elm: Elm<T>, qr: Elm<T>, ghost s: seq<Elm<T>>)
    requires IsRing(s) && s[0] == elm && qr !in s
    modifies elm, elm.next, qr
    ensures IsRing([elm, qr] + s[1..])
  {
    assert elm.next == if |s| == 1 then elm else s[1];
    qr.next := elm.next;
    qr.prev := elm;
    qr.next.prev := qr;
    elm.next := qr;
  }

  method Remove<T>(qr: Elm<T>, ghost s: seq<Elm<T>>)
    requires IsRing(s) && s[0] == qr
    modifies qr, qr.prev, qr.next
    ensures IsRing([qr]) && (|s| > 1 ==> IsRing(s[1..]))
  {
    assert qr.prev == s[|s| - 1] && qr.next == if |s| == 1 then qr else s[1];
    qr.prev.next := qr.next;
    qr.next.prev := qr.prev;
    qr.next := qr;
    qr.prev := qr;
  }

  /** The neighbours of an element, wherever it stands. */
  lemma Neighbours<T>(elm: Elm<T>, x: seq<Elm<T>>, y: seq<Elm<T>>)
    requires IsRing(x + ([elm] + y))
    ensures elm.next == if y != [] then y[0] else if x != [] then x[0] else elm
    ensures elm.prev == if x != [] then x[|x| - 1] else if y != [] then y[|y| - 1] else elm
    ensures elm !in x && elm !in y
    ensures elm in x + ([elm] + y) && elm.next in x + ([elm] + y) && elm.prev in x + ([elm] + y)
  {
    var s := x + ([elm] + y);
    assert s[|x|] == elm;
    DistinctParts(x, [elm] + y);
    DistinctParts([elm], y);
    assert elm in [elm];
    if y != [] {
      assert s[|x| + 1] == y[0] && s[|s| - 1] == y[|y| - 1];
      assert Joined(s[|x|], s[|x| + 1]);
    }
    if x != [] {
      assert s[|x| - 1] == x[|x| - 1] && s[0] == x[0];
      assert Joined(s[|x| - 1], s[|x|]);
    }
  }

  /** The three operations at any position of a ring read as x + y, with the element in front of y. */
  method BeforeInsertAt<T>(elm: Elm<T>, qr: Elm<T>, ghost x: seq<Elm<T>>, ghost y: seq<Elm<T>>)
    returns (ghost r: seq<Elm<T>>)
    requires IsRing(x + ([elm] + y)) && qr !in x + ([elm] + y)
    modifies x + ([elm] + y), qr
    ensures r == x + ([qr, elm] + y) && IsRing(r)
  {
    Neighbours(elm, x, y);
    Swapped([elm] + y, x);
    BeforeInsert(elm, qr, [elm] + y + x);
    assert [elm] + y + x + [qr] == ([elm] + y) + (x + [qr]);
    Swapped(x + [qr], [elm] + y);
    assert (x + [qr]) + ([elm] + y) == x + ([qr, elm] + y);
    r := x + ([qr, elm] + y);
  }

  method AfterInsertAt<T>(elm: Elm<T>, qr: Elm<T>, ghost x: seq<Elm<T>>, ghost y: seq<Elm<T>>)
    returns (ghost r: seq<Elm<T>>)
    requires IsRing(x + ([elm] + y)) && qr !in x + ([elm] + y)
    modifies x + ([elm] + y), qr
    ensures r == x + ([elm, qr] + y) && IsRing(r)
  {
    Neighbours(elm, x, y);
    Swapped([elm] + y, x);
    AfterInsert(elm, qr, [elm] + y + x);
    assert [elm, qr] + ([elm] + y + x)[1..] == ([elm, qr] + y) + x;
    Swapped(x, [elm, qr] + y);
    r := x + ([elm, qr] + y);
  }

  method RemoveAt<T>(qr: Elm<T>, ghost x: seq<Elm<T>>, ghost y: seq<Elm<T>>)
    returns (ghost r: seq<Elm<T>>)
    requires IsRing(x + ([qr] + y))
    modifies x + ([qr] + y)
    ensures IsRing([qr]) && r == x + y && (r != [] ==> IsRing(r))
  {
    Neighbours(qr, x, y);
    Swapped([qr] + y, x);
    Remove(qr, [qr] + y + x);
    r := x + y;
    if r != [] {
      assert ([qr] + y + x)[1..] == y + x;
      Swapped(x, y);
    }
  }

  lemma DistinctParts<T>(a: seq<Elm<T>>, b: seq<Elm<T>>)
    ensures Distinct(a + b) <==> Distinct(a) && Distinct(b) && forall x :: x in a ==> x !in b
  {
    var s := a + b;
    if Distinct(s) {
      forall i, j | 0 <= i < j < |a| ensures a[i] != a[j] {
        assert s[i] != s[j];
      }
      forall i, j | 0 <= i < j < |b| ensures b[i] != b[j] {
        assert s[|a| + i] != s[|a| + j];
      }
      forall i, j | 0 <= i < |a| && 0 <= j < |b| ensures a[i] != b[j] {
        assert s[i] != s[|a| + j];
      }
    } else {
      var i, j :| 0 <= i < j < |s| && s[i] == s[j];
      assert i < |a| ==> a[i] in a;
      assert j >= |a| ==> b[j - |a|] in b;
    }
  }

  /** The four writes of meld, without assuming rings: exactly these links change. */
  method Meld<T>(a: Elm<T>, b: Elm<T>)
    modifies a, b, a.prev, b.prev
    ensures forall x :: x in {a, b, old(a.prev), old(b.prev)} ==>
      && x.next == (if x == old(b.prev) then a else if x == old(a.prev) then b else old(x.next))
      && x.prev == (if x == a then old(b.prev) else if x == b then old(a.prev) else old(x.prev))
  {
    a.prev.next := b;
    b.prev.next := a;
    var t := a.prev;
    a.prev := b.prev;
    b.prev := t;
  }

  method Join<T>(a: Elm<T>, b: Elm<T>, ghost A: seq<Elm<T>>, ghost B: seq<Elm<T>>)
    requires IsRing(A) && IsRing(B) && A[0] == a && B[0] == b
    requires forall x :: x in A ==> x !in B
    modifies A, B
    ensures IsRing(A + B)
  {
    ghost var s := A + B;
    DistinctParts(A, B);
    assert s[0] == a && s[|A|] == b && s[|A| - 1] == A[|A| - 1] && s[|s| - 1] == B[|B| - 1];
    assert a.prev == A[|A| - 1] && b.prev == B[|B| - 1];
    assert allocated(A) && allocated(B);
    Meld(a, b);
    forall i', i | 0 <= i' < i < |s| && i == i' + 1 ensures Joined(s[i'], s[i]) {
      if i < |A| {
        assert old(Joined(A[i - 1], A[i])) && s[i - 1] == A[i - 1] && s[i] == A[i];
      } else if i > |A| {
        var k := i - |A|;
        assert old(Joined(B[k - 1], B[k])) && s[i - 1] == B[k - 1] && s[i] == B[k];
      }
    }
  }

  /** Meld on two elements of one ring parts it before each of them. */
  method Split<T>(a: Elm<T>, b: Elm<T>, ghost A: seq<Elm<T>>, ghost B: seq<Elm<T>>)
    requires A != [] && B != [] && IsRing(A + B) && A[0] == a && B[0] == b
    modifies A, B
    ensures IsRing(A) && IsRing(B)
  {
    ghost var s := A + B;
    DistinctParts(A, B);
    assert s[0] == a && s[|A|] == b && s[|A| - 1] == A[|A| - 1] && s[|s| - 1] == B[|B| - 1];
    assert a.prev == s[|s| - 1] && b.prev == s[|A| - 1];
    assert allocated(A) && allocated(B);
    Meld(a, b);
    forall i', i | 0 <= i' < i < |A| && i == i' + 1 ensures Joined(A[i'], A[i]) {
      assert old(Joined(s[i - 1], s[i]));
    }
    forall i', i | 0 <= i' < i < |B| && i == i' + 1 ensures Joined(B[i'], B[i]) {
      assert old(Joined(s[|A| + i - 1], s[|A| + i]));
    }
  }

  /** Melding the same two elements twice changes no link. */
  method MeldTwice<T>(a: Elm<T>, b: Elm<T>)
    requires a.prev.next == a && b.prev.next == b
    modifies a, b, a.prev, b.prev
    ensures forall x :: x in {a, b, old(a.prev), old(b.prev)} ==> x.next == old(x.next) && x.prev == old(x.prev)
  {
    Meld(a, b);
    Meld(a, b);
  }

  /** Visits the elements once each, in order, starting at qr; an empty list is null. */
  method Foreach<T>(qr: Elm?<T>, ghost s: seq<Elm<T>>) returns (visited: seq<Elm<T>>)
    requires if s == [] then qr == null else IsRing(s) && s[0] == qr
    ensures visited == s
  {
    visited := [];
    var x: Elm?<T> := qr;
    while x != null
      invariant |visited| <= |s| && visited == s[..|visited|]
      invariant x == if |visited| < |s| then s[|visited|] else null
      decreases |s| - |visited|
    {
      ghost var k := |visited|;
      assert k + 1 < |s| ==> Joined(s[k], s[k + 1]);
      visited := visited + [x];
      x := if x.next != qr then x.next else null;
    }
  }

  /** Visits the elements once each, backwards from the one before qr, ending with qr. */
  method ReverseForeach<T>(qr: Elm?<T>, ghost s: seq<Elm<T>>) returns (visited: seq<Elm<T>>)
    requires if s == [] then qr == null else IsRing(s) && s[0] == qr
    ensures |visited| == |s| && forall i :: 0 <= i < |s| ==> visited[i] == s[|s| - 1 - i]
  {
    visited := [];
    var x: Elm?<T> := if qr != null then qr.prev else null;
    while x != null
      invariant |visited| <= |s| && forall i :: 0 <= i < |visited| ==> visited[i] == s[|s| - 1 - i]
      invariant x == if |visited| < |s| then s[|s| - 1 - |visited|] else null
      decreases |s| - |visited|
    {
      ghost var k := |s| - 1 - |visited|;
      assert k > 0 ==> Joined(s[k - 1], s[k]);
      visited := visited + [x];
      x := if x != qr then x.prev else null;
    }
  }
}
