/**
 Lists with a head pointer over the rings: the first element, or null when empty.
 */
module List {
  import opened Ring

  class Ql<T> {
    var first: Elm?<T>
    ghost var items: seq<Elm<T>>

    ghost predicate Valid()
      reads this, items
    {
      if items == [] then first == null else first == items[0] && IsRing(items)
    }

    constructor ()
      ensures Valid() && items == []
    {
      first := null;
      items := [];
    }

    method Last() returns (r: Elm?<T>)
      requires Valid()
      ensures r == if items == [] then null else items[|items| - 1]
    {
      r := if first != null then first.prev else null;
    }

    method Next(elm: Elm<T>, ghost i: nat) returns (r: Elm?<T>)
      requires Valid() && i < |items| && items[i] == elm
      ensures r == if i + 1 < |items| then items[i + 1] else null
    {
      var last := Last();
      assert i + 1 < |items| ==> Joined(items[i], items[i + 1]);
      r := if last != elm then elm.next else null;
    }

    method Prev(elm: Elm<T>, ghost i: nat) returns (r: Elm?<T>)
      requires Valid() && i < |items| && items[i] == elm
      ensures r == if 0 < i then items[i - 1] else null
    {
      assert 0 < i ==> Joined(items[i - 1], items[i]);
      r := if first != elm then elm.prev else null;
    }

    /** x and y are what stands before and after the element. */
    method BeforeInsert(qlelm: Elm<T>, elm: Elm<T>, ghost x: seq<Elm<T>>, ghost y: seq<Elm<T>>)
      requires Valid() && items == x + ([qlelm] + y) && elm !in items
      modifies this, items, elm
      ensures Valid() && items == x + ([elm, qlelm] + y)
    {
      Neighbours(qlelm, x, y);
      assert x != [] ==> first == x[0];
      ghost var r := Ring.BeforeInsertAt(qlelm, elm, x, y);
      var head := if first == qlelm then elm else first;
      assert r[0] == head by {
        if x != [] {
          assert x[0] in x;
        }
      }
      Adopt(head, r);
    }

    method AfterInsert(qlelm: Elm<T>, elm: Elm<T>, ghost x: seq<Elm<T>>, ghost y: seq<Elm<T>>)
      requires Valid() && items == x + ([qlelm] + y) && elm !in items
      modifies this`items, items, elm
      ensures Valid() && items == x + ([qlelm, elm] + y)
    {
      Neighbours(qlelm, x, y);
      ghost var r := Ring.AfterInsertAt(qlelm, elm, x, y);
      assert r[0] == first;
      items := r;
      assert IsRing(r);
    }

    method HeadInsert(elm: Elm<T>)
      requires Valid() && elm !in items && IsRing([elm])
      modifies this, items, elm
      ensures Valid() && items == [elm] + old(items)
    {
      if first != null {
        Ring.BeforeInsert(first, elm, items);
        Swapped([elm], items);
      }
      first := elm;
      items := [elm] + items;
    }

    method TailInsert(elm: Elm<T>)
      requires Valid() && elm !in items && IsRing([elm])
      modifies this, items, elm
      ensures Valid() && items == old(items) + [elm]
    {
      if first != null {
        Ring.BeforeInsert(first, elm, items);
      }
      first := elm.next;
      items := items + [elm];
    }

    method Remove(elm: Elm<T>, ghost x: seq<Elm<T>>, ghost y: seq<Elm<T>>)
      requires Valid() && items == x + ([elm] + y)
      modifies this, items
      ensures Valid() && items == x + y
      ensures elm.next == elm.prev == elm
    {
      Neighbours(elm, x, y);
      assert x != [] ==> first == x[0] && x[0] in x;
      var head := first;
      if head == elm {
        head := head.next;
      }
      if head != elm {
        ghost var r := Ring.RemoveAt(elm, x, y);
        assert Joined(elm, elm);
        Adopt(head, r);
      } else {
        assert Joined(elm, elm);
        Adopt(null, x + y);
      }
    }

    /** Only the head pointer is written; the elements are already linked as s. */
    method Adopt(head: Elm?<T>, ghost s: seq<Elm<T>>)
      requires if s == [] then head == null else head == s[0] && IsRing(s)
      modifies this
      ensures Valid() && items == s && first == head
    {
      first := head;
      items := s;
    }

    method HeadRemove()
      requires Valid() && items != []
      modifies this, items
      ensures Valid() && items == old(items)[1..]
    {
      var t := first;
      assert items == [] + ([t] + items[1..]);
      Remove(t, [], items[1..]);
    }

    method TailRemove()
      requires Valid() && items != []
      modifies this, items
      ensures Valid() && items == old(items)[..|old(items)| - 1]
    {
      var t := Last();
      assert items == items[..|items| - 1] + ([t] + []);
      Remove(t, items[..|items| - 1], []);
    }

    method Foreach() returns (visited: seq<Elm<T>>)
      requires Valid()
      ensures visited == items
    {
      visited := Ring.Foreach(first, items);
    }

    method ReverseForeach() returns (visited: seq<Elm<T>>)
      requires Valid()
      ensures |visited| == |items| && forall i :: 0 <= i < |items| ==> visited[i] == items[|items| - 1 - i]
    {
      visited := Ring.ReverseForeach(first, items);
    }
  }
}
