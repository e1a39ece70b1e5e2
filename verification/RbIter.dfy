/**
 Iteration with a callback that does not modify the tree, but may modify what its argument
 points to. A null result of the callback means "go on"; any other stops the iteration and is returned.
 */
module RbIter {
  import opened RbModel
  import opened RbHeap
  import opened RbTree

  /** The answer for a node, and what becomes of the argument. */
  type Callback<!A> = (Node, A) -> (Node?, A)

  /** The last answer, the nodes visited, and the argument afterwards. */
  datatype Walk<A> = Walk(answer: Node?, visited: seq<Node>, arg: A)

  /** Walks along s until the first answer that is not null. */
  ghost function WalkOf<A>(s: seq<Node>, cb: Callback<A>, arg: A): Walk<A> {
    if s == [] then Walk(null, [], arg)
    else
      var (answer, next) := cb(s[0], arg);
      if answer != null then Walk(answer, [s[0]], next)
      else
        var w := WalkOf(s[1..], cb, next);
        Walk(w.answer, [s[0]] + w.visited, w.arg)
  }

  /** The argument after the callback was asked for the nodes of v in turn. */
  ghost function ArgAfter<A>(v: seq<Node>, cb: Callback<A>, arg: A): A {
    if v == [] then arg else cb(v[|v| - 1], ArgAfter(v[..|v| - 1], cb, arg)).1
  }

  /** What it answers for the i-th. */
  ghost function AnswerAt<A>(v: seq<Node>, i: nat, cb: Callback<A>, arg: A): Node?
    requires i < |v|
  {
    cb(v[i], ArgAfter(v[..i], cb, arg)).0
  }

  lemma {:induction false} ArgOnward<A>(v: seq<Node>, cb: Callback<A>, arg: A)
    requires v != []
    ensures ArgAfter(v, cb, arg) == ArgAfter(v[1..], cb, cb(v[0], arg).1)
    decreases |v|
  {
    if |v| > 1 {
      var init := v[..|v| - 1];
      ArgOnward(init, cb, arg);
      assert init[1..] == v[1..][..|v| - 2];
    } else {
      assert v[..0] == [];
    }
  }

  lemma AnswerOnward<A>(v: seq<Node>, i: nat, cb: Callback<A>, arg: A)
    requires i + 1 < |v|
    ensures AnswerAt(v, i + 1, cb, arg) == AnswerAt(v[1..], i, cb, cb(v[0], arg).1)
  {
    ArgOnward(v[..i + 1], cb, arg);
    assert v[..i + 1][1..] == v[1..][..i];
  }

  /** The argument has gone through the visited nodes, and no others. */
  lemma {:induction false} WalkArg<A>(s: seq<Node>, cb: Callback<A>, arg: A)
    ensures var w := WalkOf(s, cb, arg); w.arg == ArgAfter(w.visited, cb, arg)
  {
    if s != [] {
      var v := WalkOf(s, cb, arg).visited;
      ArgOnward(v, cb, arg);
      if cb(s[0], arg).0 == null {
        WalkArg(s[1..], cb, cb(s[0], arg).1);
        assert v[1..] == WalkOf(s[1..], cb, cb(s[0], arg).1).visited;
      } else {
        assert v[1..] == [];
      }
    }
  }

  /** The visited nodes are a prefix of s: all of it when every answer is null, and
      otherwise up to the one node whose answer was not. */
  lemma {:induction false} WalkIsPrefix<A>(s: seq<Node>, cb: Callback<A>, arg: A)
    ensures var w := WalkOf(s, cb, arg);
      && w.visited <= s && w.arg == ArgAfter(w.visited, cb, arg)
      && (w.answer == null ==> w.visited == s)
      && (w.answer != null ==> w.visited != [] && AnswerAt(w.visited, |w.visited| - 1, cb, arg) == w.answer)
      && forall i :: 0 <= i < |w.visited| - (if w.answer == null then 0 else 1) ==> AnswerAt(w.visited, i, cb, arg) == null
  {
    WalkArg(s, cb, arg);
    if s != [] && cb(s[0], arg).0 == null {
      var next := cb(s[0], arg).1;
      WalkIsPrefix(s[1..], cb, next);
      var v, rest := WalkOf(s, cb, arg).visited, WalkOf(s[1..], cb, next).visited;
      assert v[1..] == rest;
      forall i | 0 <= i < |v| ensures AnswerAt(v, i, cb, arg) == if i == 0 then null else AnswerAt(rest, i - 1, cb, next) {
        if i > 0 {
          AnswerOnward(v, i - 1, cb, arg);
        }
      }
    }
  }

  /** The walk goes on along s, unless it has its answer. */
  ghost function Then<A>(w: Walk<A>, s: seq<Node>, cb: Callback<A>): Walk<A> {
    if w.answer != null then w
    else
      var q := WalkOf(s, cb, w.arg);
      Walk(q.answer, w.visited + q.visited, q.arg)
  }

  lemma {:induction false} WalkAppend<A>(a: seq<Node>, b: seq<Node>, cb: Callback<A>, arg: A)
    ensures WalkOf(a + b, cb, arg) == Then(WalkOf(a, cb, arg), b, cb)
  {
    if a == [] {
      assert a + b == b;
    } else {
      assert (a + b)[1..] == a[1..] + b;
      var (answer, next) := cb(a[0], arg);
      if answer == null {
        WalkAppend(a[1..], b, cb, next);
        var w := WalkOf(a[1..], cb, next);
        assert [a[0]] + (w.visited + WalkOf(b, cb, w.arg).visited) == ([a[0]] + w.visited) + WalkOf(b, cb, w.arg).visited;
      }
    }
  }

  ghost function Reversed(s: seq<Node>): seq<Node> {
    if s == [] then [] else Reversed(s[1..]) + [s[0]]
  }

  lemma {:induction false} ReversedAppend(a: seq<Node>, b: seq<Node>)
    ensures Reversed(a + b) == Reversed(b) + Reversed(a)
  {
    if a == [] {
      assert a + b == b;
    } else {
      assert (a + b)[1..] == a[1..] + b;
      ReversedAppend(a[1..], b);
    }
  }

  /** The part of a sorted sequence from the given key on, and up to it. */
  ghost function From(s: seq<Node>, key: int): seq<Node> {
    if s == [] then [] else if s[0].paddr >= key then s else From(s[1..], key)
  }

  ghost function UpTo(s: seq<Node>, key: int): seq<Node> {
    if s == [] then [] else if s[0].paddr <= key then [s[0]] + UpTo(s[1..], key) else []
  }

  /** The nodes from start on, or all of them. */
  ghost function Forwards(s: seq<Node>, start: Node?): seq<Node> {
    if start == null then s else From(s, start.paddr)
  }

  /** The nodes up to start, or all of them, last one first. */
  ghost function Backwards(s: seq<Node>, start: Node?): seq<Node> {
    Reversed(if start == null then s else UpTo(s, start.paddr))
  }

  /** From key on is what a sorted sequence has left after its nodes below key. */
  lemma {:induction false} FromExactly(s: seq<Node>, key: int) returns (n: nat)
    requires Sorted(s)
    ensures n <= |s| && From(s, key) == s[n..]
    ensures forall i :: 0 <= i < |s| ==> (i < n <==> s[i].paddr < key)
  {
    if s == [] || s[0].paddr >= key {
      n := 0;
    } else {
      var m := FromExactly(s[1..], key);
      n := m + 1;
      assert forall i :: 0 < i < |s| ==> s[i] == s[1..][i - 1];
    }
  }

  /** Up to key is what it has in front of its nodes above key. */
  lemma {:induction false} UpToExactly(s: seq<Node>, key: int) returns (n: nat)
    requires Sorted(s)
    ensures n <= |s| && UpTo(s, key) == s[..n]
    ensures forall i :: 0 <= i < |s| ==> (i < n <==> s[i].paddr <= key)
  {
    if s == [] || s[0].paddr > key {
      n := 0;
    } else {
      var m := UpToExactly(s[1..], key);
      n := m + 1;
      assert forall i :: 0 < i < |s| ==> s[i] == s[1..][i - 1];
      assert s[..n] == [s[0]] + s[1..][..m];
    }
  }

  lemma {:induction false} ReversedExactly(s: seq<Node>, i: nat)
    requires i < |s|
    ensures |Reversed(s)| == |s| && Reversed(s)[i] == s[|s| - 1 - i]
  {
    if |s| > 1 {
      ReversedExactly(s[1..], if i < |s| - 1 then i else 0);
    }
  }

  lemma {:induction false} FromSplits(a: seq<Node>, b: seq<Node>, key: int)
    requires AllBelow(a, key)
    ensures From(a + b, key) == From(b, key)
  {
    if a == [] {
      assert a + b == b;
    } else {
      assert a[0] in a && (a + b)[1..] == a[1..] + b;
      assert forall x :: x in a[1..] ==> x in a;
      FromSplits(a[1..], b, key);
    }
  }

  lemma {:induction false} FromWithin(a: seq<Node>, b: seq<Node>, key: int)
    requires b != [] && key <= b[0].paddr
    ensures From(a + b, key) == From(a, key) + b
  {
    if a == [] {
      assert a + b == b;
    } else if a[0].paddr < key {
      assert (a + b)[1..] == a[1..] + b;
      FromWithin(a[1..], b, key);
    }
  }

  lemma {:induction false} UpToSplits(a: seq<Node>, b: seq<Node>, key: int)
    requires AllBelow(a, key) || forall x :: x in a ==> x.paddr <= key
    ensures UpTo(a + b, key) == a + UpTo(b, key)
  {
    if a == [] {
      assert a + b == b;
    } else {
      assert a[0] in a && (a + b)[1..] == a[1..] + b;
      assert forall x :: x in a[1..] ==> x in a;
      UpToSplits(a[1..], b, key);
    }
  }

  lemma {:induction false} UpToWithin(a: seq<Node>, b: seq<Node>, key: int)
    requires b != [] ==> key < b[0].paddr
    ensures UpTo(a + b, key) == UpTo(a, key)
  {
    if a == [] {
      assert a + b == b;
    } else if a[0].paddr <= key {
      assert (a + b)[1..] == a[1..] + b;
      UpToWithin(a[1..], b, key);
    }
  }

  /** No answer is the private sentinel itself. */
  ghost predicate NeverNil<A(!new)>(s: seq<Node>, cb: Callback<A>, nil: Node) {
    forall x, arg :: x in s ==> cb(x, arg).0 != nil
  }

  /** What the loops report: the sentinel when every answer was null. */
  ghost function OrNil(answer: Node?, nil: Node): Node {
    if answer != null then answer else nil
  }

  ghost predicate Reports<A>(w: Walk<A>, nil: Node, ret: Node?, arg: A) {
    ret == OrNil(w.answer, nil) && arg == w.arg
  }

  lemma WalkNode<A>(l: seq<Node>, x: Node, r: seq<Node>, cb: Callback<A>, arg: A)
    ensures var w := WalkOf(l, cb, arg);
      WalkOf(l + [x] + r, cb, arg) ==
        if w.answer != null then w
        else Then(Walk(cb(x, w.arg).0, w.visited + [x], cb(x, w.arg).1), r, cb)
  {
    WalkAppend(l + [x], r, cb, arg);
    WalkAppend(l, [x], cb, arg);
    var next := WalkOf(l, cb, arg).arg;
    assert [x][1..] == [];
    assert WalkOf([x], cb, next).visited == [x] && WalkOf([x], cb, next).answer == cb(x, next).0;
  }

  lemma {:induction false} AnswerNotNil<A(!new)>(s: seq<Node>, cb: Callback<A>, arg: A, nil: Node)
    requires NeverNil(s, cb, nil)
    ensures WalkOf(s, cb, arg).answer != nil
  {
    if s != [] {
      AnswerNotNil(s[1..], cb, cb(s[0], arg).1, nil);
    }
  }

  method IterRecurse<A(!new)>(tree: HugeTree, node: Node, cb: Callback<A>, arg: A, ghost t: Tree)
    returns (ret: Node?, arg': A, ghost visited: seq<Node>)
    requires Shape(node, t, tree.nil) && NeverNil(InOrder(t), cb, tree.nil)
    ensures Reports(WalkOf(InOrder(t), cb, arg), tree.nil, ret, arg')
    ensures visited == WalkOf(InOrder(t), cb, arg).visited
    decreases t
  {
    if node == tree.nil {
      return tree.nil, arg, [];
    }
    WalkNode(InOrder(t.left), t.node, InOrder(t.right), cb, arg);
    AnswerNotNil(InOrder(t.left), cb, arg, tree.nil);
    assert allocated(Nodes(t));
    ret, arg', visited := IterRecurse(tree, node.left, cb, arg, t.left);
    if ret != tree.nil {
      return;
    }
    visited := visited + [node];
    var (answer, next) := cb(node, arg');
    if answer != null {
      return answer, next, visited;
    }
    ghost var more;
    ret, arg', more := IterRecurse(tree, node.right, cb, next, t.right);
    visited := visited + more;
  }

  method IterStart<A(!new)>(tree: HugeTree, start: Node, node: Node, cb: Callback<A>, arg: A, ghost t: Tree)
    returns (ret: Node?, arg': A, ghost visited: seq<Node>)
    requires Shape(node, t, tree.nil) && NeverNil(InOrder(t), cb, tree.nil)
    requires Sorted(InOrder(t)) && exists x :: x in InOrder(t) && x.paddr == start.paddr
    ensures Reports(WalkOf(From(InOrder(t), start.paddr), cb, arg), tree.nil, ret, arg')
    ensures visited == WalkOf(From(InOrder(t), start.paddr), cb, arg).visited
    decreases t
  {
    var cmp := Compare(start, node);
    ghost var l, r := InOrder(t.left), InOrder(t.right);
    FromAtNode(t, start.paddr);
    assert allocated(Nodes(t));
    AnswerNotNil(From(l, start.paddr), cb, arg, tree.nil);
    if cmp > 0 {
      ret, arg', visited := IterStart(tree, start, node.right, cb, arg, t.right);
      return;
    }
    if cmp < 0 {
      WalkNode(From(l, start.paddr), t.node, r, cb, arg);
      ret, arg', visited := IterStart(tree, start, node.left, cb, arg, t.left);
      if ret != tree.nil {
        return;
      }
    } else {
      WalkNode([], t.node, r, cb, arg);
      assert [] + [t.node] + r == [t.node] + r;
      arg', visited := arg, [];
    }
    visited := visited + [node];
    var (answer, next) := cb(node, arg');
    if answer != null {
      return answer, next, visited;
    }
    ghost var more;
    ret, arg', more := IterRecurse(tree, node.right, cb, next, t.right);
    visited := visited + more;
  }

  /** Where the suffix from a key begins, seen from a subtree's root. */
  lemma FromAtNode(t: Tree, key: int)
    requires t.Bin? && Sorted(InOrder(t))
    ensures Sorted(InOrder(t.left)) && Sorted(InOrder(t.right))
    ensures forall x :: x in From(InOrder(t.left), key) ==> x in InOrder(t.left)
    ensures forall x :: x in InOrder(t) && x.paddr == key ==>
      if key < t.node.paddr then x in InOrder(t.left) else if key > t.node.paddr then x in InOrder(t.right) else x == t.node
    ensures var l, r, s := InOrder(t.left), InOrder(t.right), From(InOrder(t), key);
      s == if key < t.node.paddr then From(l, key) + [t.node] + r
           else if key > t.node.paddr then From(r, key) else [t.node] + r
  {
    SortedChildren(t);
    FromMembers(InOrder(t.left), key);
    FromParts(InOrder(t.left), t.node, InOrder(t.right), key);
  }

  lemma FromParts(l: seq<Node>, n: Node, r: seq<Node>, key: int)
    requires AllBelow(l, n.paddr) && AllAbove(r, n.paddr)
    ensures From(l + [n] + r, key) ==
      if key < n.paddr then From(l, key) + [n] + r else if key > n.paddr then From(r, key) else [n] + r
  {
    Associative(l, [n], r);
    if key < n.paddr {
      FromWithin(l, [n] + r, key);
      Associative(From(l, key), [n], r);
    } else if key > n.paddr {
      FromSplits(l + [n], r, key);
    } else {
      FromSplits(l, [n] + r, key);
    }
  }

  lemma {:induction false} FromMembers(s: seq<Node>, key: int)
    ensures forall x :: x in From(s, key) ==> x in s
  {
    if s != [] {
      FromMembers(s[1..], key);
    }
  }

  /** Iterates forward over the whole tree, or from the start node on. */
  method Iter<A(!new)>(tree: HugeTree, start: Node?, cb: Callback<A>, arg: A)
    returns (ret: Node?, arg': A, ghost visited: seq<Node>)
    requires tree.Valid() && NeverNil(InOrder(tree.model), cb, tree.nil)
    requires start != null ==> exists x :: x in InOrder(tree.model) && x.paddr == start.paddr
    ensures var w := WalkOf(Forwards(InOrder(tree.model), start), cb, arg); ret == w.answer && arg' == w.arg
    ensures visited == WalkOf(Forwards(InOrder(tree.model), start), cb, arg).visited
  {
    AnswerNotNil(InOrder(tree.model), cb, arg, tree.nil);
    if start != null {
      FromMembers(InOrder(tree.model), start.paddr);
      AnswerNotNil(From(InOrder(tree.model), start.paddr), cb, arg, tree.nil);
      ret, arg', visited := IterStart(tree, start, tree.root, cb, arg, tree.model);
    } else {
      ret, arg', visited := IterRecurse(tree, tree.root, cb, arg, tree.model);
    }
    if ret == tree.nil {
      ret := null;
    }
  }

  // ---------------------------------------------------------------- backwards

  lemma ReversedNode(l: seq<Node>, x: Node, r: seq<Node>)
    ensures Reversed(l + [x] + r) == Reversed(r) + [x] + Reversed(l)
  {
    ReversedAppend(l + [x], r);
    ReversedAppend(l, [x]);
    assert Reversed([x]) == [x];
    Associative(Reversed(r), [x], Reversed(l));
  }

  lemma {:induction false} ReversedMembers(s: seq<Node>)
    ensures forall x :: x in Reversed(s) ==> x in s
  {
    if s != [] {
      ReversedMembers(s[1..]);
    }
  }

  lemma ReversedAnswer<A(!new)>(s: seq<Node>, cb: Callback<A>, arg: A, nil: Node)
    requires NeverNil(s, cb, nil)
    ensures NeverNil(Reversed(s), cb, nil) && WalkOf(Reversed(s), cb, arg).answer != nil
  {
    ReversedMembers(s);
    AnswerNotNil(Reversed(s), cb, arg, nil);
  }

  method ReverseIterRecurse<A(!new)>(tree: HugeTree, node: Node, cb: Callback<A>, arg: A, ghost t: Tree)
    returns (ret: Node?, arg': A, ghost visited: seq<Node>)
    requires Shape(node, t, tree.nil) && NeverNil(InOrder(t), cb, tree.nil)
    ensures Reports(WalkOf(Reversed(InOrder(t)), cb, arg), tree.nil, ret, arg')
    ensures visited == WalkOf(Reversed(InOrder(t)), cb, arg).visited
    decreases t
  {
    if node == tree.nil {
      return tree.nil, arg, [];
    }
    ghost var l, r := InOrder(t.left), InOrder(t.right);
    ReversedNode(l, t.node, r);
    WalkNode(Reversed(r), t.node, Reversed(l), cb, arg);
    ReversedAnswer(r, cb, arg, tree.nil);
    assert allocated(Nodes(t));
    ret, arg', visited := ReverseIterRecurse(tree, node.right, cb, arg, t.right);
    if ret != tree.nil {
      return;
    }
    visited := visited + [node];
    var (answer, next) := cb(node, arg');
    if answer != null {
      return answer, next, visited;
    }
    ghost var more;
    ret, arg', more := ReverseIterRecurse(tree, node.left, cb, next, t.left);
    visited := visited + more;
  }

  /** Where the prefix up to a key ends, seen from a subtree's root. */
  lemma UpToAtNode(t: Tree, key: int)
    requires t.Bin? && Sorted(InOrder(t))
    ensures Sorted(InOrder(t.left)) && Sorted(InOrder(t.right))
    ensures forall x :: x in UpTo(InOrder(t.right), key) ==> x in InOrder(t.right)
    ensures forall x :: x in InOrder(t) && x.paddr == key ==>
      if key < t.node.paddr then x in InOrder(t.left) else if key > t.node.paddr then x in InOrder(t.right) else x == t.node
    ensures var l, r, s := InOrder(t.left), InOrder(t.right), UpTo(InOrder(t), key);
      s == if key > t.node.paddr then l + [t.node] + UpTo(r, key)
           else if key < t.node.paddr then UpTo(l, key) else l + [t.node]
  {
    SortedChildren(t);
    UpToMembers(InOrder(t.right), key);
    UpToParts(InOrder(t.left), t.node, InOrder(t.right), key);
  }

  lemma UpToParts(l: seq<Node>, n: Node, r: seq<Node>, key: int)
    requires AllBelow(l, n.paddr) && AllAbove(r, n.paddr)
    ensures UpTo(l + [n] + r, key) ==
      if key > n.paddr then l + [n] + UpTo(r, key) else if key < n.paddr then UpTo(l, key) else l + [n]
  {
    if key >= n.paddr {
      UpToSplits(l + [n], r, key);
      Units(l + [n]);
      if key == n.paddr && r != [] {
        assert r[0] in r;
      }
    } else {
      Associative(l, [n], r);
      UpToWithin(l, [n] + r, key);
    }
  }

  lemma {:induction false} UpToMembers(s: seq<Node>, key: int)
    ensures forall x :: x in UpTo(s, key) ==> x in s
  {
    if s != [] {
      UpToMembers(s[1..], key);
    }
  }

  method ReverseIterStart<A(!new)>(tree: HugeTree, start: Node, node: Node, cb: Callback<A>, arg: A, ghost t: Tree)
    returns (ret: Node?, arg': A, ghost visited: seq<Node>)
    requires Shape(node, t, tree.nil) && NeverNil(InOrder(t), cb, tree.nil)
    requires Sorted(InOrder(t)) && exists x :: x in InOrder(t) && x.paddr == start.paddr
    ensures Reports(WalkOf(Reversed(UpTo(InOrder(t), start.paddr)), cb, arg), tree.nil, ret, arg')
    ensures visited == WalkOf(Reversed(UpTo(InOrder(t), start.paddr)), cb, arg).visited
    decreases t
  {
    var cmp := Compare(start, node);
    ghost var l, r := InOrder(t.left), InOrder(t.right);
    ghost var r' := UpTo(r, start.paddr);
    UpToAtNode(t, start.paddr);
    assert allocated(Nodes(t));
    ReversedAnswer(r', cb, arg, tree.nil);
    if cmp < 0 {
      ret, arg', visited := ReverseIterStart(tree, start, node.left, cb, arg, t.left);
      return;
    }
    if cmp > 0 {
      ReversedNode(l, t.node, r');
      WalkNode(Reversed(r'), t.node, Reversed(l), cb, arg);
      ret, arg', visited := ReverseIterStart(tree, start, node.right, cb, arg, t.right);
      if ret != tree.nil {
        return;
      }
    } else {
      ReversedAppend(l, [t.node]);
      assert Reversed([t.node]) == [t.node];
      WalkNode([], t.node, Reversed(l), cb, arg);
      Units([t.node]);
      arg', visited := arg, [];
    }
    visited := visited + [node];
    var (answer, next) := cb(node, arg');
    if answer != null {
      return answer, next, visited;
    }
    ghost var more;
    ret, arg', more := ReverseIterRecurse(tree, node.left, cb, next, t.left);
    visited := visited + more;
  }

  /** Iterates backward over the whole tree, or from the start node on. */
  method ReverseIter<A(!new)>(tree: HugeTree, start: Node?, cb: Callback<A>, arg: A)
    returns (ret: Node?, arg': A, ghost visited: seq<Node>)
    requires tree.Valid() && NeverNil(InOrder(tree.model), cb, tree.nil)
    requires start != null ==> exists x :: x in InOrder(tree.model) && x.paddr == start.paddr
    ensures var w := WalkOf(Backwards(InOrder(tree.model), start), cb, arg); ret == w.answer && arg' == w.arg
    ensures visited == WalkOf(Backwards(InOrder(tree.model), start), cb, arg).visited
  {
    ReversedAnswer(InOrder(tree.model), cb, arg, tree.nil);
    if start != null {
      UpToMembers(InOrder(tree.model), start.paddr);
      ReversedAnswer(UpTo(InOrder(tree.model), start.paddr), cb, arg, tree.nil);
      ret, arg', visited := ReverseIterStart(tree, start, tree.root, cb, arg, tree.model);
    } else {
      ret, arg', visited := ReverseIterRecurse(tree, tree.root, cb, arg, tree.model);
    }
    if ret == tree.nil {
      ret := null;
    }
  }
}
