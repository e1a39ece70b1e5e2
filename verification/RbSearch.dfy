/**
 Look-ups in the tree, specified by the in-order sequence of its nodes.
 NULL results are null; inside the loops the sentinel stands for "none yet".
 */
module RbSearch {
  import opened RbModel
  import opened RbHeap
  import opened RbTree

  /** t occupies the part of s between a and b. */
  ghost predicate Window(s: seq<Node>, a: seq<Node>, t: Tree, b: seq<Node>) {
    s == a + InOrder(t) + b
  }

  ghost function LeftRest(t: Tree, b: seq<Node>): seq<Node>
    requires t.Bin?
  {
    [t.node] + (InOrder(t.right) + b)
  }

  ghost function RightRest(a: seq<Node>, t: Tree): seq<Node>
    requires t.Bin?
  {
    a + InOrder(t.left) + [t.node]
  }

  lemma NarrowLeft(s: seq<Node>, a: seq<Node>, t: Tree, b: seq<Node>)
    requires Window(s, a, t, b) && t.Bin?
    ensures Window(s, a, t.left, LeftRest(t, b))
  {
    var l, r := InOrder(t.left), InOrder(t.right);
    assert a + (l + [t.node] + r) + b == a + l + ([t.node] + (r + b));
  }

  lemma NarrowRight(s: seq<Node>, a: seq<Node>, t: Tree, b: seq<Node>)
    requires Window(s, a, t, b) && t.Bin?
    ensures Window(s, RightRest(a, t), t.right, b)
  {
    var l, r := InOrder(t.left), InOrder(t.right);
    assert a + (l + [t.node] + r) + b == (a + l + [t.node]) + r + b;
  }

  /** The node a NULL-terminated search reports, given what lies after or before its window. */
  ghost function HeadOr(b: seq<Node>, nil: Node): Node {
    if b == [] then nil else b[0]
  }

  ghost function LastOr(a: seq<Node>, nil: Node): Node {
    if a == [] then nil else a[|a| - 1]
  }

  function OrNull(x: Node, nil: Node): (r: Node?)
    ensures r == null <==> x == nil
    ensures x != nil ==> r == x
  {
    if x == nil then null else x
  }

  method FirstBelow(x: Node, nil: Node, ghost t: Tree) returns (ret: Node)
    requires Shape(x, t, nil)
    ensures ret == HeadOr(InOrder(t), nil)
  {
    ret := x;
    if ret != nil {
      ghost var cur, b := t, [];
      assert InOrder(t) + [] == InOrder(t);
      while ret.left != nil
        invariant Shape(ret, cur, nil) && cur.Bin?
        invariant Window(InOrder(t), [], cur, b)
        decreases cur
      {
        NarrowLeft(InOrder(t), [], cur, b);
        b := LeftRest(cur, b);
        ret := ret.left;
        cur := cur.left;
      }
      NarrowLeft(InOrder(t), [], cur, b);
    }
  }

  method LastBelow(x: Node, nil: Node, ghost t: Tree) returns (ret: Node)
    requires Shape(x, t, nil)
    ensures ret == LastOr(InOrder(t), nil)
  {
    ret := x;
    if ret != nil {
      ghost var cur, a := t, [];
      assert [] + InOrder(t) + [] == InOrder(t);
      while ret.right != nil
        invariant Shape(ret, cur, nil) && cur.Bin?
        invariant Window(InOrder(t), a, cur, [])
        decreases cur
      {
        NarrowRight(InOrder(t), a, cur, []);
        a := RightRest(a, cur);
        ret := ret.right;
        cur := cur.right;
      }
      NarrowRight(InOrder(t), a, cur, []);
    }
  }

  method First(tree: HugeTree) returns (ret: Node?)
    requires tree.Valid()
    ensures var s := InOrder(tree.model); if s == [] then ret == null else ret == s[0]
  {
    NilNotListed(tree);
    var x := FirstBelow(tree.root, tree.nil, tree.model);
    ret := OrNull(x, tree.nil);
  }

  method Last(tree: HugeTree) returns (ret: Node?)
    requires tree.Valid()
    ensures var s := InOrder(tree.model); if s == [] then ret == null else ret == s[|s| - 1]
  {
    NilNotListed(tree);
    var x := LastBelow(tree.root, tree.nil, tree.model);
    ret := OrNull(x, tree.nil);
  }

  lemma NilNotListed(tree: HugeTree)
    requires tree.Valid()
    ensures tree.nil !in InOrder(tree.model)
  {
    NilOutside(tree.root, tree.model, tree.nil);
    InOrderNodes(tree.model, tree.nil);
  }

  /** The loop state shared by the searches: key belongs inside the window. */
  ghost predicate Searching(s: seq<Node>, a: seq<Node>, t: Tree, b: seq<Node>, key: int) {
    Window(s, a, t, b) && Sorted(InOrder(t)) && AllBelow(a, key) && AllAbove(b, key)
  }

  lemma SearchLeft(s: seq<Node>, a: seq<Node>, t: Tree, b: seq<Node>, key: int)
    requires Searching(s, a, t, b, key) && t.Bin? && key < t.node.paddr
    ensures Searching(s, a, t.left, LeftRest(t, b), key)
  {
    NarrowLeft(s, a, t, b);
    SortedChildren(t);
  }

  lemma SearchRight(s: seq<Node>, a: seq<Node>, t: Tree, b: seq<Node>, key: int)
    requires Searching(s, a, t, b, key) && t.Bin? && t.node.paddr < key
    ensures Searching(s, RightRest(a, t), t.right, b, key)
  {
    NarrowRight(s, a, t, b);
    SortedChildren(t);
  }

  /** Returns the node with the key's address, exactly when there is one. */
  method Search(tree: HugeTree, key: Node) returns (ret: Node?)
    requires tree.Valid()
    ensures ret == null <==> forall x :: x in InOrder(tree.model) ==> x.paddr != key.paddr
    ensures ret != null ==> ret in InOrder(tree.model) && ret.paddr == key.paddr
  {
    var x := tree.root;
    ghost var s, a, t, b := InOrder(tree.model), [], tree.model, [];
    assert [] + s + [] == s;
    NilNotListed(tree);
    while x != tree.nil && Compare(key, x) != 0
      invariant Searching(s, a, t, b, key.paddr) && Shape(x, t, tree.nil)
      decreases t
    {
      if Compare(key, x) < 0 {
        SearchLeft(s, a, t, b, key.paddr);
        x, b, t := x.left, LeftRest(t, b), t.left;
      } else {
        SearchRight(s, a, t, b, key.paddr);
        x, a, t := x.right, RightRest(a, t), t.right;
      }
    }
    if x == tree.nil {
      assert s == a + b;
    } else {
      assert t.node in InOrder(t);
      assert x in s;
    }
    ret := OrNull(x, tree.nil);
  }

  /** Returns the least node at or after the key's address. */
  method NSearch(tree: HugeTree, key: Node) returns (ret: Node?)
    requires tree.Valid()
    ensures ret == null <==> AllBelow(InOrder(tree.model), key.paddr)
    ensures ret != null ==> ret in InOrder(tree.model) && key.paddr <= ret.paddr
    ensures ret != null ==> forall x :: x in InOrder(tree.model) && key.paddr <= x.paddr ==> ret.paddr <= x.paddr
  {
    var x, best := tree.root, tree.nil;
    ghost var s, a, t, b := InOrder(tree.model), [], tree.model, [];
    assert [] + s + [] == s;
    NilNotListed(tree);
    while x != tree.nil
      invariant Searching(s, a, t, b, key.paddr) && Shape(x, t, tree.nil)
      invariant best == HeadOr(b, tree.nil)
      decreases t
    {
      var cmp := Compare(key, x);
      if cmp < 0 {
        SearchLeft(s, a, t, b, key.paddr);
        best := x;
        x, b, t := x.left, LeftRest(t, b), t.left;
      } else if cmp > 0 {
        SearchRight(s, a, t, b, key.paddr);
        x, a, t := x.right, RightRest(a, t), t.right;
      } else {
        best := x;
        assert t.node in InOrder(t);
        assert best in s;
        return OrNull(best, tree.nil);
      }
    }
    assert s == a + b;
    SplitSorted(a, b, key.paddr);
    ret := OrNull(best, tree.nil);
  }

  lemma SplitSorted(a: seq<Node>, b: seq<Node>, key: int)
    requires Sorted(a + b) && AllBelow(a, key) && AllAbove(b, key)
    ensures b != [] ==> b[0] in b && forall x :: x in a + b && key <= x.paddr ==> b[0].paddr <= x.paddr
    ensures a != [] ==> a[|a| - 1] in a && forall x :: x in a + b && x.paddr <= key ==> x.paddr <= a[|a| - 1].paddr
    ensures b == [] <==> AllBelow(a + b, key)
    ensures a == [] <==> AllAbove(a + b, key)
  {
    var s := a + b;
    assert forall i :: 0 <= i < |a| ==> s[i] == a[i];
    assert forall i :: 0 <= i < |b| ==> s[|a| + i] == b[i];
    if b != [] {
      assert b[0] in s;
    }
    if a != [] {
      assert a[|a| - 1] in s;
    }
  }

  /** Returns the greatest node at or before the key's address. */
  method PSearch(tree: HugeTree, key: Node) returns (ret: Node?)
    requires tree.Valid()
    ensures ret == null <==> AllAbove(InOrder(tree.model), key.paddr)
    ensures ret != null ==> ret in InOrder(tree.model) && ret.paddr <= key.paddr
    ensures ret != null ==> forall x :: x in InOrder(tree.model) && x.paddr <= key.paddr ==> x.paddr <= ret.paddr
  {
    var x, best := tree.root, tree.nil;
    ghost var s, a, t, b := InOrder(tree.model), [], tree.model, [];
    assert [] + s + [] == s;
    NilNotListed(tree);
    while x != tree.nil
      invariant Searching(s, a, t, b, key.paddr) && Shape(x, t, tree.nil)
      invariant best == LastOr(a, tree.nil)
      decreases t
    {
      var cmp := Compare(key, x);
      if cmp < 0 {
        SearchLeft(s, a, t, b, key.paddr);
        x, b, t := x.left, LeftRest(t, b), t.left;
      } else if cmp > 0 {
        SearchRight(s, a, t, b, key.paddr);
        best := x;
        x, a, t := x.right, RightRest(a, t), t.right;
      } else {
        best := x;
        assert t.node in InOrder(t);
        assert best in s;
        return OrNull(best, tree.nil);
      }
    }
    assert s == a + b;
    SplitSorted(a, b, key.paddr);
    ret := OrNull(best, tree.nil);
  }

  /** The subtree rooted at a node of t, and its window in t. */
  lemma {:induction false} Locate(x: Node, t: Tree, nil: Node, node: Node, s: seq<Node>, a0: seq<Node>, b0: seq<Node>)
    returns (a: seq<Node>, cur: Tree, b: seq<Node>)
    requires Shape(x, t, nil) && node in Nodes(t) && Window(s, a0, t, b0)
    ensures Shape(node, cur, nil) && cur.Bin? && Window(s, a, cur, b)
    decreases t
  {
    if node == t.node {
      a, cur, b := a0, t, b0;
    } else if node in Nodes(t.left) {
      NarrowLeft(s, a0, t, b0);
      a, cur, b := Locate(x.left, t.left, nil, node, s, a0, LeftRest(t, b0));
    } else {
      NarrowRight(s, a0, t, b0);
      a, cur, b := Locate(x.right, t.right, nil, node, s, RightRest(a0, t), b0);
    }
  }

  /** In a sorted sequence a node stands at one index only. */
  lemma IndexOf(s: seq<Node>, pre: seq<Node>, n: Node, post: seq<Node>)
    requires Sorted(s) && s == pre + [n] + post
    ensures s[|pre|] == n && forall i :: 0 <= i < |s| && s[i] == n ==> i == |pre|
    ensures forall x :: x in post ==> n.paddr < x.paddr
    ensures post != [] ==> s[|pre| + 1] == post[0]
    ensures pre != [] ==> s[|pre| - 1] == pre[|pre| - 1]
  {
    assert s[|pre|] == n;
    forall x | x in post ensures n.paddr < x.paddr {
      var j :| 0 <= j < |post| && post[j] == x;
      assert s[|pre| + 1 + j] == x;
    }
  }

  /** The node after, or before, the i-th. */
  ghost predicate IsNext(s: seq<Node>, node: Node, ret: Node?) {
    forall i :: 0 <= i < |s| && s[i] == node ==> ret == if i + 1 < |s| then s[i + 1] else null
  }

  ghost predicate IsPrev(s: seq<Node>, node: Node, ret: Node?) {
    forall i :: 0 <= i < |s| && s[i] == node ==> ret == if 0 < i then s[i - 1] else null
  }

  /** The successor of a subtree's root, from the subtree's window. */
  lemma NextOfRoot(s: seq<Node>, a: seq<Node>, t: Tree, b: seq<Node>, ret: Node?)
    requires Sorted(s) && Window(s, a, t, b) && t.Bin?
    requires ret == if InOrder(t.right) != [] then InOrder(t.right)[0] else if b != [] then b[0] else null
    ensures IsNext(s, t.node, ret)
  {
    var l, r := InOrder(t.left), InOrder(t.right);
    assert a + (l + [t.node] + r) + b == (a + l) + [t.node] + (r + b);
    IndexOf(s, a + l, t.node, r + b);
  }

  lemma PrevOfRoot(s: seq<Node>, a: seq<Node>, t: Tree, b: seq<Node>, ret: Node?)
    requires Sorted(s) && Window(s, a, t, b) && t.Bin?
    requires ret == if InOrder(t.left) != [] then InOrder(t.left)[|InOrder(t.left)| - 1] else if a != [] then a[|a| - 1] else null
    ensures IsPrev(s, t.node, ret)
  {
    var l, r := InOrder(t.left), InOrder(t.right);
    assert a + (l + [t.node] + r) + b == (a + l) + [t.node] + (r + b);
    IndexOf(s, a + l, t.node, r + b);
  }

  /** The part of a window is a part of the whole. */
  lemma WindowMembers(s: seq<Node>, a: seq<Node>, t: Tree, b: seq<Node>)
    requires Window(s, a, t, b)
    ensures forall x :: x in InOrder(t) || x in a || x in b ==> x in s
  {
  }

  method Next(tree: HugeTree, node: Node) returns (ret: Node?)
    requires tree.Valid() && node in Nodes(tree.model)
    ensures IsNext(InOrder(tree.model), node, ret)
  {
    NilNotListed(tree);
    var x;
    if node.right != tree.nil {
      ghost var s := InOrder(tree.model);
      Units(s);
      ghost var a, t, b := Locate(tree.root, tree.model, tree.nil, node, s, [], []);
      WindowMembers(s, a, t, b);
      x := FirstBelow(node.right, tree.nil, t.right);
      assert x in InOrder(t.right) && InOrder(t.right) <= InOrder(t)[|InOrder(t.left)| + 1..];
      NextOfRoot(s, a, t, b, x);
    } else {
      x := LastLeftTurn(tree, node);
    }
    ret := OrNull(x, tree.nil);
  }

  method Prev(tree: HugeTree, node: Node) returns (ret: Node?)
    requires tree.Valid() && node in Nodes(tree.model)
    ensures IsPrev(InOrder(tree.model), node, ret)
  {
    NilNotListed(tree);
    var x;
    if node.left != tree.nil {
      ghost var s := InOrder(tree.model);
      Units(s);
      ghost var a, t, b := Locate(tree.root, tree.model, tree.nil, node, s, [], []);
      WindowMembers(s, a, t, b);
      x := LastBelow(node.left, tree.nil, t.left);
      assert x in InOrder(t.left) && InOrder(t.left) <= InOrder(t);
      PrevOfRoot(s, a, t, b, x);
    } else {
      x := LastRightTurn(tree, node);
    }
    ret := OrNull(x, tree.nil);
  }

  /** The descent from the root to a node without a right child; the last left turn on it. */
  method LastLeftTurn(tree: HugeTree, node: Node) returns (ret: Node)
    requires tree.Valid() && node in Nodes(tree.model) && node.right == tree.nil
    ensures ret == tree.nil || ret in InOrder(tree.model)
    ensures IsNext(InOrder(tree.model), node, OrNull(ret, tree.nil))
  {
    NilNotListed(tree);
    var tnode := tree.root;
    assert tnode != tree.nil;
    ret := tree.nil;
    ghost var s, a, t, b := InOrder(tree.model), [], tree.model, [];
    Units(s);
    while true
      invariant Searching(s, a, t, b, node.paddr) && Shape(tnode, t, tree.nil) && node in Nodes(t)
      invariant ret == HeadOr(b, tree.nil)
      decreases t
    {
      var cmp := Compare(node, tnode);
      StepTowards(t, node);
      if cmp < 0 {
        SearchLeft(s, a, t, b, node.paddr);
        ret := tnode;
        tnode, b, t := tnode.left, LeftRest(t, b), t.left;
      } else if cmp > 0 {
        SearchRight(s, a, t, b, node.paddr);
        tnode, a, t := tnode.right, RightRest(a, t), t.right;
      } else {
        break;
      }
      assert tnode != tree.nil;
    }
    WindowMembers(s, a, t, b);
    NextOfRoot(s, a, t, b, OrNull(ret, tree.nil));
  }

  /** The descent from the root to a node without a left child; the last right turn on it. */
  method LastRightTurn(tree: HugeTree, node: Node) returns (ret: Node)
    requires tree.Valid() && node in Nodes(tree.model) && node.left == tree.nil
    ensures ret == tree.nil || ret in InOrder(tree.model)
    ensures IsPrev(InOrder(tree.model), node, OrNull(ret, tree.nil))
  {
    NilNotListed(tree);
    var tnode := tree.root;
    assert tnode != tree.nil;
    ret := tree.nil;
    ghost var s, a, t, b := InOrder(tree.model), [], tree.model, [];
    Units(s);
    while true
      invariant Searching(s, a, t, b, node.paddr) && Shape(tnode, t, tree.nil) && node in Nodes(t)
      invariant ret == LastOr(a, tree.nil)
      decreases t
    {
      var cmp := Compare(node, tnode);
      StepTowards(t, node);
      if cmp < 0 {
        SearchLeft(s, a, t, b, node.paddr);
        tnode, b, t := tnode.left, LeftRest(t, b), t.left;
      } else if cmp > 0 {
        SearchRight(s, a, t, b, node.paddr);
        ret := tnode;
        tnode, a, t := tnode.right, RightRest(a, t), t.right;
      } else {
        break;
      }
      assert tnode != tree.nil;
    }
    WindowMembers(s, a, t, b);
    PrevOfRoot(s, a, t, b, OrNull(ret, tree.nil));
  }

  lemma NextAt(s: seq<Node>, i: nat, ret: Node?)
    requires i < |s| && IsNext(s, s[i], ret)
    ensures ret == if i + 1 < |s| then s[i + 1] else null
  {
  }

  /** Stepping forward and then back returns to the same node. */
  lemma PrevInvertsNext(s: seq<Node>, node: Node, next: Node, back: Node?)
    requires Sorted(s) && node in s && IsNext(s, node, next) && IsPrev(s, next, back)
    ensures back == node
  {
    var i: nat :| i < |s| && s[i] == node;
    NextAt(s, i, next);
    assert i + 1 < |s|;
    assert s[i + 1] == next;
  }

  ghost function StepAfter(walk: seq<Node>, i: nat): Node? {
    if i + 1 < |walk| then walk[i + 1] else null
  }

  /** Any walk that starts at the first node, follows next, and stops at null is the in-order sequence. */
  lemma {:induction false} NextEnumerates(s: seq<Node>, walk: seq<Node>, k: nat)
    requires Sorted(s) && k <= |walk|
    requires if s == [] then walk == [] else walk != [] && walk[0] == s[0]
    requires forall i :: 0 <= i < |walk| ==> IsNext(s, walk[i], StepAfter(walk, i))
    ensures k <= |s| && walk[..k] == s[..k]
    ensures k == |walk| ==> walk == s
  {
    if k == 1 {
      assert s[0] == walk[0];
    } else if k > 1 {
      NextEnumerates(s, walk, k - 1);
      assert s[..k - 1][k - 2] == walk[..k - 1][k - 2];
      assert s[k - 2] == walk[k - 2];
      NextAt(s, k - 2, StepAfter(walk, k - 2));
      assert k - 1 < |s| && s[k - 1] == walk[k - 1];
      assert walk[..k] == walk[..k - 1] + [walk[k - 1]] && s[..k] == s[..k - 1] + [s[k - 1]];
    }
    if k == |walk| && k > 0 {
      assert walk[..k][k - 1] == s[..k][k - 1];
      assert s[k - 1] == walk[k - 1];
      NextAt(s, k - 1, StepAfter(walk, k - 1));
      assert k == |s|;
      assert walk == walk[..k] && s == s[..k];
    }
  }
}
