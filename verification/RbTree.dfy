/**
 The tree of huge blocks: insertion and removal over the path array, specified by the
 in-order sequence of nodes and the colour invariants. model is the tree the pointers spell.
 */
module RbTree {
  import opened Bits
  import opened RbModel
  import opened RbHeap
  import RbInsert
  import RbRemove

  class HugeTree {
    var root: Node
    const nil: Node
    ghost var model: Tree

    /** Black sentinel, no sharing, no cycle, 2-3 colour rules, black root, ordered by address. */
    ghost predicate Valid()
      reads this, nil, Nodes(model)
    {
      && !nil.red
      && Shape(root, model, nil)
      && Balanced(model) && !Red(model)
      && Sorted(InOrder(model))
    }

    constructor ()
      ensures Valid() && model == Nil && fresh(nil)
    {
      var sentinel := new Node(0);
      nil, root, model := sentinel, sentinel, Nil;
    }

    /** The descent ctx from the root has arrived at x, the root of cur. */
    ghost predicate Winding(ctx: seq<Frame>, cur: Tree, x: Node)
      reads this, CtxNodes(ctx), Nodes(cur)
    {
      && CtxShape(ctx, root, nil) && Linked(ctx, root, x)
      && Shape(x, cur, nil) && Nodes(cur) !! CtxNodes(ctx)
      && Plug(ctx, cur) == model && Balanced(cur) && Sorted(InOrder(cur))
      && |ctx| + Headroom(cur) <= 2 * BlackHeight(model)
    }

    lemma WindStep(ctx: seq<Frame>, cur: Tree, x: Node, goLeft: bool)
      requires Winding(ctx, cur, x) && cur.Bin?
      ensures Winding(ctx + [FrameOf(cur, goLeft)], Child(cur, goLeft), if goLeft then x.left else x.right)
    {
      DescendShape(ctx, root, x, cur, goLeft, nil);
      StepDown(ctx, cur, goLeft);
      SortedChildren(cur);
    }

    /** One winding step, to the left or right of x. */
    method WindOnce(path: array<PathEntry>, k: nat, cmp: int, ghost ctx: seq<Frame>, ghost cur: Tree)
      requires k == |ctx| && Recorded(ctx, path[..]) && k + 1 < PATH_LENGTH && cmp != 0
      requires Winding(ctx, cur, path[k].node) && cur.Bin?
      modifies path
      ensures Recorded(ctx + [FrameOf(cur, cmp < 0)], path[..])
      ensures Winding(ctx + [FrameOf(cur, cmp < 0)], Child(cur, cmp < 0), path[k + 1].node)
    {
      var x := path[k].node;
      ghost var f := FrameOf(cur, cmp < 0);
      WindStep(ctx, cur, x, cmp < 0);
      assert allocated(CtxNodes(ctx + [f])) && allocated(Nodes(Child(cur, cmp < 0)));
      RecordStep(path, k, cmp, if cmp < 0 then x.left else x.right, ctx, f);
    }

    /** Insertion's winding loop: descend to the nil link where the key belongs. */
    method WindInsert(node: Node, path: array<PathEntry>) returns (k: nat, ghost ctx: seq<Frame>)
      requires Valid() && |InOrder(model)| + 1 < Power(64) && path.Length == PATH_LENGTH
      requires forall x :: x in Nodes(model) ==> x.paddr != node.paddr
      modifies path
      ensures k == |ctx| && Recorded(ctx, path[..]) && path[k].node == nil
      ensures Winding(ctx, Nil, nil)
      ensures Between(ctx, node.paddr)
    {
      SmallTreeBlackHeight(model);
      ghost var cur := model;
      ctx, k := [], 0;
      path[0] := path[0].(node := root);
      while path[k].node != nil
        invariant k == |ctx| && Recorded(ctx, path[..])
        invariant Winding(ctx, cur, path[k].node)
        invariant Between(ctx, node.paddr)
        invariant Nodes(cur) <= Nodes(model)
        decreases cur
      {
        var x := path[k].node;
        assert x in Nodes(cur);
        var cmp := Compare(node, x);
        assert cmp != 0;
        BetweenStep(ctx, cur, cmp < 0, node.paddr);
        WindOnce(path, k, cmp, ctx, cur);
        ctx := ctx + [FrameOf(cur, cmp < 0)];
        cur := Child(cur, cmp < 0);
        k := k + 1;
      }
    }

    /** The frames of ctx are intact in memory, and t, at x, is to take the place of o below them. */
    ghost predicate Unwinding(ctx: seq<Frame>, o: Tree, t: Tree, x: Node)
      reads this, nil, CtxNodes(ctx), Nodes(t)
    {
      && !nil.red
      && CtxShape(ctx, root, nil) && Shape(x, t, nil) && Nodes(t) !! CtxNodes(ctx)
      && Balanced(Plug(ctx, o)) && !Red(Plug(ctx, o))
    }

    /** Writes the rebalanced subtree's root into its path entry. */
    method StoreChild(path: array<PathEntry>, i: nat, r: Node, ghost c: seq<Frame>, ghost o: Tree, ghost t: Tree)
      requires i == |c| && Recorded(c, path[..]) && Unwinding(c, o, t, r)
      modifies path
      ensures Recorded(c, path[..]) && path[i].node == r && Unwinding(c, o, t, r)
    {
      assert allocated(CtxNodes(c)) && allocated(Nodes(t));
      SetNode(path, i, r, c);
    }

    /** One iteration of insertion's unwinding loop, seen from the whole tree. */
    method UnwindInsertOnce(e: PathEntry, child: Node, ghost ctx: seq<Frame>, ghost o: Tree, ghost t: Tree)
      returns (r: Node, done: bool)
      requires Unwinding(ctx, o, t, child) && Overfull(t, o) && ctx != [] && RecordedAt(Last(ctx), e)
      modifies FrameNodes(Last(ctx)) + Nodes(t)
      ensures InsertFixable(Last(ctx), t)
      ensures Unwinding(Init(ctx), Join(Last(ctx), o), InsertResult(Last(ctx), t), r)
      ensures done <==> !Red(t)
      ensures done ==> r == e.node && Linked(Init(ctx), root, r)
    {
      ghost var f, c := Last(ctx), Init(ctx);
      BalancedHole(c, Join(f, o));
      InsertResultKeeps(f, o, t);
      NilOutside(child, t, nil);
      NilOutside(Other(f), f.sib, nil);
      assert CtxShape(c, root, nil) && Linked(c, root, e.node);
      assert allocated(CtxNodes(c));
      r, done := RbInsert.UnwindOnce(e.node, e.cmp, child, f, t, nil);
    }

    /** The links above t were never disturbed: the tree is whole again. */
    ghost method Adopt(ctx: seq<Frame>, o: Tree, t: Tree, x: Node, goal: seq<Node>, S: set<Node>)
      requires Unwinding(ctx, o, t, x) && Linked(ctx, root, x)
      requires Balanced(t) && (Red(t) ==> Red(o)) && (ctx == [] || BlackHeight(t) == BlackHeight(o))
      requires Spells(ctx, t, goal, S) && Sorted(goal)
      modifies this`model
      ensures Valid() && InOrder(model) == goal && Nodes(model) == S
    {
      PlugShape(ctx, root, x, t, nil);
      if ctx != [] {
        BalancedReplace(ctx, o, t);
      }
      SpellsWhole(ctx, t, goal, S);
      model := Plug(ctx, t);
    }

    /** Insertion's last write: a red top turns black, which balances the whole tree. */
    method BlackenRoot(x: Node, ghost o: Tree, ghost t: Tree, ghost goal: seq<Node>, ghost S: set<Node>)
      requires Unwinding([], o, t, x) && Overfull(t, o) && t.Bin? && Spells([], t, goal, S) && Sorted(goal)
      modifies this, x
      ensures Valid() && InOrder(model) == goal && Nodes(model) == S
    {
      SpellsWhole([], t, goal, S);
      root := x;
      root.red := false;
      model := Blacken(t);
    }

    /** The body of insertion's unwinding loop. */
    method UnwindInsertStep(path: array<PathEntry>, i: nat, ghost c: seq<Frame>, ghost o: Tree, ghost t: Tree,
                            ghost goal: seq<Node>, ghost S: set<Node>)
      returns (r: Node, done: bool)
      requires |c| == i + 1 && Recorded(c, path[..]) && Unwinding(c, o, t, path[i + 1].node)
      requires Overfull(t, o) && Spells(c, t, goal, S)
      modifies S, path
      ensures InsertFixable(Last(c), t)
      ensures var s, whole := InsertResult(Last(c), t), Join(Last(c), o);
        && s.Bin? && Overfull(s, whole) && Spells(Init(c), s, goal, S)
        && Recorded(Init(c), path[..]) && Unwinding(Init(c), whole, s, r)
        && (done ==> Linked(Init(c), root, r) && Balanced(s) && (Red(s) ==> Red(whole)))
        && (!done ==> path[i].node == r)
    {
      RecordedPrefix(c, path[..]);
      InsertLevel(c, o, t, goal, S);
      r, done := UnwindInsertOnce(path[i], path[i + 1].node, c, o, t);
      if !done {
        StoreChild(path, i, r, Init(c), Join(Last(c), o), InsertResult(Last(c), t));
      }
    }

    /** Insertion's unwinding loop: the tree comes to hold goal, made of the nodes S. */
    method UnwindInsert(path: array<PathEntry>, k: nat, ghost ctx: seq<Frame>, ghost t0: Tree,
                        ghost goal: seq<Node>, ghost S: set<Node>)
      requires k == |ctx| && Recorded(ctx, path[..]) && t0.Bin?
      requires Unwinding(ctx, Nil, t0, path[k].node) && Overfull(t0, Nil)
      requires Spells(ctx, t0, goal, S) && Sorted(goal)
      modifies this, S, path
      ensures Valid() && InOrder(model) == goal && Nodes(model) == S
    {
      ghost var c, o, t := ctx, Nil, t0;
      var i: int := k - 1;
      while i >= 0
        invariant -1 <= i < k && |c| == i + 1 && Recorded(c, path[..]) && t.Bin?
        invariant Unwinding(c, o, t, path[i + 1].node) && Overfull(t, o)
        invariant Spells(c, t, goal, S)
      {
        var r, done := UnwindInsertStep(path, i, c, o, t, goal, S);
        c, o, t := Init(c), Join(Last(c), o), InsertResult(Last(c), t);
        if done {
          Adopt(c, o, t, r, goal, S);
          return;
        }
        i := i - 1;
      }
      assert path[0].node == t.node && t.node in Nodes(t);
      BlackenRoot(path[0].node, o, t, goal, S);
    }

    /** Inserts a node whose key is not in the tree. */
    method Insert(node: Node)
      requires Valid() && |InOrder(model)| + 1 < Power(64)
      requires node != nil && forall x :: x in Nodes(model) ==> x.paddr != node.paddr
      modifies this, Nodes(model), node
      ensures Valid()
      ensures InOrder(model) == InsertInOrder(old(InOrder(model)), node)
      ensures Nodes(model) == old(Nodes(model)) + {node}
    {
      var path := new PathEntry[PATH_LENGTH](_ => PathEntry(nil, 0));
      assert node !in Nodes(model) && allocated(Nodes(model));
      node.left, node.right, node.red := nil, nil, true;
      var k, ctx := WindInsert(node, path);
      InsertAt(node, path, k, ctx);
    }

    /** Inserts a prepared node at the end of the descent. */
    method InsertAt(node: Node, path: array<PathEntry>, k: nat, ghost ctx: seq<Frame>)
      requires Winding(ctx, Nil, nil) && Between(ctx, node.paddr) && k == |ctx| && Recorded(ctx, path[..])
      requires Balanced(model) && !Red(model) && Sorted(InOrder(model)) && !nil.red
      requires node != nil && node !in Nodes(model) && node.left == node.right == nil && node.red
      modifies this, Nodes(model), node, path
      ensures Valid()
      ensures InOrder(model) == InsertInOrder(old(InOrder(model)), node)
      ensures Nodes(model) == old(Nodes(model)) + {node}
    {
      NodesPlug(ctx, Nil);
      ghost var t := Bin(Nil, node, true, Nil);
      ghost var goal := InsertionGoal(ctx, node);
      StoreChild(path, k, node, ctx, Nil, t);
      UnwindInsert(path, k, ctx, t, goal, Nodes(model) + {node});
    }

    // -------------------------------------------------------------- removal

    /** Points the link at which the descent c ends at x. */
    method SetLink(path: array<PathEntry>, i: nat, x: Node, ghost c: seq<Frame>)
      requires i == |c| && Recorded(c, path[..]) && CtxShape(c, root, nil)
      modifies this`root, if c == [] then {} else {c[|c| - 1].node}
      ensures CtxShape(c, root, nil) && Linked(c, root, x)
    {
      if i == 0 {
        root := x;
      } else {
        ghost var f, c' := c[i - 1], c[..i - 1];
        assert RecordedAt(f, path[i - 1]);
        if path[i - 1].cmp < 0 {
          path[i - 1].node.left := x;
        } else {
          path[i - 1].node.right := x;
        }
        assert Shape(Other(f), f.sib, nil);
        assert CtxShape(c', root, nil);
      }
    }

    /** One iteration of removal's unwinding loop, seen from the whole tree. */
    method UnwindRemoveOnce(e: PathEntry, child: Node, ghost ctx: seq<Frame>, ghost o: Tree, ghost t: Tree)
      returns (r: Node, relink: bool, done: bool)
      requires Unwinding(ctx, o, t, child) && ctx != [] && RecordedAt(Last(ctx), e)
      requires Balanced(t) && !Red(t) && BlackHeight(o) == BlackHeight(t) + 1
      modifies FrameNodes(Last(ctx)) + Nodes(t)
      ensures Borrowable(Last(ctx))
      ensures Unwinding(Init(ctx), Join(Last(ctx), o), RemoveStep(Last(ctx), t), r)
      ensures done <==> !StillDeficient(Last(ctx))
      ensures !relink ==> done && Linked(Init(ctx), root, r)
      ensures Last(ctx).red ==> Init(ctx) != []
    {
      ghost var f, c := Last(ctx), Init(ctx);
      BalancedHole(c, Join(f, o));
      RemoveStepBalance(f, o, t);
      RemoveStepOrder(f, t);
      NilOutside(child, t, nil);
      NilOutside(Other(f), f.sib, nil);
      assert CtxShape(c, root, nil) && Linked(c, root, e.node);
      assert allocated(CtxNodes(c));
      r, relink, done := RbRemove.UnwindOnce(e.node, e.cmp, child, f, t, nil);
    }

    /** Balance is restored below c: point its parent, or the root, at r. */
    method FinishRemove(path: array<PathEntry>, i: nat, relink: bool, r: Node, ghost c: seq<Frame>,
                        ghost o: Tree, ghost t: Tree,
                        ghost goal: seq<Node>, ghost S: set<Node>)
      requires i == |c| && Recorded(c, path[..])
      requires Unwinding(c, o, t, r) && (!relink ==> Linked(c, root, r))
      requires Balanced(t) && (Red(t) ==> Red(o)) && BlackHeight(t) == BlackHeight(o)
      requires Spells(c, t, goal, S) && Sorted(goal)
      modifies this`root, this`model, CtxNodes(c)
      ensures Valid() && InOrder(model) == goal && Nodes(model) == S
    {
      if relink {
        assert allocated(Nodes(t));
        SetLink(path, i, r, c);
      }
      Adopt(c, o, t, r, goal, S);
    }

    /** The body of removal's unwinding loop. */
    method UnwindRemoveStep(path: array<PathEntry>, i: nat, ghost c: seq<Frame>, ghost o: Tree, ghost t: Tree,
                            ghost goal: seq<Node>, ghost S: set<Node>)
      returns (r: Node, relink: bool, done: bool)
      requires |c| == i + 1 && Recorded(c, path[..]) && Unwinding(c, o, t, path[i + 1].node)
      requires Balanced(t) && !Red(t) && BlackHeight(o) == BlackHeight(t) + 1
      requires Spells(c, t, goal, S)
      modifies S, path
      ensures Borrowable(Last(c))
      ensures var s, whole := RemoveStep(Last(c), t), Join(Last(c), o);
        && Recorded(Init(c), path[..]) && Unwinding(Init(c), whole, s, r)
        && Spells(Init(c), s, goal, S) && Balanced(s) && (Red(s) ==> Red(whole))
        && (done ==> BlackHeight(s) == BlackHeight(whole) && (!relink ==> Linked(Init(c), root, r)))
        && (!done ==> BlackHeight(whole) == BlackHeight(s) + 1 && !Red(s) && path[i].node == r)
    {
      RecordedPrefix(c, path[..]);
      RemoveLevel(c, o, t, goal, S);
      r, relink, done := UnwindRemoveOnce(path[i], path[i + 1].node, c, o, t);
      if !done {
        StoreChild(path, i, r, Init(c), Join(Last(c), o), RemoveStep(Last(c), t));
      }
    }

    /** Removal's unwinding loop, from the nil that replaced a black leaf. */
    method UnwindRemove(path: array<PathEntry>, k: nat, ghost ctx: seq<Frame>, ghost o0: Tree,
                        ghost goal: seq<Node>, ghost S: set<Node>)
      requires k == |ctx| && Recorded(ctx, path[..]) && path[k].node == nil
      requires Unwinding(ctx, o0, Nil, nil) && BlackHeight(o0) == 1
      requires Spells(ctx, Nil, goal, S) && Sorted(goal)
      modifies this, S, path
      ensures Valid() && InOrder(model) == goal && Nodes(model) == S
    {
      ghost var c, o, t := ctx, o0, Nil;
      var i: int := k - 1;
      while i >= 0
        invariant -1 <= i < k && |c| == i + 1 && Recorded(c, path[..])
        invariant Unwinding(c, o, t, path[i + 1].node)
        invariant Balanced(t) && !Red(t) && BlackHeight(o) == BlackHeight(t) + 1
        invariant Spells(c, t, goal, S)
      {
        var r, relink, done := UnwindRemoveStep(path, i, c, o, t, goal, S);
        c, o, t := Init(c), Join(Last(c), o), RemoveStep(Last(c), t);
        if done {
          FinishRemove(path, i, relink, r, c, o, t, goal, S);
          return;
        }
        i := i - 1;
      }
      SetRoot(path[0].node, o, t, goal, S);
    }

    /** Unwinding reached the top: every path has lost one black node, so the whole tree is balanced. */
    method SetRoot(x: Node, ghost o: Tree, ghost t: Tree, ghost goal: seq<Node>, ghost S: set<Node>)
      requires Unwinding([], o, t, x) && Balanced(t) && !Red(t) && Spells([], t, goal, S) && Sorted(goal)
      modifies this`root, this`model
      ensures Valid() && InOrder(model) == goal && Nodes(model) == S
    {
      root := x;
      Adopt([], o, t, x, goal, S);
      assert root.red == false;
    }

    /** Removal of the leaf the path ends at, which the descent c led to in place of o. */
    method Prune(path: array<PathEntry>, k: nat, ghost c: seq<Frame>, ghost o: Tree, ghost goal: seq<Node>,
                 ghost S: set<Node>)
      requires k == |c| && Recorded(c, path[..]) && c != []
      requires Unwinding(c, o, Nil, nil) && o.Bin? && o.left == o.right == Nil
      requires path[k].node.red == o.red
      requires Spells(c, Nil, goal, S) && Sorted(goal)
      modifies this, S, path
      ensures Valid() && InOrder(model) == goal && Nodes(model) == S
    {
      if path[k].node.red {
        // A red leaf hangs on the left and carries no black height.
        ghost var f := c[k - 1];
        BalancedHole(c[..k - 1], Join(f, o));
        assert RecordedAt(f, path[k - 1]);
        assert path[k - 1].cmp < 0;
        SetLink(path, k, nil, c);
        Adopt(c, o, Nil, nil, goal, S);
      } else {
        // A black leaf leaves its side one black node short.
        assert allocated(CtxNodes(c));
        SetNode(path, k, nil, c);
        UnwindRemove(path, k, c, o, goal, S);
      }
    }

    /** Removal's winding loop: find node, then the end of the path to its successor. */
    method WindRemove(node: Node, path: array<PathEntry>)
      returns (k: nat, nodep: nat, ghost c: seq<Frame>, ghost f: Frame, ghost rest: seq<Frame>)
      requires Valid() && |InOrder(model)| + 1 < Power(64) && node in Nodes(model) && path.Length == PATH_LENGTH
      modifies path
      ensures Winding(c + [f] + rest, Nil, nil) && Recorded(c + [f] + rest, path[..])
      ensures k == |c + [f] + rest| && nodep == |c| && f.node == node && !f.goLeft && AllLeft(rest)
    {
      SmallTreeBlackHeight(model);
      ghost var t;
      nodep, c, t := WindTo(node, path);
      k, f, rest := WindRight(node, path, nodep, c, t);
    }

    /** The descent to node itself. */
    method WindTo(node: Node, path: array<PathEntry>) returns (k: nat, ghost c: seq<Frame>, ghost t: Tree)
      requires Valid() && BlackHeight(model) <= 63 && node in Nodes(model) && path.Length == PATH_LENGTH
      modifies path
      ensures k == |c| && Recorded(c, path[..]) && Winding(c, t, node) && path[k].node == node
      ensures t.Bin? && t.node == node
    {
      c, k, t := [], 0, model;
      path[0] := path[0].(node := root);
      while path[k].node != nil
        invariant k == |c| && Recorded(c, path[..])
        invariant Winding(c, t, path[k].node) && node in Nodes(t)
        decreases t
      {
        var x := path[k].node;
        var cmp := Compare(node, x);
        StepTowards(t, node);
        if cmp == 0 {
          break;
        }
        WindOnce(path, k, cmp, c, t);
        c := c + [FrameOf(t, cmp < 0)];
        t := Child(t, cmp < 0);
        k := k + 1;
      }
    }

    /** The path is lengthened from node to the next node in order. */
    method WindRight(node: Node, path: array<PathEntry>, k0: nat, ghost c: seq<Frame>, ghost t: Tree)
      returns (k: nat, ghost f: Frame, ghost rest: seq<Frame>)
      requires k0 == |c| && Recorded(c, path[..]) && Winding(c, t, node) && path[k0].node == node
      requires t.Bin? && t.node == node && BlackHeight(model) <= 63
      modifies path
      ensures Winding(c + [f] + rest, Nil, nil) && Recorded(c + [f] + rest, path[..])
      ensures k == |c + [f] + rest| && f.node == node && !f.goLeft && AllLeft(rest)
    {
      f := FrameOf(t, false);
      WindOnce(path, k0, 1, c, t);
      k, rest := WindSuccessor(path, k0 + 1, c + [f], t.right);
    }

    method WindSuccessor(path: array<PathEntry>, k0: nat, ghost c: seq<Frame>, ghost t: Tree)
      returns (k: nat, ghost rest: seq<Frame>)
      requires k0 == |c| && Recorded(c, path[..]) && Winding(c, t, path[k0].node) && BlackHeight(model) <= 63
      modifies path
      ensures k == |c + rest| && Recorded(c + rest, path[..]) && Winding(c + rest, Nil, nil) && AllLeft(rest)
    {
      k, rest := k0, [];
      ghost var cur, d := t, c;
      assert c + [] == c;
      while path[k].node != nil
        invariant k == |d| && Recorded(d, path[..]) && Winding(d, cur, path[k].node)
        invariant d == c + rest && AllLeft(rest)
        decreases cur
      {
        WindOnce(path, k, -1, d, cur);
        OneMoreLeft(c, rest, FrameOf(cur, true));
        d, rest := d + [FrameOf(cur, true)], rest + [FrameOf(cur, true)];
        cur := Child(cur, true);
        k := k + 1;
      }
    }

    /** Swaps node with its successor, the leaf at the end of the path. */
    method SwapWithSuccessor(path: array<PathEntry>, k: nat, nodep: nat, ghost c: seq<Frame>, ghost f: Frame,
                             ghost rest: seq<Frame>, ghost last: Frame)
      requires !nil.red && CtxShape(c + [f] + (rest + [last]), root, nil) && Recorded(c + [f] + (rest + [last]), path[..])
      requires k == |c + [f] + rest| && nodep == |c| && !f.goLeft
      modifies this`root, CtxNodes(c + [f] + (rest + [last])), path
      ensures CtxShape(c + [f.(node := last.node)] + rest, root, nil)
      ensures Recorded(c + [f.(node := last.node)] + rest, path[..])
      ensures path[k].node == f.node && f.node.red == last.red && !nil.red
    {
      var node, succ := path[nodep].node, path[k].node;
      RecordedAround(c, f, rest, last, path[..]);
      SplitAround(c, f, rest, last);
      SwapLinks(path, nodep, node, succ, c, f, rest, last);
      SwapEntries(path, k, nodep, node, succ, c, f, rest, last, root, nil);
    }

    /** The memory side of the swap: colours, links and the link from above. */
    method SwapLinks(path: array<PathEntry>, nodep: nat, node: Node, succ: Node, ghost c: seq<Frame>, ghost f: Frame,
                     ghost rest: seq<Frame>, ghost last: Frame)
      requires !nil.red && nodep == |c| && Recorded(c, path[..]) && node == f.node && succ == last.node && !f.goLeft
      requires CtxShape(c, root, nil) && FrameShape(f, nil) && CtxShape(rest, Taken(f), nil) && FrameShape(last, nil)
      requires CtxNodes(c) !! FrameNodes(f) !! CtxNodes(rest) !! FrameNodes(last)
      modifies this`root, CtxNodes(c), node, succ
      ensures CtxShape(c + [f.(node := last.node)] + rest, root, nil)
      ensures node.red == last.red && !nil.red
    {
      ghost var g := f.(node := last.node);
      assert allocated(CtxNodes(c)) && allocated(CtxNodes(rest)) && allocated(Nodes(f.sib));
      TakePlace(succ, node);
      assert CtxShape(c, root, nil) && CtxShape(rest, succ.right, nil) && FrameShape(g, nil);
      SetLink(path, nodep, succ, c);
      JoinAround(c, g, rest);
    }

    lemma SplitAround(c: seq<Frame>, f: Frame, rest: seq<Frame>, last: Frame)
      requires CtxShape(c + [f] + (rest + [last]), root, nil)
      ensures CtxShape(c, root, nil) && FrameShape(f, nil) && CtxShape(rest, Taken(f), nil) && FrameShape(last, nil)
      ensures CtxNodes(c) !! FrameNodes(f) !! CtxNodes(rest) !! FrameNodes(last)
      ensures CtxNodes(c + [f] + (rest + [last])) == CtxNodes(c) + FrameNodes(f) + CtxNodes(rest) + FrameNodes(last)
    {
      CtxSplit(c + [f], rest + [last], root, nil);
      Appended(c + [f], rest + [last], Nil);
      assert (c + [f])[..|c|] == c && (rest + [last])[..|rest|] == rest;
    }

    lemma JoinAround(c: seq<Frame>, g: Frame, rest: seq<Frame>)
      requires CtxShape(c, root, nil) && Linked(c, root, g.node) && FrameShape(g, nil) && CtxShape(rest, Taken(g), nil)
      requires CtxNodes(c) !! FrameNodes(g) !! CtxNodes(rest)
      ensures CtxShape(c + [g] + rest, root, nil)
    {
      assert (c + [g])[..|c|] == c;
      CtxSplit(c + [g], rest, root, nil);
    }

    /** Removes a node of the tree. */
    method Remove(node: Node)
      requires Valid() && |InOrder(model)| + 1 < Power(64) && node in Nodes(model)
      modifies this, Nodes(model)
      ensures Valid()
      ensures InOrder(model) == Without(old(InOrder(model)), node)
      ensures Nodes(model) == old(Nodes(model)) - {node}
    {
      assert allocated(Nodes(model));
      var path := new PathEntry[PATH_LENGTH](_ => PathEntry(nil, 0));
      var k, nodep, c, f, rest := WindRemove(node, path);
      RemoveFound(path, k - 1, nodep, node, c, f, rest);
    }

    lemma LastDiffers(c: seq<Frame>, f: Frame, rest: seq<Frame>, last: Frame)
      requires CtxShape(c + [f] + (rest + [last]), root, nil)
      ensures last.node != f.node
    {
      SplitAround(c, f, rest, last);
      assert f.node in FrameNodes(f) && last.node in FrameNodes(last);
    }

    /** node is the pruned node itself, or is swapped with it. */
    method RemoveFound(path: array<PathEntry>, k: nat, nodep: nat, node: Node, ghost c: seq<Frame>,
                       ghost f: Frame, ghost rest: seq<Frame>)
      requires Valid() && Winding(c + [f] + rest, Nil, nil) && Recorded(c + [f] + rest, path[..])
      requires k == |c| + |rest| && nodep == |c| && f.node == node && !f.goLeft && AllLeft(rest)
      modifies this, Nodes(model), path
      ensures Valid()
      ensures InOrder(model) == Without(old(InOrder(model)), node)
      ensures Nodes(model) == old(Nodes(model)) - {node}
    {
      LastRecorded(path[..], c, f, rest);
      if rest != [] {
        LastDiffers(c, f, Init(rest), Last(rest));
      }
      if path[k].node != node {
        RemoveSwapped(path, k, nodep, c, f, Init(rest), Last(rest));
      } else {
        RemoveUnswapped(path, k, c, f);
      }
    }

    /** Removal of a node that has a right child. */
    method RemoveSwapped(path: array<PathEntry>, k: nat, nodep: nat, ghost c: seq<Frame>, ghost f: Frame,
                         ghost rest: seq<Frame>, ghost last: Frame)
      requires Valid() && Winding(c + [f] + (rest + [last]), Nil, nil) && Recorded(c + [f] + (rest + [last]), path[..])
      requires k == |c| + |rest| + 1 && nodep == |c| && !f.goLeft && AllLeft(rest + [last])
      modifies this, Nodes(model), path
      ensures Valid()
      ensures InOrder(model) == Without(old(InOrder(model)), f.node)
      ensures Nodes(model) == old(Nodes(model)) - {f.node}
    {
      ghost var g, o := f.(node := last.node), Join(last, Nil);
      ghost var goal, S := Without(InOrder(model), f.node), Nodes(model) - {f.node};
      NodesPlug(c + [f] + (rest + [last]), Nil);
      SplitAround(c, f, rest, last);
      LastIsLeaf(c, f, rest, last);
      SwapRemoves(c, f, rest, last, Nodes(model));
      SwapWithSuccessor(path, k, nodep, c, f, rest, last);
      Prune(path, k, c + [g] + rest, o, goal, S);
    }

    /** Removal of a node without a right child. */
    method RemoveUnswapped(path: array<PathEntry>, k: nat, ghost c: seq<Frame>, ghost f: Frame)
      requires Valid() && Winding(c + [f], Nil, nil) && Recorded(c + [f], path[..])
      requires k == |c| && !f.goLeft
      modifies this, Nodes(model), path
      ensures Valid()
      ensures InOrder(model) == Without(old(InOrder(model)), f.node)
      ensures Nodes(model) == old(Nodes(model)) - {f.node}
    {
      ghost var goal, S := Without(InOrder(model), f.node), Nodes(model) - {f.node};
      ghost var o := Join(f, Nil);
      var node := path[k].node;
      assert (c + [f])[..k] == c && RecordedAt((c + [f])[k], path[k]);
      NodesPlug(c + [f], Nil);
      BalancedHole(c, o);
      DropSpells(c, f, Nodes(model));
      assert Recorded(c, path[..]) by {
        assert forall j :: 0 <= j < k ==> c[j] == (c + [f])[j];
      }
      var left := node.left;
      assert Shape(left, f.sib, nil);
      if left != nil {
        // The left child is a red leaf: blackened, it has node's height and takes its place.
        assert node.red == false;
        assert left.red;
        left.red := false;
        assert CtxShape(c, root, nil) && Shape(left, Blacken(f.sib), nil);
        SetLink(path, k, left, c);
        Adopt(c, o, Blacken(f.sib), left, goal, S);
      } else if k == 0 {
        // An empty path and a single node: only nil is left.
        root := nil;
        Adopt(c, o, Nil, nil, goal, S);
      } else {
        Prune(path, k, c, o, goal, S);
      }
    }
  }

  /** The successor's frame has nothing on its right either. */
  lemma LastIsLeaf(c: seq<Frame>, f: Frame, rest: seq<Frame>, last: Frame)
    requires Balanced(Plug(c + [f] + (rest + [last]), Nil)) && !Red(Plug(c + [f] + (rest + [last]), Nil)) && last.goLeft
    ensures last.sib == Nil
    ensures var g := f.(node := last.node);
      Balanced(Plug(c + [g] + rest, Join(last, Nil))) && !Red(Plug(c + [g] + rest, Join(last, Nil)))
  {
    var whole := c + [f] + (rest + [last]);
    assert whole[..|whole| - 1] == c + [f] + rest;
    BalancedHole(c + [f] + rest, Join(last, Nil));
    RelabelBalance(c, f, last.node, rest, Join(last, Nil));
  }

  /** The frame a descent ends in: f itself, or the last of the turns to the left behind it. */
  lemma LastRecorded(path: seq<PathEntry>, c: seq<Frame>, f: Frame, rest: seq<Frame>)
    requires Recorded(c + [f] + rest, path)
    ensures path[|c|].node == f.node
    ensures rest == [] ==> c + [f] + rest == c + [f]
    ensures rest != [] ==> rest == Init(rest) + [Last(rest)] && path[|c| + |rest|].node == Last(rest).node
  {
    var whole := c + [f] + rest;
    assert whole[|c|] == f && RecordedAt(whole[|c|], path[|c|]);
    if rest != [] {
      var m := |c| + |rest|;
      assert whole[m] == Last(rest) && RecordedAt(whole[m], path[m]);
    }
  }

  lemma OneMoreLeft(c: seq<Frame>, rest: seq<Frame>, f: Frame)
    requires AllLeft(rest) && f.goLeft
    ensures c + rest + [f] == c + (rest + [f]) && AllLeft(rest + [f])
  {
  }

  lemma RecordedPrefix(c: seq<Frame>, path: seq<PathEntry>)
    requires Recorded(c, path) && c != []
    ensures Recorded(Init(c), path) && RecordedAt(Last(c), path[|c| - 1])
  {
  }

  /** What one level of insertion's unwinding does to colours, heights and order. */
  lemma InsertLevel(c: seq<Frame>, o: Tree, t: Tree, goal: seq<Node>, S: set<Node>)
    requires c != [] && Balanced(Plug(c, o)) && Overfull(t, o) && Spells(c, t, goal, S)
    ensures InsertFixable(Last(c), t)
    ensures var f := Last(c);
      var s := InsertResult(f, t);
      && s.Bin? && Overfull(s, Join(f, o)) && Spells(Init(c), s, goal, S)
      && FrameNodes(f) + Nodes(t) <= S
      && (!Red(t) ==> Balanced(s) && Red(s) == f.red)
  {
    var f := Last(c);
    BalancedHole(Init(c), Join(f, o));
    InsertResultKeeps(f, o, t);
    SpellsUp(c, t, InsertResult(f, t), goal, S);
  }

  /** What one level of removal's unwinding does to colours, heights and order. */
  lemma RemoveLevel(c: seq<Frame>, o: Tree, t: Tree, goal: seq<Node>, S: set<Node>)
    requires c != [] && Balanced(Plug(c, o)) && Balanced(t) && !Red(t) && BlackHeight(o) == BlackHeight(t) + 1
    requires Spells(c, t, goal, S)
    ensures Borrowable(Last(c))
    ensures var f := Last(c);
      var s := RemoveStep(f, t);
      && Balanced(s) && (Red(s) ==> f.red) && Spells(Init(c), s, goal, S)
      && FrameNodes(f) + Nodes(t) <= S
      && if StillDeficient(f) then !f.red && BlackHeight(Join(f, o)) == BlackHeight(s) + 1
         else BlackHeight(Join(f, o)) == BlackHeight(s)
  {
    var f := Last(c);
    BalancedHole(Init(c), Join(f, o));
    RemoveStepBalance(f, o, t);
    RemoveStepOrder(f, t);
    SpellsUp(c, t, RemoveStep(f, t), goal, S);
  }

  /** The successor takes over node's colour and links, and node the successor's colour. */
  method TakePlace(succ: Node, node: Node)
    requires succ != node
    modifies succ, node
    ensures succ.red == old(node.red) && succ.left == old(node.left) && succ.right == old(node.right)
    ensures node.red == old(succ.red)
  {
    var tred := succ.red;
    succ.red := node.red;
    succ.left := node.left;
    succ.right := node.right;
    node.red := tred;
  }

  /** The path entries trade their nodes, so that the path leads through the successor. */
  method SwapEntries(path: array<PathEntry>, k: nat, nodep: nat, node: Node, succ: Node,
                     ghost c: seq<Frame>, ghost f: Frame, ghost rest: seq<Frame>, ghost last: Frame,
                     ghost root: Node, ghost nil: Node)
    requires CtxShape(c + [f.(node := last.node)] + rest, root, nil)
    requires Recorded(c + [f] + (rest + [last]), path[..]) && nodep == |c| && k == |c| + 1 + |rest|
    requires node == f.node && succ == last.node
    modifies path
    ensures CtxShape(c + [f.(node := last.node)] + rest, root, nil)
    ensures Recorded(c + [f.(node := last.node)] + rest, path[..]) && path[k].node == node
  {
    assert allocated(CtxNodes(c + [f.(node := last.node)] + rest));
    RecordSwap(c, f, rest, last, path[..]);
    ghost var entries := path[..];
    path[nodep] := path[nodep].(node := succ);
    path[k] := path[k].(node := node);
    assert path[..] == entries[nodep := entries[nodep].(node := succ)][k := entries[k].(node := node)];
  }

  lemma RecordedAround(c: seq<Frame>, f: Frame, rest: seq<Frame>, last: Frame, path: seq<PathEntry>)
    requires Recorded(c + [f] + (rest + [last]), path)
    ensures Recorded(c, path) && path[|c|].node == f.node && path[|c| + 1 + |rest|].node == last.node
  {
    var whole := c + [f] + (rest + [last]);
    assert forall j :: 0 <= j < |whole| ==> RecordedAt(whole[j], path[j]);
    assert forall j :: 0 <= j < |c| ==> c[j] == whole[j];
    assert whole[|c|] == f && whole[|c| + 1 + |rest|] == last;
  }

  lemma RecordSwap(c: seq<Frame>, f: Frame, rest: seq<Frame>, last: Frame, path: seq<PathEntry>)
    requires Recorded(c + [f] + (rest + [last]), path)
    ensures var g, k := f.(node := last.node), |c| + 1 + |rest|;
      Recorded(c + [g] + rest, path[|c| := path[|c|].(node := last.node)][k := path[k].(node := f.node)])
  {
    var whole := c + [f] + (rest + [last]);
    assert forall j :: 0 <= j < |whole| ==> RecordedAt(whole[j], path[j]);
    assert forall j :: 0 <= j < |c| ==> c[j] == whole[j];
    assert whole[|c|] == f && whole[|c| + 1 + |rest|] == last;
  }

  lemma StepTowards(t: Tree, node: Node)
    requires t.Bin? && Sorted(InOrder(t)) && node in Nodes(t)
    ensures node.paddr == t.node.paddr ==> node == t.node
    ensures node.paddr < t.node.paddr ==> node in Nodes(t.left)
    ensures node.paddr > t.node.paddr ==> node in Nodes(t.right)
  {
    SortedChildren(t);
    InOrderNodes(t.left, node);
    InOrderNodes(t.right, node);
  }

  lemma InsertionGoal(ctx: seq<Frame>, node: Node) returns (goal: seq<Node>)
    requires Between(ctx, node.paddr) && Sorted(InOrder(Plug(ctx, Nil)))
    ensures goal == InsertInOrder(InOrder(Plug(ctx, Nil)), node) && Sorted(goal)
    ensures Spells(ctx, Bin(Nil, node, true, Nil), goal, Nodes(Plug(ctx, Nil)) + {node})
  {
    goal := Pre(ctx) + [node] + Post(ctx);
    InOrderPlug(ctx, Nil);
    NodesPlug(ctx, Nil);
    InsertBetween(Pre(ctx), node, Post(ctx), InOrder(Plug(ctx, Nil)));
    LeafHolds(node);
  }

  lemma LeafHolds(node: Node)
    ensures var t := Bin(Nil, node, true, Nil); InOrder(t) == [node] && Nodes(t) == {node}
  {
  }

  lemma InsertBetween(a: seq<Node>, n: Node, b: seq<Node>, s: seq<Node>)
    requires s == a + [] + b && Sorted(s) && AllBelow(a, n.paddr) && AllAbove(b, n.paddr)
    ensures InsertInOrder(s, n) == a + [n] + b && Sorted(a + [n] + b)
  {
    assert a + [] == a;
    InsertInOrderAt(a, n, b);
    SortedInsert(a, n, b);
  }

  function Compare(a: Node, b: Node): (cmp: int)
    ensures cmp < 0 <==> a.paddr < b.paddr
    ensures cmp == 0 <==> a.paddr == b.paddr
  {
    (if a.paddr > b.paddr then 1 else 0) - (if a.paddr < b.paddr then 1 else 0)
  }
}
