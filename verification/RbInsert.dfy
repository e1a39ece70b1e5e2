/**
 Insertion: one level of the unwinding loop, above a child that may be a red root.
 */
module RbInsert {
  import opened RbModel
  import opened RbHeap

  /** The left case of the unwinding loop, below a red left child. */
  method FixLeft(cnode: Node, left: Node, ghost f: Frame, ghost t: Tree, nil: Node) returns (r: Node)
    requires f.goLeft && Red(t) && f.node == cnode && t.node == left && !nil.red
    requires Shape(cnode, Join(f, t), nil)
    modifies Nodes(Join(f, t))
    ensures Shape(r, InsertStep(f, t), nil)
  {
    r := cnode;
    var leftleft := left.left;
    assert Shape(leftleft, t.left, nil);
    if leftleft.red {
      // Two red links in a row on the left.
      leftleft.red := false;
      ghost var t' := t.(left := Blacken(t.left));
      assert Shape(leftleft, Blacken(t.left), nil);
      assert Shape(left, t', nil);
      r := RotateRight(cnode, Join(f, t'), nil);
    }
  }

  /** The right case of the unwinding loop, above a red right child. */
  method FixRight(cnode: Node, right: Node, ghost f: Frame, ghost t: Tree, nil: Node) returns (r: Node)
    requires !f.goLeft && Red(t) && f.node == cnode && t.node == right && !nil.red
    requires Red(f.sib) ==> !f.red
    requires Shape(cnode, Join(f, t), nil)
    modifies Nodes(Join(f, t))
    ensures Shape(r, InsertStep(f, t), nil)
  {
    r := cnode;
    var left := cnode.left;
    if left.red {
      // Red children on both sides pass their colour up.
      left.red := false;
      right.red := false;
      cnode.red := true;
    } else {
      // Only the right child is red, which the shape forbids.
      var tred := cnode.red;
      var tnode := RotateLeft(cnode, Join(f, t), nil);
      tnode.red := tred;
      cnode.red := true;
      r := tnode;
    }
  }

  /** One iteration of the unwinding loop: relink the child, then fix up, unless the child is black. */
  method UnwindOnce(cnode: Node, cmp: int, child: Node, ghost f: Frame, ghost t: Tree, nil: Node)
    returns (r: Node, done: bool)
    requires FrameShape(f, nil) && Shape(child, t, nil) && Nodes(t) !! FrameNodes(f)
    requires RecordedAt(f, PathEntry(cnode, cmp)) && !nil.red && nil !in FrameNodes(f) + Nodes(t)
    requires InsertFixable(f, t)
    modifies FrameNodes(f) + Nodes(t)
    ensures done <==> !Red(t)
    ensures done ==> r == cnode
    ensures Shape(r, InsertResult(f, t), nil)
  {
    r := cnode;
    if cmp < 0 {
      cnode.left := child;
      JoinShape(f, child, t, nil);
      if child.red {
        r := FixLeft(cnode, child, f, t, nil);
      } else {
        return r, true;
      }
    } else {
      cnode.right := child;
      JoinShape(f, child, t, nil);
      if child.red {
        r := FixRight(cnode, child, f, t, nil);
      } else {
        return r, true;
      }
    }
    done := false;
  }
}
