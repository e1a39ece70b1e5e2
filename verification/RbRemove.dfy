/**
 Removal: restoring the black height at one level of the unwinding loop.
 Each method is one branch of that loop, below a child that is one black node short.
 */
module RbRemove {
  import opened RbModel
  import opened RbHeap

  /** The child was on the left of a red node. */
  method FixLeftRed(p: Node, ghost f: Frame, ghost t: Tree, nil: Node) returns (tnode: Node)
    requires Shape(p, Join(f, t), nil) && Borrowable(f) && f.goLeft && f.red && !nil.red
    modifies FrameNodes(f) + Nodes(t)
    ensures Shape(tnode, RemoveStepLeft(f, t), nil)
  {
    var right := p.right;
    assert Shape(right, f.sib, nil);
    var rightleft := right.left;
    assert Shape(rightleft, f.sib.left, nil);
    if rightleft.red {
      p.red := false;
      ghost var r := f.sib;
      assert allocated(Nodes(t)) && Shape(p.left, t, nil);
      tnode := RotateRight(right, r, nil);
      p.right := tnode;
      ghost var r' := Bin(r.left.left, tnode, r.left.red, Bin(r.left.right, right, r.red, r.right));
      Rotation(r.left.left, tnode, r.left.red, r.left.right, right, r.red, r.right, r.red);
      assert Shape(p.left, t, nil);
      assert Shape(p, Bin(t, p, false, r'), nil);
      tnode := RotateLeft(p, Bin(t, p, false, r'), nil);
    } else {
      tnode := RotateLeft(p, Join(f, t), nil);
    }
  }

  /** The child was on the left of a black node. */
  method FixLeftBlack(p: Node, ghost f: Frame, ghost t: Tree, nil: Node) returns (tnode: Node, done: bool)
    requires Shape(p, Join(f, t), nil) && Borrowable(f) && f.goLeft && !f.red && !nil.red
    modifies FrameNodes(f) + Nodes(t)
    ensures Shape(tnode, RemoveStepLeft(f, t), nil)
    ensures done <==> !StillDeficient(f)
  {
    var right := p.right;
    assert Shape(right, f.sib, nil);
    var rightleft := right.left;
    assert Shape(rightleft, f.sib.left, nil);
    if rightleft.red {
      rightleft.red := false;
      ghost var r := f.sib.(left := Blacken(f.sib.left));
      assert Shape(rightleft, r.left, nil);
      assert Shape(right, r, nil);
      assert allocated(Nodes(t)) && Shape(p.left, t, nil);
      tnode := RotateRight(right, r, nil);
      p.right := tnode;
      ghost var r' := Bin(r.left.left, tnode, r.left.red, Bin(r.left.right, right, r.red, r.right));
      Rotation(r.left.left, tnode, r.left.red, r.left.right, right, r.red, r.right, r.red);
      assert Shape(p.left, t, nil);
      assert Shape(p, Bin(t, p, false, r'), nil);
      tnode := RotateLeft(p, Bin(t, p, false, r'), nil);
      done := true;
    } else {
      p.red := true;
      tnode := RotateLeft(p, Join(f, t).(red := true), nil);
      done := false;
    }
  }

  /** The child was on the right, and its sibling is red. */
  method FixRightRedSibling(p: Node, ghost f: Frame, ghost t: Tree, nil: Node) returns (tnode: Node)
    requires Shape(p, Join(f, t), nil) && Borrowable(f) && !f.goLeft && f.sib.red && !nil.red
    modifies FrameNodes(f) + Nodes(t)
    ensures Shape(tnode, RemoveStepRight(f, t), nil)
  {
    var left := p.left;
    assert Shape(left, f.sib, nil);
    var leftright := left.right;
    ghost var m := f.sib.right;
    assert Shape(leftright, m, nil);
    var leftrightleft := leftright.left;
    assert Shape(leftrightleft, m.left, nil);
    if leftrightleft.red {
      leftrightleft.red := false;
      ghost var b := Blacken(m.left);
      assert Shape(leftrightleft, b, nil);
      assert Shape(leftright, m.(left := b), nil);
      tnode := RotateUpTwice(p, f, m.(left := b), t, nil);
    } else {
      assert leftright != nil;
      leftright.red := true;
      assert Shape(leftright, Redden(m), nil);
      assert Shape(left, f.sib.(right := Redden(m)), nil);
      tnode := RotateRight(p, Bin(f.sib.(right := Redden(m)), p, f.red, t), nil);
      tnode.red := false;
    }
  }

  /** Two right rotations at p lift the sibling and then its right child above p;
      a left rotation at the sibling then brings it under that child. */
  method RotateUpTwice(p: Node, ghost f: Frame, ghost m: Tree, ghost t: Tree, nil: Node) returns (tnode: Node)
    requires f.sib.Bin? && m.Bin? && f.sib.right.Bin?
    requires Shape(p, Bin(f.sib.(right := m), p, f.red, t), nil)
    modifies p, p.left, m.node
    ensures Shape(tnode, Bin(Bin(f.sib.left, f.sib.node, f.sib.red, m.left), m.node, m.red, Bin(m.right, p, f.red, t)), nil)
  {
    ghost var l := f.sib;
    var unode := RotateRight(p, Bin(l.(right := m), p, f.red, t), nil);
    assert Shape(p, Bin(m, p, f.red, t), nil) && Shape(p.left, m, nil);
    assert allocated(Nodes(l.left)) && allocated(unode) && Shape(unode.left, l.left, nil);
    tnode := RotateRight(p, Bin(m, p, f.red, t), nil);
    ghost var u := Bin(m.left, m.node, m.red, Bin(m.right, p, f.red, t));
    tnode := HangAndRotate(unode, tnode, l, u, nil);
  }

  /** The sibling takes u, at tnode, as its right child and is rotated under it. */
  method HangAndRotate(unode: Node, tnode: Node, ghost l: Tree, ghost u: Tree, nil: Node) returns (r: Node)
    requires l.Bin? && u.Bin? && unode == l.node && unode != nil && unode.red == l.red
    requires unode !in Nodes(l.left) + Nodes(u) && Nodes(l.left) !! Nodes(u)
    requires Shape(unode.left, l.left, nil) && Shape(tnode, u, nil)
    modifies unode, tnode
    ensures Shape(r, Bin(Bin(l.left, l.node, l.red, u.left), u.node, u.red, u.right), nil)
  {
    unode.right := tnode;
    assert Shape(unode, Bin(l.left, l.node, l.red, u), nil);
    r := RotateLeft(unode, Bin(l.left, l.node, l.red, u), nil);
  }

  /** The child was on the right of a red node. */
  method FixRightRed(p: Node, ghost f: Frame, ghost t: Tree, nil: Node) returns (tnode: Node, relink: bool)
    requires Shape(p, Join(f, t), nil) && Borrowable(f) && !f.goLeft && !f.sib.red && f.red && !nil.red
    modifies FrameNodes(f) + Nodes(t)
    ensures Shape(tnode, RemoveStepRight(f, t), nil)
    ensures !relink ==> tnode == p
  {
    var left := p.left;
    assert Shape(left, f.sib, nil);
    var leftleft := left.left;
    assert Shape(leftleft, f.sib.left, nil);
    if leftleft.red {
      p.red := false;
      left.red := true;
      leftleft.red := false;
      ghost var l := f.sib.(red := true, left := Blacken(f.sib.left));
      assert Shape(leftleft, l.left, nil);
      assert Shape(left, l, nil);
      tnode := RotateRight(p, Bin(l, p, false, t), nil);
      relink := true;
    } else {
      left.red := true;
      p.red := false;
      assert Shape(left, Redden(f.sib), nil);
      tnode, relink := p, false;
    }
  }

  /** The child was on the right of a black node, with a black sibling. */
  method FixRightBlack(p: Node, ghost f: Frame, ghost t: Tree, nil: Node) returns (tnode: Node, done: bool)
    requires Shape(p, Join(f, t), nil) && Borrowable(f) && !f.goLeft && !f.sib.red && !f.red && !nil.red
    modifies FrameNodes(f) + Nodes(t)
    ensures Shape(tnode, RemoveStepRight(f, t), nil)
    ensures done <==> !StillDeficient(f)
    ensures !done ==> tnode == p
  {
    var left := p.left;
    assert Shape(left, f.sib, nil);
    var leftleft := left.left;
    assert Shape(leftleft, f.sib.left, nil);
    if leftleft.red {
      leftleft.red := false;
      ghost var l := f.sib.(left := Blacken(f.sib.left));
      assert Shape(leftleft, l.left, nil);
      assert Shape(left, l, nil);
      tnode := RotateRight(p, Bin(l, p, false, t), nil);
      done := true;
    } else {
      left.red := true;
      assert Shape(left, Redden(f.sib), nil);
      tnode, done := p, false;
    }
  }

  /** One iteration of the unwinding loop: relink the child p lost height below, then rebalance.
      done: the height is restored; relink: p's parent must be pointed at r. */
  method UnwindOnce(p: Node, cmp: int, child: Node, ghost f: Frame, ghost t: Tree, nil: Node)
    returns (r: Node, relink: bool, done: bool)
    requires FrameShape(f, nil) && Shape(child, t, nil) && Nodes(t) !! FrameNodes(f)
    requires RecordedAt(f, PathEntry(p, cmp)) && Borrowable(f) && !Red(t)
    requires !nil.red && nil !in FrameNodes(f) + Nodes(t)
    modifies FrameNodes(f) + Nodes(t)
    ensures Shape(r, RemoveStep(f, t), nil)
    ensures done <==> !StillDeficient(f)
    ensures !relink ==> done && r == p
  {
    relink, done := true, true;
    if cmp < 0 {
      p.left := child;
      JoinShape(f, child, t, nil);
      assert child.red == false;
      if p.red {
        r := FixLeftRed(p, f, t, nil);
      } else {
        r, done := FixLeftBlack(p, f, t, nil);
      }
    } else {
      p.right := child;
      JoinShape(f, child, t, nil);
      var left := p.left;
      assert Shape(left, f.sib, nil);
      if left.red {
        r := FixRightRedSibling(p, f, t, nil);
      } else if p.red {
        r, relink := FixRightRed(p, f, t, nil);
      } else {
        r, done := FixRightBlack(p, f, t, nil);
      }
    }
  }
}
