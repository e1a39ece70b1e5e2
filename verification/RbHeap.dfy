/**
 How nodes in memory represent the trees of RbModel, and the two rotations.
 `nil` is the tree's sentinel node; it is black and never written.
 */
module RbHeap {
  import opened RbModel

  /** The links and colours reachable from x are exactly the tree t, without sharing. */
  ghost predicate Shape(x: Node, t: Tree, nil: Node)
    reads Nodes(t)
    decreases t
  {
    match t
    case Nil => x == nil
    case Bin(l, n, red, r) =>
      && x == n && n != nil
      && n.red == red
      && n !in Nodes(l) && n !in Nodes(r) && Nodes(l) !! Nodes(r)
      && Shape(n.left, l, nil) && Shape(n.right, r, nil)
  }

  /** The link of a frame's node that the descent took. */
  ghost function Taken(f: Frame): Node
    reads f.node
  {
    if f.goLeft then f.node.left else f.node.right
  }

  ghost function Other(f: Frame): Node
    reads f.node
  {
    if f.goLeft then f.node.right else f.node.left
  }

  /** A frame is in memory except for the link that was taken. */
  ghost predicate FrameShape(f: Frame, nil: Node)
    reads FrameNodes(f)
  {
    && f.node != nil
    && f.node.red == f.red
    && f.node !in Nodes(f.sib)
    && Shape(Other(f), f.sib, nil)
  }

  /** The descent ctx starts at root and arrives at x; its frames share no nodes.
      Only the innermost taken link may point elsewhere than x. */
  ghost predicate CtxShape(ctx: seq<Frame>, root: Node, nil: Node)
    reads CtxNodes(ctx)
    decreases |ctx|
  {
    ctx == [] ||
    var f, c := Last(ctx), Init(ctx);
    && FrameShape(f, nil)
    && FrameNodes(f) !! CtxNodes(c)
    && CtxShape(c, root, nil)
    && Linked(c, root, f.node)
  }

  /** The link that should reach x does reach it. */
  ghost predicate Linked(ctx: seq<Frame>, root: Node, x: Node)
    reads CtxNodes(ctx)
  {
    if ctx == [] then root == x else Taken(Last(ctx)) == x
  }

  lemma {:induction false} PlugShape(ctx: seq<Frame>, root: Node, x: Node, t: Tree, nil: Node)
    requires CtxShape(ctx, root, nil) && Linked(ctx, root, x)
    requires Shape(x, t, nil) && Nodes(t) !! CtxNodes(ctx)
    ensures Shape(root, Plug(ctx, t), nil)
    decreases |ctx|
  {
    if ctx != [] {
      var f, c := Last(ctx), Init(ctx);
      JoinShape(f, x, t, nil);
      PlugShape(c, root, f.node, Join(f, t), nil);
    }
  }

  lemma JoinShape(f: Frame, x: Node, t: Tree, nil: Node)
    requires FrameShape(f, nil) && Taken(f) == x && Shape(x, t, nil)
    requires Nodes(t) !! FrameNodes(f)
    ensures Shape(f.node, Join(f, t), nil)
  {
  }

  /** A descent is intact exactly when its two parts are and they share no nodes. */
  lemma {:induction false} CtxSplit(a: seq<Frame>, b: seq<Frame>, root: Node, nil: Node)
    requires a != []
    ensures CtxShape(a + b, root, nil) <==>
      CtxShape(a, root, nil) && CtxShape(b, Taken(Last(a)), nil) && CtxNodes(a) !! CtxNodes(b)
    decreases |b|
  {
    if b == [] {
      assert a + b == a;
    } else {
      var f, b' := Last(b), Init(b);
      assert Init(a + b) == a + b';
      CtxSplit(a, b', root, nil);
      Appended(a, b', Nil);
    }
  }

  /** One step of a descent in memory. */
  lemma DescendShape(ctx: seq<Frame>, root: Node, x: Node, t: Tree, goLeft: bool, nil: Node)
    requires CtxShape(ctx, root, nil) && Linked(ctx, root, x)
    requires Shape(x, t, nil) && t.Bin? && Nodes(t) !! CtxNodes(ctx)
    ensures var f := FrameOf(t, goLeft);
      && CtxShape(ctx + [f], root, nil) && Linked(ctx + [f], root, Taken(f))
      && Shape(Taken(f), Child(t, goLeft), nil) && Nodes(Child(t, goLeft)) !! CtxNodes(ctx + [f])
  {
    var f := FrameOf(t, goLeft);
    assert (ctx + [f])[..|ctx|] == ctx;
    StepDown(ctx, t, goLeft);
  }

  lemma {:induction false} NilOutside(x: Node, t: Tree, nil: Node)
    requires Shape(x, t, nil)
    ensures nil !in Nodes(t)
    decreases t
  {
    match t
    case Nil =>
    case Bin(l, n, _, r) =>
      NilOutside(n.left, l, nil);
      NilOutside(n.right, r, nil);
  }

  // ---------------------------------------------------------------- the path buffer

  /** sizeof(void *) << 4 on a 64-bit machine. */
  const PATH_LENGTH: nat := 128

  /** An entry of the path buffer, an array of fixed length. */
  datatype PathEntry = PathEntry(node: Node, cmp: int)

  /** The first |ctx| entries record the nodes of ctx and the comparisons made there. */
  ghost predicate Recorded(ctx: seq<Frame>, path: seq<PathEntry>) {
    && |path| == PATH_LENGTH
    && |ctx| < PATH_LENGTH
    && forall i :: 0 <= i < |ctx| ==> RecordedAt(ctx[i], path[i])
  }

  ghost predicate RecordedAt(f: Frame, e: PathEntry) {
    e.node == f.node && e.cmp != 0 && (e.cmp < 0 <==> f.goLeft)
  }

  /** The two path writes of one winding step record its frame. */
  method RecordStep(path: array<PathEntry>, k: nat, cmp: int, next: Node, ghost ctx: seq<Frame>, ghost f: Frame)
    requires Recorded(ctx, path[..]) && k == |ctx| && k + 1 < PATH_LENGTH
    requires RecordedAt(f, PathEntry(path[k].node, cmp))
    modifies path
    ensures Recorded(ctx + [f], path[..]) && path[k + 1].node == next
  {
    path[k] := path[k].(cmp := cmp);
    path[k + 1] := path[k + 1].(node := next);
    forall i | 0 <= i < |ctx| ensures RecordedAt(ctx[i], path[i]) {
      assert old(path[..])[i] == path[i];
    }
  }

  /** Writes the node of an entry behind the recorded ones. */
  method SetNode(path: array<PathEntry>, k: nat, x: Node, ghost ctx: seq<Frame>)
    requires Recorded(ctx, path[..]) && |ctx| <= k < PATH_LENGTH
    modifies path
    ensures Recorded(ctx, path[..]) && path[k].node == x
    ensures path[..] == old(path[..])[k := old(path[k]).(node := x)]
  {
    path[k] := path[k].(node := x);
  }

  method RotateLeft(x: Node, ghost t: Tree, nil: Node) returns (r: Node)
    requires Shape(x, t, nil) && t.Bin? && t.right.Bin?
    modifies x, x.right
    ensures Shape(r, Bin(Bin(t.left, x, t.red, t.right.left), r, t.right.red, t.right.right), nil)
    ensures r == t.right.node
  {
    r := x.right;
    x.right := r.left;
    r.left := x;
  }

  method RotateRight(x: Node, ghost t: Tree, nil: Node) returns (r: Node)
    requires Shape(x, t, nil) && t.Bin? && t.left.Bin?
    modifies x, x.left
    ensures Shape(r, Bin(t.left.left, r, t.left.red, Bin(t.left.right, x, t.red, t.right)), nil)
    ensures r == t.left.node
  {
    r := x.left;
    x.left := r.right;
    r.right := x;
  }
}
