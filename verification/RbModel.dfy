/**
 The mathematical side of the left-leaning 2-3 red-black tree: trees as values,
 their in-order sequences, the colour invariants, the zipper that stands for a
 descent path, and the local rebalancing steps of insertion and removal.
 Nothing in this module touches the heap.
 */
module RbModel {
  import opened Bits

  /** An intrusive tree node; nodes are ordered by the address they describe. */
  class Node {
    const paddr: int
    var left: Node
    var right: Node
    var red: bool

    constructor (paddr: int)
      ensures this.paddr == paddr && left == this && right == this && !red
    {
      this.paddr := paddr;
      left := this;
      right := this;
      red := false;
    }
  }

  datatype Tree = Nil | Bin(left: Tree, node: Node, red: bool, right: Tree)

  ghost function Nodes(t: Tree): set<Node> {
    match t
    case Nil => {}
    case Bin(l, n, _, r) => Nodes(l) + {n} + Nodes(r)
  }

  ghost function InOrder(t: Tree): seq<Node> {
    match t
    case Nil => []
    case Bin(l, n, _, r) => InOrder(l) + [n] + InOrder(r)
  }

  ghost predicate Red(t: Tree) {
    t.Bin? && t.red
  }

  /** Black nodes on the leftmost path; by Balanced, on every path. */
  ghost function BlackHeight(t: Tree): nat {
    match t
    case Nil => 0
    case Bin(l, _, red, _) => BlackHeight(l) + if red then 0 else 1
  }

  /** Equal black height everywhere, red only as a left child, never red under red. */
  ghost predicate Balanced(t: Tree) {
    match t
    case Nil => true
    case Bin(l, _, red, r) =>
      && Balanced(l) && Balanced(r)
      && BlackHeight(l) == BlackHeight(r)
      && !Red(r)
      && (red ==> !Red(l))
  }

  ghost predicate Sorted(s: seq<Node>) {
    forall i, j :: 0 <= i < j < |s| ==> s[i].paddr < s[j].paddr
  }

  function Blacken(t: Tree): Tree {
    if t.Bin? then t.(red := false) else t
  }

  function Redden(t: Tree): Tree {
    if t.Bin? then t.(red := true) else t
  }

  // ---------------------------------------------------------------- size and depth

  /** Number of nodes on the longest downward path. */
  ghost function Depth(t: Tree): nat {
    match t
    case Nil => 0
    case Bin(l, _, _, r) => 1 + if Depth(l) < Depth(r) then Depth(r) else Depth(l)
  }

  lemma {:induction false} BlackHeightBoundsSize(t: Tree)
    requires Balanced(t)
    ensures Power(BlackHeight(t)) <= |InOrder(t)| + 1
  {
    match t
    case Nil =>
    case Bin(l, _, _, r) =>
      BlackHeightBoundsSize(l);
      BlackHeightBoundsSize(r);
  }

  lemma {:induction false} DepthBound(t: Tree)
    requires Balanced(t)
    ensures Depth(t) <= 2 * BlackHeight(t) + if Red(t) then 1 else 0
  {
    match t
    case Nil =>
    case Bin(l, _, _, r) =>
      DepthBound(l);
      DepthBound(r);
  }

  lemma SquareMonotone(a: nat, b: nat)
    requires a <= b
    ensures a * a <= b * b
  {
  }

  /** The depth of a valid tree with n nodes is at most 2 * log2(n + 1). */
  lemma {:induction false} DepthIsLogarithmic(t: Tree)
    requires Balanced(t) && !Red(t)
    ensures Power(Depth(t)) <= (|InOrder(t)| + 1) * (|InOrder(t)| + 1)
  {
    var h := BlackHeight(t);
    DepthBound(t);
    BlackHeightBoundsSize(t);
    if Depth(t) < h + h {
      PowerMonotone(Depth(t), h + h);
    }
    PowerSum(h, h);
    SquareMonotone(Power(h), |InOrder(t)| + 1);
  }

  lemma {:induction false} SmallTreeBlackHeight(t: Tree)
    requires Balanced(t)
    requires |InOrder(t)| + 1 < Power(64)
    ensures BlackHeight(t) <= 63
  {
    BlackHeightBoundsSize(t);
    if BlackHeight(t) > 64 {
      PowerMonotone(64, BlackHeight(t));
    }
  }

  // ---------------------------------------------------------------- zippers

  /** One step of a descent: the node passed, its colour, and the subtree not taken. */
  datatype Frame = Frame(node: Node, red: bool, goLeft: bool, sib: Tree)

  function Last(ctx: seq<Frame>): Frame
    requires ctx != []
  {
    ctx[|ctx| - 1]
  }

  function Init(ctx: seq<Frame>): seq<Frame>
    requires ctx != []
  {
    ctx[..|ctx| - 1]
  }

  function Join(f: Frame, t: Tree): Tree {
    if f.goLeft then Bin(t, f.node, f.red, f.sib) else Bin(f.sib, f.node, f.red, t)
  }

  /** Rebuilds the whole tree around t; the last frame is the innermost. */
  ghost function Plug(ctx: seq<Frame>, t: Tree): Tree {
    if ctx == [] then t else Plug(Init(ctx), Join(Last(ctx), t))
  }

  ghost function Before(f: Frame): seq<Node> {
    if f.goLeft then [] else InOrder(f.sib) + [f.node]
  }

  ghost function After(f: Frame): seq<Node> {
    if f.goLeft then [f.node] + InOrder(f.sib) else []
  }

  ghost function Pre(ctx: seq<Frame>): seq<Node> {
    if ctx == [] then [] else Pre(Init(ctx)) + Before(Last(ctx))
  }

  ghost function Post(ctx: seq<Frame>): seq<Node> {
    if ctx == [] then [] else After(Last(ctx)) + Post(Init(ctx))
  }

  ghost function FrameNodes(f: Frame): set<Node> {
    {f.node} + Nodes(f.sib)
  }

  ghost function CtxNodes(ctx: seq<Frame>): set<Node> {
    if ctx == [] then {} else CtxNodes(Init(ctx)) + FrameNodes(Last(ctx))
  }

  lemma InOrderJoin(f: Frame, t: Tree)
    ensures InOrder(Join(f, t)) == Before(f) + InOrder(t) + After(f)
  {
  }

  lemma {:induction false} InOrderPlug(ctx: seq<Frame>, t: Tree)
    ensures InOrder(Plug(ctx, t)) == Pre(ctx) + InOrder(t) + Post(ctx)
    decreases |ctx|
  {
    if ctx != [] {
      var f, c := Last(ctx), Init(ctx);
      InOrderPlug(c, Join(f, t));
      InOrderJoin(f, t);
      Regroup(Pre(c), Before(f), InOrder(t), After(f), Post(c));
    }
  }

  lemma {:induction false} NodesPlug(ctx: seq<Frame>, t: Tree)
    ensures Nodes(Plug(ctx, t)) == CtxNodes(ctx) + Nodes(t)
    decreases |ctx|
  {
    if ctx != [] {
      NodesPlug(Init(ctx), Join(Last(ctx), t));
    }
  }

  lemma {:induction false} InOrderNodes(t: Tree, x: Node)
    ensures x in InOrder(t) <==> x in Nodes(t)
  {
    match t
    case Nil =>
    case Bin(l, _, _, r) =>
      InOrderNodes(l, x);
      InOrderNodes(r, x);
  }

  lemma {:induction false} BalancedHole(ctx: seq<Frame>, t: Tree)
    requires Balanced(Plug(ctx, t))
    ensures Balanced(t)
    decreases |ctx|
  {
    if ctx != [] {
      BalancedHole(Init(ctx), Join(Last(ctx), t));
    }
  }

  /** A subtree may be replaced by any balanced one of the same height that is not newly red. */
  lemma {:induction false} BalancedReplace(ctx: seq<Frame>, o: Tree, t: Tree)
    requires Balanced(Plug(ctx, o))
    requires Balanced(t) && BlackHeight(t) == BlackHeight(o) && (Red(t) ==> Red(o))
    ensures Balanced(Plug(ctx, t)) && BlackHeight(Plug(ctx, t)) == BlackHeight(Plug(ctx, o))
    ensures Red(Plug(ctx, t)) ==> Red(Plug(ctx, o))
    decreases |ctx|
  {
    if ctx != [] {
      var f, c := Last(ctx), Init(ctx);
      BalancedHole(c, Join(f, o));
      BalancedReplace(c, Join(f, o), Join(f, t));
    }
  }

  // ---------------------------------------------------------------- composing descents

  lemma {:induction false} Appended(a: seq<Frame>, b: seq<Frame>, t: Tree)
    ensures Plug(a + b, t) == Plug(a, Plug(b, t))
    ensures CtxNodes(a + b) == CtxNodes(a) + CtxNodes(b)
    decreases |b|
  {
    if b == [] {
      assert a + b == a;
    } else {
      var f, b' := Last(b), Init(b);
      assert Init(a + b) == a + b';
      Appended(a, b', Join(f, t));
    }
  }

  lemma {:induction false} AppendedOrder(a: seq<Frame>, b: seq<Frame>)
    ensures Pre(a + b) == Pre(a) + Pre(b)
    ensures Post(a + b) == Post(b) + Post(a)
    decreases |b|
  {
    if b == [] {
      assert a + b == a;
    } else {
      var f, b' := Last(b), Init(b);
      assert Init(a + b) == a + b';
      AppendedOrder(a, b');
      Associative(Pre(a), Pre(b'), Before(f));
      Associative(After(f), Post(b'), Post(a));
    }
  }

  lemma Associative(a: seq<Node>, b: seq<Node>, c: seq<Node>)
    ensures (a + b) + c == a + (b + c)
  {
  }

  ghost predicate AllLeft(ctx: seq<Frame>) {
    forall f :: f in ctx ==> f.goLeft
  }

  lemma {:induction false} AllLeftPre(ctx: seq<Frame>)
    requires AllLeft(ctx)
    ensures Pre(ctx) == []
    decreases |ctx|
  {
    if ctx != [] {
      AllLeftPre(Init(ctx));
    }
  }

  /** Exchanging the node of one frame leaves colours and heights as they are. */
  lemma RelabelBalance(a: seq<Frame>, f: Frame, n: Node, b: seq<Frame>, t: Tree)
    requires Balanced(Plug(a + [f] + b, t)) && !Red(Plug(a + [f] + b, t))
    ensures var g := f.(node := n);
      Balanced(Plug(a + [g] + b, t)) && !Red(Plug(a + [g] + b, t))
  {
    var g, u := f.(node := n), Plug(b, t);
    Appended(a + [f], b, t);
    Appended(a + [g], b, t);
    Appended(a, [f], u);
    Appended(a, [g], u);
    assert Plug([f], u) == Join(f, u) && Plug([g], u) == Join(g, u);
    BalancedHole(a, Join(f, u));
    BalancedReplace(a, Join(f, u), Join(g, u));
  }

  /** Swapping a node with its successor, and dropping it from where the successor was,
      deletes exactly that node from the sequence. */
  lemma SwapSpells(a: seq<Frame>, f: Frame, b: seq<Frame>, s: Frame)
    requires !f.goLeft && AllLeft(b) && s.goLeft && s.sib == Nil
    requires f.node !in Pre(a) + InOrder(f.sib)
    ensures var whole, swapped := a + [f] + (b + [s]), a + [f.(node := s.node)] + b;
      Pre(swapped) + [] + Post(swapped) == Without(InOrder(Plug(whole, Nil)), f.node)
  {
    var g := f.(node := s.node);
    var whole, swapped := a + [f] + (b + [s]), a + [g] + b;
    DescentOrder(a, f, b + [s]);
    DescentOrder(a, g, b);
    InOrderPlug(whole, Nil);
    assert (b + [s])[..|b|] == b;
    assert After(s) == [s.node] + [] == [s.node];
    var pre, post := Pre(a) + InOrder(f.sib), Post(b) + Post(a);
    Associative([s.node], Post(b), Post(a));
    SwapSequences(pre, f.node, s.node, post);
  }

  lemma SwapSequences(pre: seq<Node>, n: Node, s: Node, post: seq<Node>)
    requires n !in pre
    ensures (pre + [s]) + [] + post == Without((pre + [n]) + [] + ([s] + post), n)
  {
    Units(pre + [s]);
    Units(pre + [n]);
    WithoutAt(pre, n, [s] + post);
    Associative(pre, [s], post);
  }

  lemma DescentOrder(a: seq<Frame>, f: Frame, b: seq<Frame>)
    requires !f.goLeft && AllLeft(b)
    ensures Pre(a + [f] + b) == Pre(a) + InOrder(f.sib) + [f.node]
    ensures Post(a + [f] + b) == Post(b) + Post(a)
  {
    AppendedOrder(a + [f], b);
    AllLeftPre(b);
    Units(Pre(a + [f]));
    Units(Post(a));
    assert (a + [f])[..|a|] == a;
    Associative(Pre(a), InOrder(f.sib), [f.node]);
  }

  lemma Units(s: seq<Node>)
    ensures s + [] == s == [] + s
  {
  }

  // ---------------------------------------------------------------- descending

  /** The frame left behind by one step from the root of t, and the subtree stepped into. */
  function FrameOf(t: Tree, goLeft: bool): Frame
    requires t.Bin?
  {
    Frame(t.node, t.red, goLeft, if goLeft then t.right else t.left)
  }

  function Child(t: Tree, goLeft: bool): Tree
    requires t.Bin?
  {
    if goLeft then t.left else t.right
  }

  ghost predicate AllBelow(s: seq<Node>, key: int) {
    forall x :: x in s ==> x.paddr < key
  }

  ghost predicate AllAbove(s: seq<Node>, key: int) {
    forall x :: x in s ==> key < x.paddr
  }

  /** How far a descent can still go: twice the black height, one more at a red root. */
  ghost function Headroom(t: Tree): nat {
    2 * BlackHeight(t) + if Red(t) then 1 else 0
  }

  lemma StepDown(ctx: seq<Frame>, t: Tree, goLeft: bool)
    requires t.Bin?
    ensures Plug(ctx + [FrameOf(t, goLeft)], Child(t, goLeft)) == Plug(ctx, t)
    ensures CtxNodes(ctx + [FrameOf(t, goLeft)]) == CtxNodes(ctx) + FrameNodes(FrameOf(t, goLeft))
    ensures Pre(ctx + [FrameOf(t, goLeft)]) == Pre(ctx) + Before(FrameOf(t, goLeft))
    ensures Post(ctx + [FrameOf(t, goLeft)]) == After(FrameOf(t, goLeft)) + Post(ctx)
    ensures Balanced(t) ==> Headroom(Child(t, goLeft)) < Headroom(t)
  {
    assert (ctx + [FrameOf(t, goLeft)])[..|ctx|] == ctx;
  }

  lemma SortedChildren(t: Tree)
    requires t.Bin? && Sorted(InOrder(t))
    ensures Sorted(InOrder(t.left)) && Sorted(InOrder(t.right))
    ensures AllBelow(InOrder(t.left), t.node.paddr) && AllAbove(InOrder(t.right), t.node.paddr)
  {
    var a, b := InOrder(t.left), InOrder(t.right);
    var s := InOrder(t);
    assert s[|a|] == t.node;
    assert a == s[..|a|] && b == s[|a| + 1..];
  }

  /** The key belongs exactly where the descent ctx has arrived. */
  ghost predicate Between(ctx: seq<Frame>, key: int) {
    AllBelow(Pre(ctx), key) && AllAbove(Post(ctx), key)
  }

  lemma BetweenStep(ctx: seq<Frame>, t: Tree, goLeft: bool, key: int)
    requires t.Bin? && Sorted(InOrder(t)) && Between(ctx, key)
    requires if goLeft then key < t.node.paddr else t.node.paddr < key
    ensures Between(ctx + [FrameOf(t, goLeft)], key)
  {
    StepDown(ctx, t, goLeft);
    SortedChildren(t);
  }

  // ---------------------------------------------------------------- the abstract contents

  /** Adds a node to an address-ordered sequence. */
  ghost function InsertInOrder(s: seq<Node>, n: Node): seq<Node> {
    if s == [] then [n]
    else if n.paddr < s[0].paddr then [n] + s
    else [s[0]] + InsertInOrder(s[1..], n)
  }

  /** Deletes the first occurrence of a node. */
  ghost function Without(s: seq<Node>, n: Node): seq<Node> {
    if s == [] then [] else if s[0] == n then s[1..] else [s[0]] + Without(s[1..], n)
  }

  lemma {:induction false} InsertInOrderAt(a: seq<Node>, n: Node, b: seq<Node>)
    requires AllBelow(a, n.paddr) && AllAbove(b, n.paddr)
    ensures InsertInOrder(a + b, n) == a + [n] + b
  {
    if a == [] {
      assert a + b == b;
      if b != [] {
        assert b[0] in b;
      }
    } else {
      assert a[0] in a;
      assert (a + b)[1..] == a[1..] + b;
      assert forall x :: x in a[1..] ==> x in a;
      InsertInOrderAt(a[1..], n, b);
    }
  }

  lemma {:induction false} WithoutAt(a: seq<Node>, n: Node, b: seq<Node>)
    requires n !in a
    ensures Without(a + [n] + b, n) == a + b
  {
    var s := a + [n] + b;
    if a == [] {
      assert s[1..] == b;
    } else {
      assert s[1..] == a[1..] + [n] + b;
      WithoutAt(a[1..], n, b);
    }
  }

  lemma SortedInsert(a: seq<Node>, n: Node, b: seq<Node>)
    requires Sorted(a + b) && AllBelow(a, n.paddr) && AllAbove(b, n.paddr)
    ensures Sorted(a + [n] + b)
  {
    var s := a + [n] + b;
    forall i, j | 0 <= i < j < |s| ensures s[i].paddr < s[j].paddr {
      var ab := a + b;
      var i', j' := if i < |a| then i else i - 1, if j <= |a| then j else j - 1;
      if i != |a| && j != |a| {
        assert s[i] == ab[i'] && s[j] == ab[j'];
      } else if i == |a| {
        assert s[j] in b;
      } else {
        assert s[i] in a;
      }
    }
  }

  /** With t in its hole, the descent ctx spells the sequence goal over the node set S. */
  ghost predicate Spells(ctx: seq<Frame>, t: Tree, goal: seq<Node>, S: set<Node>) {
    Pre(ctx) + InOrder(t) + Post(ctx) == goal && CtxNodes(ctx) + Nodes(t) == S
  }

  lemma SpellsUp(ctx: seq<Frame>, t: Tree, u: Tree, goal: seq<Node>, S: set<Node>)
    requires ctx != [] && Spells(ctx, t, goal, S)
    requires var f := Last(ctx);
      InOrder(u) == Before(f) + InOrder(t) + After(f) && Nodes(u) == FrameNodes(f) + Nodes(t)
    ensures Spells(Init(ctx), u, goal, S)
  {
    var f, c := Last(ctx), Init(ctx);
    Regroup(Pre(c), Before(f), InOrder(t), After(f), Post(c));
  }

  lemma SpellsWhole(ctx: seq<Frame>, t: Tree, goal: seq<Node>, S: set<Node>)
    requires Spells(ctx, t, goal, S)
    ensures InOrder(Plug(ctx, t)) == goal && Nodes(Plug(ctx, t)) == S
    ensures ctx == [] ==> InOrder(Blacken(t)) == goal && Nodes(Blacken(t)) == S
  {
    InOrderPlug(ctx, t);
    NodesPlug(ctx, t);
    Recolour(t);
  }

  lemma Regroup(a: seq<Node>, b: seq<Node>, c: seq<Node>, d: seq<Node>, e: seq<Node>)
    ensures (a + b) + c + (d + e) == a + (b + c + d) + e
  {
  }

  lemma SortedWithout(a: seq<Node>, n: Node, b: seq<Node>)
    requires Sorted(a + [n] + b)
    ensures n !in a && n !in b
    ensures Sorted(a + b)
    ensures Without(a + [n] + b, n) == a + b
  {
    var s := a + [n] + b;
    assert s[|a|] == n;
    assert forall i :: 0 <= i < |a| ==> s[i] == a[i];
    assert forall i :: 0 <= i < |b| ==> s[|a| + 1 + i] == b[i];
    forall i, j | 0 <= i < j < |a + b| ensures (a + b)[i].paddr < (a + b)[j].paddr {
      var k, l := if i < |a| then i else i + 1, if j < |a| then j else j + 1;
      assert s[k] == (a + b)[i] && s[l] == (a + b)[j];
    }
    WithoutAt(a, n, b);
  }

  /** Removing the node of a frame with nothing on its right leaves its left subtree. */
  lemma DropSpells(c: seq<Frame>, f: Frame, S: set<Node>)
    requires !f.goLeft && Sorted(InOrder(Plug(c + [f], Nil)))
    requires S == Nodes(Plug(c + [f], Nil)) && f.node !in CtxNodes(c) + Nodes(f.sib)
    ensures Spells(c, f.sib, Without(InOrder(Plug(c + [f], Nil)), f.node), S - {f.node})
    ensures Sorted(Without(InOrder(Plug(c + [f], Nil)), f.node))
  {
    assert c + [f] + [] == c + [f];
    DescentOrder(c, f, []);
    Units(Post(c));
    InOrderPlug(c + [f], Nil);
    NodesPlug(c + [f], Nil);
    StepNodes(c, f);
    Units(Pre(c + [f]));
    SortedWithout(Pre(c) + InOrder(f.sib), f.node, Post(c));
  }

  lemma StepNodes(c: seq<Frame>, f: Frame)
    ensures CtxNodes(c + [f]) == CtxNodes(c) + FrameNodes(f)
  {
    assert (c + [f])[..|c|] == c;
  }

  /** Removing a node after the swap with its successor. */
  lemma SwapRemoves(c: seq<Frame>, f: Frame, rest: seq<Frame>, last: Frame, S: set<Node>)
    requires !f.goLeft && AllLeft(rest + [last]) && last.sib == Nil
    requires var whole := Plug(c + [f] + (rest + [last]), Nil); Sorted(InOrder(whole)) && S == Nodes(whole)
    requires CtxNodes(c) !! FrameNodes(f) !! CtxNodes(rest) !! FrameNodes(last) && f.node !in Nodes(f.sib)
    ensures var s, g := InOrder(Plug(c + [f] + (rest + [last]), Nil)), f.(node := last.node);
      && Spells(c + [g] + rest, Nil, Without(s, f.node), S - {f.node})
      && Sorted(Without(s, f.node))
  {
    var g := f.(node := last.node);
    SwapSorted(c, f, rest + [last]);
    assert last in rest + [last] && forall x :: x in rest ==> x in rest + [last];
    SwapSpells(c, f, rest, last);
    SwapNodes(c, f, rest, last);
    SpellsNil(c + [g] + rest, Without(InOrder(Plug(c + [f] + (rest + [last]), Nil)), f.node), S - {f.node});
  }

  lemma SpellsNil(ctx: seq<Frame>, goal: seq<Node>, S: set<Node>)
    requires Pre(ctx) + [] + Post(ctx) == goal && CtxNodes(ctx) == S
    ensures Spells(ctx, Nil, goal, S)
  {
    assert InOrder(Nil) == [] && Nodes(Nil) == {};
  }

  lemma SwapSorted(c: seq<Frame>, f: Frame, down: seq<Frame>)
    requires !f.goLeft && AllLeft(down) && Sorted(InOrder(Plug(c + [f] + down, Nil)))
    ensures Sorted(Without(InOrder(Plug(c + [f] + down, Nil)), f.node))
    ensures f.node !in Pre(c) + InOrder(f.sib)
  {
    var whole := c + [f] + down;
    InOrderPlug(whole, Nil);
    DescentOrder(c, f, down);
    Units(Pre(whole));
    SortedWithout(Pre(c) + InOrder(f.sib), f.node, Post(whole));
  }

  lemma SwapNodes(c: seq<Frame>, f: Frame, rest: seq<Frame>, last: Frame)
    requires CtxNodes(c) !! FrameNodes(f) !! CtxNodes(rest) !! FrameNodes(last) && f.node !in Nodes(f.sib)
    requires last.sib == Nil
    ensures CtxNodes(c + [f.(node := last.node)] + rest) == Nodes(Plug(c + [f] + (rest + [last]), Nil)) - {f.node}
  {
    var g := f.(node := last.node);
    NodesPlug(c + [f] + (rest + [last]), Nil);
    Appended(c + [f], rest + [last], Nil);
    Appended(c + [g], rest, Nil);
    StepNodes(c, f);
    StepNodes(c, g);
    StepNodes(rest, last);
  }

  // ---------------------------------------------------------------- insertion steps

  /** Subtrees met while unwinding an insertion: as high as the one they replace, but
      possibly with a red root, or, where a red root was before, with two reds in a row. */
  ghost predicate Overfull(t: Tree, o: Tree) {
    && BlackHeight(t) == BlackHeight(o)
    && (|| Balanced(t)
        || (Red(o) && Red(t) && Red(t.left) && Balanced(t.left) && Balanced(t.right) && !Red(t.right)
            && BlackHeight(t.left) == BlackHeight(t.right)))
  }

  /** The subtree at a frame after insertion below it; see InsertStepKeeps. */
  function InsertStep(f: Frame, t: Tree): Tree
    requires t.Bin? && t.red
    requires !f.goLeft && f.sib.Bin? && f.sib.red ==> !f.red
  {
    if f.goLeft then
      if t.left.Bin? && t.left.red then
        Bin(Blacken(t.left), t.node, t.red, Bin(t.right, f.node, f.red, f.sib))
      else
        Join(f, t)
    else if f.sib.Bin? && f.sib.red then
      Bin(Blacken(f.sib), f.node, true, Blacken(t))
    else
      Bin(Bin(f.sib, f.node, true, t.left), t.node, f.red, t.right)
  }

  /** A 4-node to be split below a red right child has a black middle. */
  predicate InsertFixable(f: Frame, t: Tree) {
    t.Bin? && t.red && !f.goLeft && f.sib.Bin? && f.sib.red ==> !f.red
  }

  /** The subtree at a frame once t stands below it; nothing is fixed below a black root. */
  function InsertResult(f: Frame, t: Tree): Tree
    requires InsertFixable(f, t)
  {
    if t.Bin? && t.red then InsertStep(f, t) else Join(f, t)
  }

  lemma InsertResultKeeps(f: Frame, o: Tree, t: Tree)
    requires Balanced(Join(f, o)) && Overfull(t, o)
    ensures InsertFixable(f, t)
    ensures Overfull(InsertResult(f, t), Join(f, o))
    ensures !Red(t) ==> Balanced(Join(f, t)) && Red(Join(f, t)) == f.red
    ensures InOrder(InsertResult(f, t)) == Before(f) + InOrder(t) + After(f)
    ensures Nodes(InsertResult(f, t)) == FrameNodes(f) + Nodes(t)
  {
    if Red(t) {
      InsertStepBalance(f, o, t);
      InsertStepOrder(f, t);
    } else {
      InOrderJoin(f, t);
    }
  }

  lemma InsertStepBalance(f: Frame, o: Tree, t: Tree)
    requires Balanced(Join(f, o)) && Overfull(t, o) && Red(t)
    ensures !f.goLeft && Red(f.sib) ==> !f.red
    ensures Overfull(InsertStep(f, t), Join(f, o))
  {
  }

  lemma InsertStepOrder(f: Frame, t: Tree)
    requires Red(t) && (!f.goLeft && Red(f.sib) ==> !f.red)
    ensures InOrder(InsertStep(f, t)) == Before(f) + InOrder(t) + After(f)
    ensures Nodes(InsertStep(f, t)) == FrameNodes(f) + Nodes(t)
  {
    if f.goLeft && Red(t.left) {
      assert InOrder(Blacken(t.left)) == InOrder(t.left);
    } else if !f.goLeft && Red(f.sib) {
      assert InOrder(Blacken(t)) == InOrder(t);
      assert InOrder(Blacken(f.sib)) == InOrder(f.sib);
    }
  }

  // ---------------------------------------------------------------- removal steps

  /** What a deficient subtree needs from its frame: a sibling to borrow from. */
  ghost predicate Borrowable(f: Frame) {
    && f.sib.Bin?
    && (f.goLeft ==> !f.sib.red)
    && (!f.goLeft && f.sib.red ==> f.sib.right.Bin? && !f.sib.right.red && !f.red)
  }

  /** The black-only case, after which the subtree is still one black node short. */
  predicate StillDeficient(f: Frame)
    requires f.sib.Bin?
  {
    !f.red && !f.sib.red && !(f.sib.left.Bin? && f.sib.left.red)
  }

  /** The subtree at a frame after its taken side t came back one black node short. */
  function RemoveStep(f: Frame, t: Tree): (s: Tree)
    requires Borrowable(f)
  {
    if f.goLeft then RemoveStepLeft(f, t) else RemoveStepRight(f, t)
  }

  function RemoveStepLeft(f: Frame, t: Tree): (s: Tree)
    requires Borrowable(f) && f.goLeft
  {
    var r := f.sib;
    if r.left.Bin? && r.left.red then
      var m := r.left;
      Bin(Bin(t, f.node, false, m.left), m.node, f.red, Bin(m.right, r.node, r.red, r.right))
    else
      Bin(Bin(t, f.node, true, r.left), r.node, r.red, r.right)
  }

  function RemoveStepRight(f: Frame, t: Tree): (s: Tree)
    requires Borrowable(f) && !f.goLeft
  {
    var l := f.sib;
    if l.red then
      var m := l.right;
      if m.left.Bin? && m.left.red then
        Bin(Bin(l.left, l.node, true, Blacken(m.left)), m.node, m.red, Bin(m.right, f.node, f.red, t))
      else
        Bin(l.left, l.node, false, Bin(Redden(m), f.node, f.red, t))
    else if l.left.Bin? && l.left.red then
      Bin(Blacken(l.left), l.node, f.red, Bin(l.right, f.node, false, t))
    else
      Bin(Redden(l), f.node, false, t)
  }

  lemma RemoveStepBalance(f: Frame, o: Tree, t: Tree)
    requires Balanced(Join(f, o)) && Balanced(t) && !Red(t)
    requires BlackHeight(o) == BlackHeight(t) + 1
    ensures Borrowable(f)
    ensures Balanced(RemoveStep(f, t))
    ensures BlackHeight(RemoveStep(f, t)) == BlackHeight(Join(f, o)) - if StillDeficient(f) then 1 else 0
    ensures Red(RemoveStep(f, t)) ==> f.red
  {
    if f.goLeft {
      RemoveStepLeftBalance(f, o, t);
    } else {
      RemoveStepRightBalance(f, o, t);
    }
  }

  lemma RemoveStepLeftBalance(f: Frame, o: Tree, t: Tree)
    requires Balanced(Join(f, o)) && Balanced(t) && !Red(t) && f.goLeft
    requires BlackHeight(o) == BlackHeight(t) + 1
    ensures Borrowable(f)
    ensures var s := RemoveStepLeft(f, t);
      && Balanced(s) && (Red(s) ==> f.red)
      && BlackHeight(s) == BlackHeight(Join(f, o)) - if StillDeficient(f) then 1 else 0
  {
    var r, s := f.sib, RemoveStepLeft(f, t);
    assert Balanced(o) && Balanced(r);
    assert Balanced(r.left) && Balanced(r.right);
    assert Balanced(s.left) && Balanced(s.right);
  }

  lemma RemoveStepRightBalance(f: Frame, o: Tree, t: Tree)
    requires Balanced(Join(f, o)) && Balanced(t) && !Red(t) && !f.goLeft
    requires BlackHeight(o) == BlackHeight(t) + 1
    ensures Borrowable(f)
    ensures var s := RemoveStepRight(f, t);
      && Balanced(s) && (Red(s) ==> f.red)
      && BlackHeight(s) == BlackHeight(Join(f, o)) - if StillDeficient(f) then 1 else 0
  {
    assert Balanced(f.sib);
    if f.sib.red {
      RemoveStepRedSiblingBalance(f, o, t);
    } else {
      assert Balanced(f.sib.left) && Balanced(f.sib.right);
      var s := RemoveStepRight(f, t);
      assert Balanced(s.left) && Balanced(s.right);
    }
  }

  lemma RemoveStepRedSiblingBalance(f: Frame, o: Tree, t: Tree)
    requires Balanced(Join(f, o)) && Balanced(t) && !Red(t) && !f.goLeft && Red(f.sib)
    requires BlackHeight(o) == BlackHeight(t) + 1
    ensures Borrowable(f) && !f.red
    ensures Balanced(RemoveStepRight(f, t)) && !Red(RemoveStepRight(f, t))
    ensures BlackHeight(RemoveStepRight(f, t)) == BlackHeight(Join(f, o))
  {
    var l, m, s := f.sib, f.sib.right, RemoveStepRight(f, t);
    assert Balanced(l) && Balanced(o);
    assert Balanced(l.left) && Balanced(m) && BlackHeight(l.left) == BlackHeight(m) == BlackHeight(o);
    assert Balanced(m.left) && Balanced(m.right);
    assert BlackHeight(m.left) == BlackHeight(m.right) == BlackHeight(t);
    if Red(m.left) {
      assert Balanced(Blacken(m.left)) && BlackHeight(Blacken(m.left)) == BlackHeight(l.left);
      assert Balanced(s.left) && Balanced(s.right);
    } else {
      assert Balanced(Redden(m)) && BlackHeight(Redden(m)) == BlackHeight(t);
      assert Balanced(s.left) && Balanced(s.right);
    }
  }

  lemma RemoveStepOrder(f: Frame, t: Tree)
    requires Borrowable(f)
    ensures InOrder(RemoveStep(f, t)) == Before(f) + InOrder(t) + After(f)
    ensures Nodes(RemoveStep(f, t)) == FrameNodes(f) + Nodes(t)
  {
    if f.goLeft {
      RemoveStepLeftOrder(f, t);
    } else {
      RemoveStepRightOrder(f, t);
    }
  }

  lemma RemoveStepLeftOrder(f: Frame, t: Tree)
    requires Borrowable(f) && f.goLeft
    ensures InOrder(RemoveStepLeft(f, t)) == Before(f) + InOrder(t) + After(f)
    ensures Nodes(RemoveStepLeft(f, t)) == FrameNodes(f) + Nodes(t)
  {
    var p, r := f.node, f.sib;
    if r.left.Bin? && r.left.red {
      var m := r.left;
      var r' := Bin(m.left, m.node, f.red, Bin(m.right, r.node, r.red, r.right));
      Rotation(m.left, m.node, m.red, m.right, r.node, r.red, r.right, f.red);
      assert InOrder(r') == InOrder(r) && Nodes(r') == Nodes(r);
      Rotation(t, p, false, m.left, m.node, f.red, r'.right, f.red);
      JoinedRight(t, p, false, r');
    } else {
      Rotation(t, p, true, r.left, r.node, r.red, r.right, r.red);
      JoinedRight(t, p, true, r);
    }
  }

  lemma RemoveStepRightOrder(f: Frame, t: Tree)
    requires Borrowable(f) && !f.goLeft
    ensures InOrder(RemoveStepRight(f, t)) == Before(f) + InOrder(t) + After(f)
    ensures Nodes(RemoveStepRight(f, t)) == FrameNodes(f) + Nodes(t)
  {
    if f.sib.red {
      RemoveStepRedSiblingOrder(f, t);
    } else {
      Recolour(f.sib);
      Recolour(f.sib.left);
      if f.sib.left.Bin? && f.sib.left.red {
        Rotation(Blacken(f.sib.left), f.sib.node, f.red, f.sib.right, f.node, false, t, f.red);
      }
    }
  }

  lemma RemoveStepRedSiblingOrder(f: Frame, t: Tree)
    requires Borrowable(f) && !f.goLeft && f.sib.red
    ensures InOrder(RemoveStepRight(f, t)) == Before(f) + InOrder(t) + After(f)
    ensures Nodes(RemoveStepRight(f, t)) == FrameNodes(f) + Nodes(t)
  {
    var p, l, m := f.node, f.sib, f.sib.right;
    Recolour(m);
    Recolour(m.left);
    if m.left.Bin? && m.left.red {
      var b := Blacken(m.left);
      var l' := Bin(Bin(l.left, l.node, true, b), m.node, m.red, m.right);
      Rotation(l.left, l.node, true, b, m.node, m.red, m.right, l.red);
      assert InOrder(l') == InOrder(l) && Nodes(l') == Nodes(l);
      Rotation(l'.left, m.node, m.red, m.right, p, f.red, t, m.red);
      JoinedLeft(l', p, f.red, t);
    } else {
      Rotation(l.left, l.node, false, Redden(m), p, f.red, t, false);
    }
  }

  lemma JoinedLeft(l: Tree, x: Node, c: bool, r: Tree)
    ensures InOrder(Bin(l, x, c, r)) == InOrder(l) + [x] + InOrder(r)
    ensures Nodes(Bin(l, x, c, r)) == Nodes(l) + {x} + Nodes(r)
  {
  }

  lemma JoinedRight(l: Tree, x: Node, c: bool, r: Tree)
    ensures InOrder(Bin(l, x, c, r)) == InOrder(l) + ([x] + InOrder(r))
    ensures Nodes(Bin(l, x, c, r)) == Nodes(l) + {x} + Nodes(r)
  {
  }

  lemma Recolour(t: Tree)
    ensures InOrder(Blacken(t)) == InOrder(t) == InOrder(Redden(t))
    ensures Nodes(Blacken(t)) == Nodes(t) == Nodes(Redden(t))
  {
  }

  /** A rotation at the root, with any colours, keeps the nodes and their order. */
  lemma Rotation(a: Tree, x: Node, cx: bool, b: Tree, y: Node, cy: bool, c: Tree, top: bool)
    ensures InOrder(Bin(Bin(a, x, cx, b), y, top, c)) == InOrder(Bin(a, x, top, Bin(b, y, cy, c)))
    ensures Nodes(Bin(Bin(a, x, cx, b), y, top, c)) == Nodes(Bin(a, x, top, Bin(b, y, cy, c)))
  {
    JoinedRight(b, y, cy, c);
    JoinedLeft(a, x, cx, b);
    assert (InOrder(a) + [x] + InOrder(b)) + [y] + InOrder(c)
        == InOrder(a) + [x] + (InOrder(b) + ([y] + InOrder(c)));
  }
}
