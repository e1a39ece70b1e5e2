/**
 The tree as an address-keyed map, over any run of insertions and removals.
 */
module RbMap {
  import opened Bits
  import opened RbModel
  import opened RbTree
  import RbSearch

  /** The address-keyed map a sequence of nodes stands for. */
  ghost function AsMap(s: seq<Node>): map<int, Node> {
    if s == [] then map[] else AsMap(s[1..])[s[0].paddr := s[0]]
  }

  lemma {:induction false} MapLookup(s: seq<Node>, key: int)
    requires Sorted(s)
    ensures key in AsMap(s) <==> exists x :: x in s && x.paddr == key
    ensures key in AsMap(s) ==> AsMap(s)[key] in s && AsMap(s)[key].paddr == key
    ensures forall x :: x in s && x.paddr == key ==> AsMap(s)[key] == x
    ensures |AsMap(s)| == |s|
  {
    if s != [] {
      MapLookup(s[1..], key);
      assert s[0].paddr !in AsMap(s[1..]) by {
        MapLookup(s[1..], s[0].paddr);
      }
    }
  }

  /** Insertion of a fresh key is map update. */
  lemma {:induction false} MapOfInsert(s: seq<Node>, n: Node)
    requires Sorted(s) && forall x :: x in s ==> x.paddr != n.paddr
    ensures AsMap(InsertInOrder(s, n)) == AsMap(s)[n.paddr := n]
  {
    if s != [] && s[0].paddr < n.paddr {
      MapOfInsert(s[1..], n);
      assert InsertInOrder(s, n)[1..] == InsertInOrder(s[1..], n);
    } else {
      assert ([n] + s)[1..] == s;
    }
  }

  /** Removal is map subtraction. */
  lemma {:induction false} MapOfWithout(s: seq<Node>, n: Node)
    requires Sorted(s) && n in s
    ensures AsMap(Without(s, n)) == AsMap(s) - {n.paddr}
  {
    MapLookup(s[1..], s[0].paddr);
    if s[0] != n {
      MapOfWithout(s[1..], n);
      assert Without(s, n)[1..] == Without(s[1..], n);
    }
  }

  datatype Op = Insert(node: Node) | Remove(node: Node)

  /** Callers insert fresh addresses and remove nodes that are present; addresses are 64-bit. */
  ghost predicate Allowed(op: Op, m: map<int, Node>) {
    && |m| + 1 < Power(64)
    && match op
       case Insert(n) => n.paddr !in m
       case Remove(n) => n.paddr in m && m[n.paddr] == n
  }

  ghost function Apply(op: Op, m: map<int, Node>): map<int, Node> {
    match op
    case Insert(n) => m[n.paddr := n]
    case Remove(n) => m - {n.paddr}
  }

  ghost predicate AllowedRun(ops: seq<Op>, m: map<int, Node>) {
    ops == [] || (Allowed(ops[0], m) && AllowedRun(ops[1..], Apply(ops[0], m)))
  }

  ghost function ApplyAll(ops: seq<Op>, m: map<int, Node>): map<int, Node> {
    if ops == [] then m else ApplyAll(ops[1..], Apply(ops[0], m))
  }

  ghost function OpNodes(ops: seq<Op>): set<Node> {
    set op | op in ops :: op.node
  }

  /** One call on a valid tree, as one step of the map. */
  method Step(tree: HugeTree, op: Op)
    requires tree.Valid() && Allowed(op, AsMap(InOrder(tree.model))) && op.node != tree.nil
    modifies tree, Nodes(tree.model), op.node
    ensures tree.Valid() && Nodes(tree.model) <= old(Nodes(tree.model)) + {op.node}
    ensures AsMap(InOrder(tree.model)) == Apply(op, old(AsMap(InOrder(tree.model))))
  {
    ghost var s := InOrder(tree.model);
    MapLookup(s, op.node.paddr);
    match op
    case Insert(node) =>
      forall x | x in Nodes(tree.model) ensures x.paddr != node.paddr {
        InOrderNodes(tree.model, x);
      }
      forall x | x in s ensures x.paddr != node.paddr {
        InOrderNodes(tree.model, x);
      }
      MapOfInsert(s, node);
      tree.Insert(node);
    case Remove(node) =>
      InOrderNodes(tree.model, node);
      MapOfWithout(s, node);
      tree.Remove(node);
  }

  /** After any allowed run on a new tree, the tree is valid and is the map that the run computes. */
  method Replay(ops: seq<Op>) returns (tree: HugeTree)
    requires AllowedRun(ops, map[])
    modifies OpNodes(ops)
    ensures fresh(tree) && tree.Valid()
    ensures AsMap(InOrder(tree.model)) == ApplyAll(ops, map[])
  {
    tree := new HugeTree();
    for i := 0 to |ops|
      invariant tree.Valid() && fresh(tree) && fresh(tree.nil) && Nodes(tree.model) <= OpNodes(ops)
      invariant AllowedRun(ops[i..], AsMap(InOrder(tree.model)))
      invariant ApplyAll(ops[i..], AsMap(InOrder(tree.model))) == ApplyAll(ops, map[])
    {
      assert ops[i..][0] == ops[i] && ops[i..][1..] == ops[i + 1..];
      assert ops[i].node in OpNodes(ops);
      Step(tree, ops[i]);
    }
  }

  /** Search is map look-up. */
  method Lookup(tree: HugeTree, key: Node) returns (ret: Node?)
    requires tree.Valid()
    ensures var m := AsMap(InOrder(tree.model));
      ret == if key.paddr in m then m[key.paddr] else null
  {
    MapLookup(InOrder(tree.model), key.paddr);
    ret := RbSearch.Search(tree, key);
  }
}
