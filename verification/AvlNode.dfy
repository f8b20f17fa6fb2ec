/** The AVL nodes as linked objects: the search loop, the rotations and the
    insertion rewrite left, right, parent and height in place, and do to the
    linked nodes what AvlTree does to values. */
module AvlNode {
  import opened Bytes
  import opened Keys
  import opened Options
  import T = AvlTree

  class Node {
    var key: Str
    var meta: nat
    var left: Node?
    var right: Node?
    var parent: Node?
    var hight: int

    // avl_new_node
    constructor (key: Str, meta: nat)
      ensures this.key == key && this.meta == meta
      ensures Is(Lone(this), null)
    {
      this.key, this.meta := key, meta;
      left, right, parent := null, null, null;
      hight := 1;
    }
  }

  // Which node hangs where, and the keys, metas and heights stored in them.
  datatype Shape = Nil | Fork(n: Node, key: Str, meta: nat, left: Shape, right: Shape, hight: int)

  ghost function Lone(n: Node): Shape
    reads n
  {
    Fork(n, n.key, n.meta, Nil, Nil, 1)
  }

  ghost function Root(s: Shape): Node? {
    if s.Nil? then null else s.n
  }

  ghost function Nodes(s: Shape): set<Node> {
    if s.Nil? then {} else Nodes(s.left) + {s.n} + Nodes(s.right)
  }

  // The objects are linked as the shape says: child pointers, parent pointers
  // and heights, every node once.
  ghost predicate Is(s: Shape, parent: Node?)
    reads Nodes(s)
  {
    s.Fork? ==>
      && s.n.left == Root(s.left) && s.n.right == Root(s.right) && s.n.parent == parent
      && s.n.key == s.key && s.n.meta == s.meta && s.n.hight == s.hight
      && Is(s.left, s.n) && Is(s.right, s.n)
      && s.n !in Nodes(s.left) && s.n !in Nodes(s.right) && Nodes(s.left) !! Nodes(s.right)
  }

  ghost function TreeOf(s: Shape): T.Tree {
    if s.Nil? then T.Leaf else T.Node(s.key, s.meta, TreeOf(s.left), TreeOf(s.right), s.hight)
  }

  // __avl_get_hight
  function Hight(n: Node?): int
    reads n
  {
    if n == null then 0 else n.hight
  }

  // The search loop: right after smaller keys, left after larger ones.
  method Search(root: Node?, key: Str, ghost s: Shape) returns (found: Node?)
    requires Is(s, null) && Root(s) == root
    ensures found == null <==> T.Search(TreeOf(s), key) == None
    ensures found != null ==> found in Nodes(s) && found.key == key
    ensures found != null ==> T.Search(TreeOf(s), key) == Some(found.meta)
  {
    found := root;
    ghost var at, p := s, null;
    while found != null && KeyComp(found.key, key) != 0
      invariant Is(at, p) && Root(at) == found && Nodes(at) <= Nodes(s)
      invariant T.Search(TreeOf(at), key) == T.Search(TreeOf(s), key)
      decreases at
    {
      p := at.n;
      if KeyComp(found.key, key) > 0 {
        found, at := found.right, at.right;
      } else {
        found, at := found.left, at.left;
      }
    }
    if found != null {
      KeyCompOrders(found.key, key);
    }
  }

  // Writing the parent of a subtree's root.
  method SetParent(n: Node?, p: Node, ghost s: Shape, ghost was: Node?)
    requires Is(s, was) && Root(s) == n
    modifies if n == null then {} else {n}
    ensures Is(s, p)
  {
    if n != null {
      n.parent := p;
    }
  }

  // avl_calc_hight
  method CalcHight(n: Node, ghost l: Shape, ghost r: Shape)
    requires Is(l, n) && Is(r, n) && n.left == Root(l) && n.right == Root(r)
    requires Apart(n, l, r)
    modifies n`hight
    ensures Is(Fork(n, n.key, n.meta, l, r, n.hight), n.parent)
    ensures TreeOf(Fork(n, n.key, n.meta, l, r, n.hight)) == T.Over(n.key, n.meta, TreeOf(l), TreeOf(r))
  {
    var a, b := Hight(n.left), Hight(n.right);
    n.hight := (if a > b then a else b) + 1;
  }

  // What a linked node says of its subtrees.
  lemma Parts(s: Shape, p: Node?)
    requires Is(s, p) && s.Fork?
    ensures s.n.left == Root(s.left) && s.n.right == Root(s.right) && s.n.parent == p
    ensures s.n.key == s.key && s.n.meta == s.meta && s.n.hight == s.hight
    ensures Is(s.left, s.n) && Is(s.right, s.n)
    ensures Apart(s.n, s.left, s.right)
    ensures Nodes(s) == Nodes(s.left) + {s.n} + Nodes(s.right)
    ensures TreeOf(s) == T.Node(s.key, s.meta, TreeOf(s.left), TreeOf(s.right), s.hight)
  {
  }

  ghost predicate Apart(n: Node, l: Shape, r: Shape) {
    n !in Nodes(l) && n !in Nodes(r) && Nodes(l) !! Nodes(r)
  }

  lemma {:induction false} Exist(s: Shape)
    ensures forall o :: o in Nodes(s) ==> allocated(o)
  {
    if s.Fork? {
      Exist(s.left);
      Exist(s.right);
    }
  }

  // Three subtrees under two nodes, taken apart: nothing is shared.
  ghost predicate Loose(n: Node, mid: Node, a: Shape, b: Shape, c: Shape) {
    && n != mid && n !in Nodes(a) && n !in Nodes(b) && n !in Nodes(c)
    && mid !in Nodes(a) && mid !in Nodes(b) && mid !in Nodes(c)
    && (b.Fork? ==> b.n in Nodes(b) && b.n !in Nodes(a) && b.n !in Nodes(c))
  }

  lemma LeftParts(s: Shape, p: Node?)
    requires Is(s, p) && s.Fork? && s.left.Fork?
    ensures Is(s.left.left, s.left.n) && Is(s.left.right, s.left.n) && Is(s.right, s.n)
    ensures s.n.left == s.left.n && s.left.n.right == Root(s.left.right) && s.left.n.left == Root(s.left.left)
    ensures s.n.right == Root(s.right) && s.n.parent == p && s.n.key == s.key && s.n.meta == s.meta
    ensures s.left.n.key == s.left.key && s.left.n.meta == s.left.meta
    ensures Loose(s.n, s.left.n, s.left.left, s.left.right, s.right)
    ensures Apart(s.n, s.left.right, s.right)
    ensures s.n in Nodes(s) && s.left.n in Nodes(s) && (s.left.right.Fork? ==> s.left.right.n in Nodes(s))
    ensures TreeOf(s).left.Node?
  {
    Parts(s, p);
    Parts(s.left, s.n);
  }

  lemma RightParts(s: Shape, p: Node?)
    requires Is(s, p) && s.Fork? && s.right.Fork?
    ensures Is(s.right.left, s.right.n) && Is(s.right.right, s.right.n) && Is(s.left, s.n)
    ensures s.n.right == s.right.n && s.right.n.left == Root(s.right.left) && s.right.n.right == Root(s.right.right)
    ensures s.n.left == Root(s.left) && s.n.parent == p && s.n.key == s.key && s.n.meta == s.meta
    ensures s.right.n.key == s.right.key && s.right.n.meta == s.right.meta
    ensures Loose(s.n, s.right.n, s.left, s.right.left, s.right.right)
    ensures Apart(s.n, s.left, s.right.left)
    ensures s.n in Nodes(s) && s.right.n in Nodes(s) && (s.right.left.Fork? ==> s.right.left.n in Nodes(s))
    ensures TreeOf(s).right.Node?
  {
    Parts(s, p);
    Parts(s.right, s.n);
  }

  // Turning keeps the nodes; only the heights are new.
  lemma RightTurned(s: Shape, h: int, k: int)
    requires s.Fork? && s.left.Fork?
    requires Apart(s.n, s.left, s.right) && Apart(s.left.n, s.left.left, s.left.right)
    ensures var low := Fork(s.n, s.key, s.meta, s.left.right, s.right, h);
      Apart(s.left.n, s.left.left, low) && Nodes(Fork(s.left.n, s.left.key, s.left.meta, s.left.left, low, k)) == Nodes(s)
  {
  }

  lemma LeftTurned(s: Shape, h: int, k: int)
    requires s.Fork? && s.right.Fork?
    requires Apart(s.n, s.left, s.right) && Apart(s.right.n, s.right.left, s.right.right)
    ensures var low := Fork(s.n, s.key, s.meta, s.left, s.right.left, h);
      Apart(s.right.n, low, s.right.right) && Nodes(Fork(s.right.n, s.right.key, s.right.meta, low, s.right.right, k)) == Nodes(s)
  {
  }

  // A node with its links and contents set over two subtrees; its height is open.
  ghost predicate Hung(n: Node, key: Str, meta: nat, p: Node?, l: Shape, r: Shape)
    reads n, Nodes(l), Nodes(r)
  {
    && n.key == key && n.meta == meta && n.parent == p && n.left == Root(l) && n.right == Root(r)
    && Is(l, n) && Is(r, n)
  }

  // The links of __avl_right_move: mid comes above n.
  method RightLinks(n: Node, ghost s: Shape, ghost p: Node?) returns (mid: Node)
    requires Is(s, p) && s.Fork? && s.n == n && s.left.Fork?
    modifies Nodes(s)
    ensures mid == s.left.n && Hung(n, s.key, s.meta, mid, s.left.right, s.right)
    ensures mid.key == s.left.key && mid.meta == s.left.meta && mid.parent == p
    ensures mid.left == Root(s.left.left) && mid.right == n && Is(s.left.left, mid)
  {
    hide Is, Nodes, TreeOf, Apart;
    LeftParts(s, p);
    Exist(s.left.left);
    Exist(s.left.right);
    Exist(s.right);
    mid := n.left;
    n.left := mid.right;
    SetParent(mid.right, n, s.left.right, mid);
    mid.parent := n.parent;
    n.parent := mid;
    mid.right := n;
  }

  // The links of __avl_left_move.
  method LeftLinks(n: Node, ghost s: Shape, ghost p: Node?) returns (mid: Node)
    requires Is(s, p) && s.Fork? && s.n == n && s.right.Fork?
    modifies Nodes(s)
    ensures mid == s.right.n && Hung(n, s.key, s.meta, mid, s.left, s.right.left)
    ensures mid.key == s.right.key && mid.meta == s.right.meta && mid.parent == p
    ensures mid.right == Root(s.right.right) && mid.left == n && Is(s.right.right, mid)
  {
    hide Is, Nodes, TreeOf, Apart;
    RightParts(s, p);
    Exist(s.left);
    Exist(s.right.left);
    Exist(s.right.right);
    mid := n.right;
    n.right := mid.left;
    SetParent(mid.left, n, s.right.left, mid);
    mid.parent := n.parent;
    n.parent := mid;
    mid.left := n;
  }

  // __avl_right_move
  method RightMove(n: Node, ghost s: Shape, ghost p: Node?) returns (top: Node, ghost r: Shape)
    requires Is(s, p) && s.Fork? && s.n == n && s.left.Fork?
    modifies Nodes(s)
    ensures Is(r, p) && r.Fork? && r.n == top && Nodes(r) == Nodes(s)
    ensures TreeOf(s).left.Node? && TreeOf(r) == T.RightMove(TreeOf(s))
  {
    ghost var a, b, c := s.left.left, s.left.right, s.right;
    assert Apart(n, s.left, c) && Apart(s.left.n, a, b) && Apart(n, b, c);
    assert TreeOf(s) == T.Node(s.key, s.meta, T.Node(s.left.key, s.left.meta, TreeOf(a), TreeOf(b), s.left.hight), TreeOf(c), s.hight);
    hide Is, Nodes, TreeOf, Apart;
    LeftParts(s, p);
    Exist(a);
    var mid := RightLinks(n, s, p);
    CalcHight(n, b, c);
    ghost var low := Fork(n, s.key, s.meta, b, c, n.hight);
    RightTurned(s, n.hight, 0);
    CalcHight(mid, a, low);
    top, r := mid, Fork(mid, s.left.key, s.left.meta, a, low, mid.hight);
    RightTurned(s, n.hight, mid.hight);
  }

  // __avl_left_move
  method LeftMove(n: Node, ghost s: Shape, ghost p: Node?) returns (top: Node, ghost r: Shape)
    requires Is(s, p) && s.Fork? && s.n == n && s.right.Fork?
    modifies Nodes(s)
    ensures Is(r, p) && r.Fork? && r.n == top && Nodes(r) == Nodes(s)
    ensures TreeOf(s).right.Node? && TreeOf(r) == T.LeftMove(TreeOf(s))
  {
    ghost var a, b, c := s.left, s.right.left, s.right.right;
    assert Apart(n, a, s.right) && Apart(s.right.n, b, c) && Apart(n, a, b);
    assert TreeOf(s) == T.Node(s.key, s.meta, TreeOf(a), T.Node(s.right.key, s.right.meta, TreeOf(b), TreeOf(c), s.right.hight), s.hight);
    hide Is, Nodes, TreeOf, Apart;
    RightParts(s, p);
    Exist(c);
    var mid := LeftLinks(n, s, p);
    CalcHight(n, a, b);
    ghost var low := Fork(n, s.key, s.meta, a, b, n.hight);
    LeftTurned(s, n.hight, 0);
    CalcHight(mid, low, c);
    top, r := mid, Fork(mid, s.right.key, s.right.meta, low, c, mid.hight);
    LeftTurned(s, n.hight, mid.hight);
  }

  // avl_calc_balance
  function Balance(n: Node?): int
    reads n, if n == null then {} else {n.left, n.right}
  {
    if n == null then 0 else Hight(n.right) - Hight(n.left)
  }

  lemma BalanceIs(s: Shape, p: Node?)
    requires Is(s, p)
    ensures Balance(Root(s)) == T.Balance(TreeOf(s))
  {
  }

  // avl_rebalance, where no rotation follows a null pointer.
  method Rebalance(n: Node, ghost s: Shape, ghost p: Node?) returns (top: Node, ghost r: Shape)
    requires Is(s, p) && s.Fork? && s.n == n && T.Rebalance(TreeOf(s)).Some?
    modifies Nodes(s)
    ensures Is(r, p) && r.Fork? && r.n == top && Nodes(r) == Nodes(s)
    ensures TreeOf(r) == T.Rebalance(TreeOf(s)).value
    ensures T.MoveFor(TreeOf(s)) == T.Stay ==> r == s
  {
    hide Is, Nodes, TreeOf;
    Parts(s, p);
    Exist(s);
    BalanceIs(s, p);
    BalanceIs(s.left, n);
    BalanceIs(s.right, n);
    LeafIsNil(s.left);
    LeafIsNil(s.right);
    if Balance(n) == -2 && Balance(n.left) == -1 {
      top, r := RightMove(n, s, p);
    } else if Balance(n) == 2 && Balance(n.right) == 1 {
      top, r := LeftMove(n, s, p);
    } else if Balance(n) == -2 && Balance(n.left) == 1 {
      Parts(s.left, n);
      LeafIsNil(s.left.right);
      ghost var l;
      n.left, l := LeftMove(n.left, s.left, n);
      ghost var turned := Fork(n, s.key, s.meta, l, s.right, n.hight);
      Joined(turned, p);
      top, r := RightMove(n, turned, p);
    } else if Balance(n) == 2 && Balance(n.left) == -1 {
      Parts(s.right, n);
      LeafIsNil(s.right.left);
      ghost var l;
      n.right, l := RightMove(n.right, s.right, n);
      ghost var turned := Fork(n, s.key, s.meta, s.left, l, n.hight);
      Joined(turned, p);
      top, r := LeftMove(n, turned, p);
    } else {
      top, r := n, s;
    }
  }

  lemma LeafIsNil(s: Shape)
    ensures TreeOf(s).Leaf? <==> s.Nil?
  {
  }

  lemma Joined(s: Shape, p: Node?)
    requires s.Fork? && Is(s.left, s.n) && Is(s.right, s.n) && Apart(s.n, s.left, s.right)
    requires s.n.left == Root(s.left) && s.n.right == Root(s.right) && s.n.parent == p
    requires s.n.key == s.key && s.n.meta == s.meta && s.n.hight == s.hight
    ensures Is(s, p) && Nodes(s) == Nodes(s.left) + {s.n} + Nodes(s.right)
    ensures TreeOf(s) == T.Node(s.key, s.meta, TreeOf(s.left), TreeOf(s.right), s.hight)
  {
  }

  // What insertion does at one node, by the side the key goes to.
  lemma InsertSides(t: T.Tree, key: Str, meta: nat)
    requires t.Node? && T.Insert(t, key, meta).Some?
    ensures KeyComp(t.key, key) > 0 ==>
      var r := if t.right.Node? then T.Insert(t.right, key, meta) else Some(T.Single(key, meta));
      r.Some? && T.Rebalance(T.Over(t.key, t.meta, t.left, r.value)) == T.Insert(t, key, meta)
    ensures KeyComp(t.key, key) < 0 ==>
      var l := if t.left.Node? then T.Insert(t.left, key, meta) else Some(T.Single(key, meta));
      l.Some? && T.Rebalance(T.Over(t.key, t.meta, l.value, t.right)) == T.Insert(t, key, meta)
    ensures KeyComp(t.key, key) == 0 ==> T.Insert(t, key, meta) == Some(t)
  {
  }

  // Insertion into the subtree of p, which may be empty; its root's parent is
  // set in any case.
  method InsertBelow(c: Node?, node: Node, p: Node, ghost s: Shape) returns (child: Node, ghost r: Shape)
    requires Is(s, p) && Root(s) == c && Is(Lone(node), null) && node !in Nodes(s)
    requires s.Fork? ==> TreeOf(s).Node? && T.Insert(TreeOf(s), node.key, node.meta).Some?
    modifies Nodes(s), node
    ensures Is(r, p) && Root(r) == child && Nodes(s) <= Nodes(r) <= Nodes(s) + {node}
    ensures Some(TreeOf(r)) == if s.Fork? then T.Insert(TreeOf(s), old(node.key), old(node.meta))
      else Some(T.Single(old(node.key), old(node.meta)))
    decreases s, 1
  {
    hide Is, Nodes, TreeOf, T.Insert, T.Single;
    Sprouted(node);
    if c != null {
      var ok;
      child, ok, r := Insert(c, node, s, p);
      Parts(r, p);
      SetParent(child, p, r, p);
    } else {
      child, r := node, Lone(node);
      SetParent(child, p, r, null);
    }
  }

  // avl_insert_node, run on a tree of which no rotation follows a null pointer.
  // An equal key on the way changes nothing below its node.
  method Insert(n: Node, node: Node, ghost s: Shape, ghost p: Node?) returns (top: Node, ok: bool, ghost r: Shape)
    requires Is(s, p) && s.Fork? && s.n == n && Is(Lone(node), null) && node !in Nodes(s)
    requires TreeOf(s).Node? && T.Insert(TreeOf(s), node.key, node.meta).Some?
    modifies Nodes(s), node
    ensures Is(r, p) && Root(r) == top
    ensures r.Fork? && Some(TreeOf(r)) == T.Insert(TreeOf(s), old(node.key), old(node.meta))
    ensures Nodes(s) <= Nodes(r) <= Nodes(s) + {node}
    ensures ok <==> s.key != old(node.key)
    decreases s, 0
  {
    hide Is, Nodes, TreeOf, T.Rebalance, T.Insert, T.Single;
    Parts(s, p);
    Exist(s);
    LeafIsNil(s.left);
    LeafIsNil(s.right);
    InsertSides(TreeOf(s), node.key, node.meta);
    KeyCompOrders(n.key, node.key);
    ghost var turned;
    if KeyComp(n.key, node.key) > 0 {
      n.right, turned := InsertBelow(n.right, node, n, s.right);
      CalcHight(n, s.left, turned);
      turned := Fork(n, s.key, s.meta, s.left, turned, n.hight);
    } else if KeyComp(n.key, node.key) < 0 {
      n.left, turned := InsertBelow(n.left, node, n, s.left);
      CalcHight(n, turned, s.right);
      turned := Fork(n, s.key, s.meta, turned, s.right, n.hight);
    } else {
      return n, false, s;
    }
    Parts(turned, p);
    ok := true;
    top, r := Rebalance(n, turned, p);
  }

  lemma Sprouted(node: Node)
    ensures Nodes(Lone(node)) == {node} && TreeOf(Lone(node)) == T.Single(node.key, node.meta)
  {
  }
}
