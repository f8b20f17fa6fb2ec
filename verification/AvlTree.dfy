/** AVL trees as values: the rotations, the rebalancing test as it is written,
    and what insertion keeps. */
module AvlTree {
  import opened Bytes
  import opened Keys
  import opened Assoc
  import opened Options

  datatype Tree = Leaf | Node(key: Str, meta: nat, left: Tree, right: Tree, hight: int)

  function Hight(t: Tree): int {
    if t.Leaf? then 0 else t.hight
  }

  function Max(a: int, b: int): int {
    if a > b then a else b
  }

  // A node over two subtrees, its height computed.
  function Over(key: Str, meta: nat, left: Tree, right: Tree): Tree {
    Node(key, meta, left, right, Max(Hight(left), Hight(right)) + 1)
  }

  function Balance(t: Tree): int {
    if t.Leaf? then 0 else Hight(t.right) - Hight(t.left)
  }

  function RightMove(t: Tree): Tree
    requires t.Node? && t.left.Node?
  {
    var mid := t.left;
    Over(mid.key, mid.meta, mid.left, Over(t.key, t.meta, mid.right, t.right))
  }

  function LeftMove(t: Tree): Tree
    requires t.Node? && t.right.Node?
  {
    var mid := t.right;
    Over(mid.key, mid.meta, Over(t.key, t.meta, t.left, mid.left), mid.right)
  }

  datatype Move = Stay | Right | Left | LeftRight | RightLeft

  // Which rotation is made. The last test looks at the left child where the
  // mirror image of the third would look at the right one, and a child of
  // balance 0 is not covered.
  function MoveFor(t: Tree): Move {
    if t.Leaf? then Stay
    else if Balance(t) == -2 && Balance(t.left) == -1 then Right
    else if Balance(t) == 2 && Balance(t.right) == 1 then Left
    else if Balance(t) == -2 && Balance(t.left) == 1 then LeftRight
    else if Balance(t) == 2 && Balance(t.left) == -1 then RightLeft
    else Stay
  }

  // None: a rotation follows a null pointer.
  function Rebalance(t: Tree): Option<Tree> {
    match MoveFor(t)
    case Stay => Some(t)
    case Right => Some(RightMove(t))
    case Left => Some(LeftMove(t))
    case LeftRight =>
      if t.left.right.Leaf? then None else Some(RightMove(t.(left := LeftMove(t.left))))
    case RightLeft =>
      if t.right.Leaf? || t.right.left.Leaf? then None
      else Some(LeftMove(t.(right := RightMove(t.right))))
  }

  function Single(key: Str, meta: nat): Tree {
    Over(key, meta, Leaf, Leaf)
  }

  // Insertion at a node; an equal key changes nothing.
  function Insert(t: Tree, key: Str, meta: nat): Option<Tree>
    requires t.Node?
    decreases t
  {
    if KeyComp(t.key, key) > 0 then
      var r := if t.right.Node? then Insert(t.right, key, meta) else Some(Single(key, meta));
      if r.None? then None else Rebalance(Over(t.key, t.meta, t.left, r.value))
    else if KeyComp(t.key, key) < 0 then
      var l := if t.left.Node? then Insert(t.left, key, meta) else Some(Single(key, meta));
      if l.None? then None else Rebalance(Over(t.key, t.meta, l.value, t.right))
    else Some(t)
  }

  function Search(t: Tree, key: Str): (found: Option<nat>)
    decreases t
  {
    if t.Leaf? then None
    else if KeyComp(t.key, key) > 0 then Search(t.right, key)
    else if KeyComp(t.key, key) < 0 then Search(t.left, key)
    else Some(t.meta)
  }

  // ----- contents and order -----

  // The entries from left to right.
  function Inorder(t: Tree): Entries {
    if t.Leaf? then [] else Inorder(t.left) + [(t.key, t.meta)] + Inorder(t.right)
  }

  ghost predicate Ordered(t: Tree) {
    Sorted(Inorder(t))
  }

  // Stored heights are the real ones.
  predicate Exact(t: Tree) {
    t.Node? ==> Exact(t.left) && Exact(t.right) && t.hight == Max(Hight(t.left), Hight(t.right)) + 1
  }

  predicate Balanced(t: Tree) {
    t.Node? ==> Balanced(t.left) && Balanced(t.right) && -1 <= Balance(t) <= 1
  }

  lemma {:induction false} HightPositive(t: Tree)
    requires Exact(t)
    ensures Hight(t) >= 0 && (t.Node? <==> Hight(t) >= 1)
  {
    if t.Node? {
      HightPositive(t.left);
      HightPositive(t.right);
    }
  }

  lemma OrderedNode(t: Tree)
    requires t.Node? && Ordered(t)
    ensures SortedAround(Inorder(t.left), (t.key, t.meta), Inorder(t.right))
    ensures Ordered(t.left) && Ordered(t.right)
  {
    SortedParts(Inorder(t.left), (t.key, t.meta), Inorder(t.right));
  }

  // The search loop finds what the sorted entries say.
  lemma {:induction false} SearchFinds(t: Tree, key: Str)
    requires Ordered(t)
    ensures Search(t, key) == Lookup(Inorder(t), key)
  {
    hide Sorted, Before;
    if t.Node? {
      OrderedNode(t);
      SearchFinds(t.left, key);
      SearchFinds(t.right, key);
      LookupSplit(Inorder(t.left), (t.key, t.meta), Inorder(t.right), key);
      KeyCompOrders(t.key, key);
      if KeyComp(t.key, key) >= 0 {
        MissesLeft(Inorder(t.left), t.key, key);
      }
      if KeyComp(t.key, key) < 0 {
        MissesRight(Inorder(t.right), t.key, key);
      }
    }
  }

  lemma MissesLeft(e: Entries, x: Str, key: Str)
    requires (forall i :: 0 <= i < |e| ==> Before(e[i].0, x)) && KeyComp(x, key) >= 0
    ensures Lookup(e, key) == None
  {
    forall i | 0 <= i < |e| ensures e[i].0 != key {
      KeyCompOrders(x, key);
      KeyCompOrders(x, x);
      KeyCompOrders(key, x);
    }
    LookupMisses(e, key);
  }

  lemma MissesRight(e: Entries, x: Str, key: Str)
    requires (forall i :: 0 <= i < |e| ==> Before(x, e[i].0)) && KeyComp(x, key) < 0
    ensures Lookup(e, key) == None
  {
    LookupMisses(e, key);
  }

  // Rotations keep the entries.
  lemma RebalanceKeeps(t: Tree)
    requires Rebalance(t).Some?
    ensures Inorder(Rebalance(t).value) == Inorder(t)
    ensures Exact(t) ==> Exact(Rebalance(t).value)
    ensures t.Node? <==> Rebalance(t).value.Node?
  {
    match MoveFor(t)
    case Stay =>
    case Right => RightMoveKeeps(t);
    case Left => LeftMoveKeeps(t);
    case LeftRight =>
      ExactParts(t.left);
      LeftMoveKeeps(t.left);
      RightMoveKeeps(t.(left := LeftMove(t.left)));
    case RightLeft =>
      ExactParts(t.right);
      RightMoveKeeps(t.right);
      LeftMoveKeeps(t.(right := RightMove(t.right)));
  }

  lemma ExactParts(t: Tree)
    requires t.Node?
    ensures Exact(t) ==> Exact(t.left) && Exact(t.right)
  {
  }

  lemma Regroup<T>(a: seq<T>, x: T, b: seq<T>, y: T, c: seq<T>)
    ensures (a + [x] + b) + [y] + c == a + [x] + (b + [y] + c)
  {
  }

  lemma InorderOver(key: Str, meta: nat, left: Tree, right: Tree)
    ensures Inorder(Over(key, meta, left, right)) == Inorder(left) + [(key, meta)] + Inorder(right)
    ensures Exact(left) && Exact(right) ==> Exact(Over(key, meta, left, right))
  {
  }

  lemma RightMoveKeeps(t: Tree)
    requires t.Node? && t.left.Node?
    ensures Inorder(RightMove(t)) == Inorder(t)
    ensures Exact(t.left) && Exact(t.right) ==> Exact(RightMove(t))
  {
    var mid := t.left;
    var low := Over(t.key, t.meta, mid.right, t.right);
    InorderNode(t);
    InorderNode(mid);
    hide Inorder, Exact;
    InorderOver(t.key, t.meta, mid.right, t.right);
    InorderOver(mid.key, mid.meta, mid.left, low);
    Regroup(Inorder(mid.left), (mid.key, mid.meta), Inorder(mid.right), (t.key, t.meta), Inorder(t.right));
  }

  lemma InorderNode(t: Tree)
    requires t.Node?
    ensures Inorder(t) == Inorder(t.left) + [(t.key, t.meta)] + Inorder(t.right)
    ensures Exact(t) ==> Exact(t.left) && Exact(t.right)
  {
  }

  lemma LeftMoveKeeps(t: Tree)
    requires t.Node? && t.right.Node?
    ensures Inorder(LeftMove(t)) == Inorder(t)
    ensures Exact(t.left) && Exact(t.right) ==> Exact(LeftMove(t))
  {
    var mid := t.right;
    var low := Over(t.key, t.meta, t.left, mid.left);
    InorderNode(t);
    InorderNode(mid);
    hide Inorder, Exact;
    InorderOver(t.key, t.meta, t.left, mid.left);
    InorderOver(mid.key, mid.meta, low, mid.right);
    Regroup(Inorder(t.left), (t.key, t.meta), Inorder(mid.left), (mid.key, mid.meta), Inorder(mid.right));
  }

  // Insertion of an absent key adds exactly that entry, at its place; stored
  // heights stay exact.
  lemma {:induction false} InsertAdds(t: Tree, key: Str, meta: nat)
    requires t.Node? && Ordered(t) && !HasKey(Inorder(t), key) && Insert(t, key, meta).Some?
    ensures Inorder(Insert(t, key, meta).value) == Added(Inorder(t), key, meta)
    ensures Exact(t) ==> Exact(Insert(t, key, meta).value)
    ensures Insert(t, key, meta).value.Node?
    decreases t
  {
    hide Sorted, Before, Rebalance;
    var a, x, b := Inorder(t.left), (t.key, t.meta), Inorder(t.right);
    OrderedNode(t);
    KeysOfParts(a, x, b, key);
    KeyCompOrders(t.key, key);
    if KeyComp(t.key, key) > 0 {
      if t.right.Node? {
        InsertAdds(t.right, key, meta);
      }
      var r := if t.right.Node? then Insert(t.right, key, meta).value else Single(key, meta);
      SingleAdded(key, meta);
      RebalanceKeeps(Over(t.key, t.meta, t.left, r));
      PlacedRight(a, x, b, key, meta);
    } else {
      if t.left.Node? {
        InsertAdds(t.left, key, meta);
      }
      var l := if t.left.Node? then Insert(t.left, key, meta).value else Single(key, meta);
      SingleAdded(key, meta);
      RebalanceKeeps(Over(t.key, t.meta, l, t.right));
      PlacedLeft(a, x, b, key, meta);
    }
  }

  // Insertion of a key that is there changes no entry.
  lemma {:induction false} InsertPresent(t: Tree, key: Str, meta: nat)
    requires t.Node? && Ordered(t) && HasKey(Inorder(t), key) && Insert(t, key, meta).Some?
    ensures Inorder(Insert(t, key, meta).value) == Inorder(t)
    ensures Insert(t, key, meta).value.Node?
    decreases t
  {
    hide Sorted, Before, Rebalance;
    var a, x, b := Inorder(t.left), (t.key, t.meta), Inorder(t.right);
    OrderedNode(t);
    InorderNode(t);
    KeyCompOrders(t.key, key);
    LookupSplit(a, x, b, key);
    LookupIsMap(Inorder(t), key);
    LookupIsMap(a, key);
    LookupIsMap(b, key);
    if KeyComp(t.key, key) > 0 {
      MissesLeft(a, t.key, key);
      InsertPresent(t.right, key, meta);
      var r := Insert(t.right, key, meta).value;
      InorderOver(t.key, t.meta, t.left, r);
      RebalanceKeeps(Over(t.key, t.meta, t.left, r));
    } else if KeyComp(t.key, key) < 0 {
      MissesRight(b, t.key, key);
      InsertPresent(t.left, key, meta);
      var l := Insert(t.left, key, meta).value;
      InorderOver(t.key, t.meta, l, t.right);
      RebalanceKeeps(Over(t.key, t.meta, l, t.right));
    }
  }

  lemma SingleAdded(key: Str, meta: nat)
    ensures Inorder(Single(key, meta)) == Added([], key, meta) && Exact(Single(key, meta))
  {
    assert Inorder(Single(key, meta)) == [] + [(key, meta)] + [];
  }

  lemma PlacedRight(a: Entries, x: Entry, b: Entries, key: Str, meta: nat)
    requires SortedAround(a, x, b) && KeyComp(x.0, key) > 0
    ensures Added(a + [x] + b, key, meta) == a + [x] + Added(b, key, meta)
  {
    forall i | 0 <= i < |a| ensures Before(a[i].0, key) {
      BeforeTransitive(a[i].0, x.0, key);
    }
    AddedRight(a, x, b, key, meta);
  }

  lemma PlacedLeft(a: Entries, x: Entry, b: Entries, key: Str, meta: nat)
    requires KeyComp(x.0, key) < 0
    ensures Added(a + [x] + b, key, meta) == Added(a, key, meta) + [x] + b
  {
    KeyCompOrders(x.0, key);
    AddedLeft(a, x, b, key, meta);
  }

  lemma KeysOfParts(a: Entries, x: Entry, b: Entries, key: Str)
    requires !HasKey(a + [x] + b, key)
    ensures !HasKey(a, key) && x.0 != key && !HasKey(b, key)
  {
    var e := a + [x] + b;
    assert e[|a|] == x;
    forall i | 0 <= i < |a| ensures a[i].0 != key {
      assert e[i] == a[i];
    }
    forall i | 0 <= i < |b| ensures b[i].0 != key {
      assert e[|a| + 1 + i] == b[i];
    }
  }

  // The finite map of a tree.
  function TreeMap(t: Tree): map<Str, nat> {
    MapOf(Inorder(t))
  }

  // Search and insertion seen on the finite map.
  lemma InsertIsMapUpdate(t: Tree, key: Str, meta: nat)
    requires t.Node? && Ordered(t) && Exact(t) && key !in TreeMap(t) && Insert(t, key, meta).Some?
    ensures var r := Insert(t, key, meta).value;
      Ordered(r) && Exact(r) && TreeMap(r) == TreeMap(t)[key := meta]
  {
    hide Insert, Sorted;
    LookupIsMap(Inorder(t), key);
    InsertAdds(t, key, meta);
    AddedIsMapUpdate(Inorder(t), key, meta);
  }

  lemma SearchIsMap(t: Tree, key: Str)
    requires Ordered(t)
    ensures Search(t, key) == if key in TreeMap(t) then Some(TreeMap(t)[key]) else None
  {
    SearchFinds(t, key);
    LookupIsMap(Inorder(t), key);
  }
}
