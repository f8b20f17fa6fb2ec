/** Removal on the linked AVL nodes, while no node below the root is rotated: the
    recursion on local copies, the exchange with the last key on the left, and
    the climb through the parent pointers. */
module AvlUnlink {
  import opened Bytes
  import opened Keys
  import opened AvlNode
  import opened Options
  import T = AvlTree
  import R = AvlRemove
  import B = AvlBalance

  // ----- the right spine of a subtree -----

  ghost function Depth(s: Shape): nat {
    if s.Nil? || s.right.Nil? then 0 else 1 + Depth(s.right)
  }

  // The subtree d steps to the right.
  ghost function Down(s: Shape, d: nat): (r: Shape)
    requires s.Fork? && d <= Depth(s)
    ensures r.Fork? && Depth(r) == Depth(s) - d
  {
    if d == 0 then s else Down(s.right, d - 1)
  }

  // The nodes of the spine above depth d, with their left subtrees.
  ghost function Upper(s: Shape, d: nat): set<Node>
    requires s.Fork? && d <= Depth(s)
  {
    if d == 0 then {} else {s.n} + Nodes(s.left) + Upper(s.right, d - 1)
  }

  // That part of the tree is linked as the shape says; heights are open.
  ghost predicate Above(s: Shape, d: nat, p: Node?)
    requires s.Fork? && d <= Depth(s)
    reads Upper(s, d)
  {
    d > 0 ==> Hinge(s, p) && s.n.right == s.right.n && Above(s.right, d - 1, s.n)
  }

  // A node of the spine with its contents, parent and left subtree.
  ghost predicate Hinge(s: Shape, p: Node?)
    requires s.Fork?
    reads s.n, Nodes(s.left)
  {
    && s.n.key == s.key && s.n.meta == s.meta && s.n.parent == p
    && s.n.left == Root(s.left) && Is(s.left, s.n) && s.n !in Nodes(s.left)
  }

  ghost function ParentAt(s: Shape, d: nat, p: Node?): Node?
    requires s.Fork? && d <= Depth(s)
  {
    if d == 0 then p else Down(s, d - 1).n
  }

  lemma {:induction false} SpineSplit(s: Shape, d: nat, p: Node?)
    requires Is(s, p) && s.Fork? && d <= Depth(s)
    ensures Above(s, d, p) && Is(Down(s, d), ParentAt(s, d, p))
    ensures Upper(s, d) !! Nodes(Down(s, d)) && Nodes(s) == Upper(s, d) + Nodes(Down(s, d))
  {
    if d > 0 {
      SpineSplit(s.right, d - 1, s.n);
    }
  }

  // The lowest hinge above depth d.
  lemma {:induction false} LastHinge(s: Shape, d: nat, p: Node?)
    requires s.Fork? && 0 < d <= Depth(s) && Above(s, d, p)
    ensures Above(s, d - 1, p) && Hinge(Down(s, d - 1), ParentAt(s, d - 1, p))
    ensures Down(s, d - 1).n.right == Down(s, d).n && Down(s, d - 1).right == Down(s, d)
    ensures Upper(s, d) == Upper(s, d - 1) + {Down(s, d - 1).n} + Nodes(Down(s, d - 1).left)
  {
    if d > 1 {
      LastHinge(s.right, d - 1, s.n);
    }
  }

  // Every node once.
  ghost predicate Tidy(s: Shape) {
    s.Fork? ==> Apart(s.n, s.left, s.right) && Tidy(s.left) && Tidy(s.right)
  }

  lemma {:induction false} IsTidy(s: Shape, p: Node?)
    requires Is(s, p)
    ensures Tidy(s)
  {
    if s.Fork? {
      IsTidy(s.left, s.n);
      IsTidy(s.right, s.n);
    }
  }

  lemma {:induction false} UpperApart(s: Shape, d: nat)
    requires Tidy(s) && s.Fork? && d < Depth(s)
    ensures Upper(s, d) !! {Down(s, d).n} + Nodes(Down(s, d).left)
    ensures Upper(s, d) !! Nodes(Down(s, d)) && Upper(s, d) + Nodes(Down(s, d)) == Nodes(s)
    ensures Apart(Down(s, d).n, Down(s, d).left, Down(s, d).right)
  {
    if d > 0 {
      UpperApart(s.right, d - 1);
    }
  }

  lemma {:induction false} DownNext(s: Shape, d: nat)
    requires s.Fork? && d < Depth(s)
    ensures Down(s, d).right.Fork? && Down(s, d).right == Down(s, d + 1)
  {
    if d > 0 {
      DownNext(s.right, d - 1);
    }
  }

  // ----- what the spine means for the trees -----

  lemma {:induction false} LastIs(s: Shape)
    requires s.Fork?
    ensures TreeOf(s).Node? && R.Last(TreeOf(s)) == TreeOf(Down(s, Depth(s)))
    ensures Down(s, Depth(s)).right.Nil?
  {
    if s.right.Fork? {
      LastIs(s.right);
    }
  }

  // No node of the spine is rotated on the way back up.
  ghost predicate Calm(s: Shape) {
    s.Fork? && s.right.Fork? && TreeOf(s).right.Node? && R.NoTurnOnSpine(TreeOf(s))
  }

  lemma {:induction false} CalmAt(s: Shape, d: nat)
    requires Calm(s) && d < Depth(s)
    ensures Calm(Down(s, d))
  {
    if d > 0 {
      CalmAt(s.right, d - 1);
    }
  }

  // One step of the climb: a node over its left subtree and what is left of
  // the right one.
  lemma DropLastStep(t: T.Tree, below: T.Tree)
    requires t.Node? && t.right.Node? && R.NoTurnOnSpine(t)
    requires if t.right.right.Leaf? then below == t.right.left else R.DropLast(t.right) == Some(below)
    ensures var u := T.Over(t.key, t.meta, t.left, below);
      T.MoveFor(u) == T.Stay && T.Rebalance(u) == Some(u) && R.DropLast(t) == Some(u)
  {
  }

  // What takes the place of the right subtree at depth d.
  ghost predicate Below(s: Shape, d: nat, r: Shape)
    requires s.Fork? && d < Depth(s)
  {
    var t := TreeOf(Down(s, d));
    t.Node? && t.right.Node? &&
    if t.right.right.Leaf? then TreeOf(r) == t.right.left else R.DropLast(t.right) == Some(TreeOf(r))
  }

  // The climb has the lowest `left` hinges before it; r is the subtree done.
  ghost predicate Climbing(n: Node, at: Node, s: Shape, left: nat, r: Shape)
    requires s.Fork? && left <= Depth(s)
    reads at, Nodes(r), Upper(s, left)
  {
    && Nodes(r) <= Nodes(s) && Nodes(r) !! Upper(s, left)
    && if left == 0 then at == n && Is(r, n) && Root(r) == s.n && TreeOf(s).Node? && TreeOf(s).right.Node?
                         && R.DropLast(TreeOf(s)) == Some(TreeOf(r))
       else
         && at == Down(s, left - 1).n && at.right == Root(r) && Is(r, at)
         && AboveHinge(s, left, n) && Below(s, left - 1, r)
  }

  ghost predicate AboveHinge(s: Shape, left: nat, p: Node?)
    requires s.Fork? && 0 < left <= Depth(s)
    reads Upper(s, left)
  {
    HingeInUpper(s, left);
    Above(s, left - 1, p) && Hinge(Down(s, left - 1), ParentAt(s, left - 1, p))
  }

  lemma {:induction false} HingeInUpper(s: Shape, left: nat)
    requires s.Fork? && 0 < left <= Depth(s)
    ensures Upper(s, left) == Upper(s, left - 1) + {Down(s, left - 1).n} + Nodes(Down(s, left - 1).left)
    ensures Upper(s, left) <= Nodes(s)
  {
    if left > 1 {
      HingeInUpper(s.right, left - 1);
    }
  }

  // One round of the climb.
  method ClimbStep(n: Node, at: Node, ghost s: Shape, ghost left: nat, ghost r: Shape) returns (up: Node, ghost q: Shape)
    requires s.Fork? && 0 < left <= Depth(s) && Tidy(s) && Calm(s) && n !in Nodes(s)
    requires Climbing(n, at, s, left, r)
    modifies Nodes(r), at, Nodes(Down(s, left - 1).left)
    ensures Climbing(n, up, s, left - 1, q)
  {
    hide Is, Nodes, TreeOf, Upper, Above, Hinge, Tidy, Calm, Down, Depth, Below, T.Rebalance, T.MoveFor;
    ghost var d := left - 1;
    ghost var D := Down(s, d);
    ghost var p := ParentAt(s, d, n);
    HingeParts(s, left, n);
    UpperApart(s, d);
    CalmAt(s, d);
    HingeInUpper(s, left);
    Exist(s);
    CalcHight(at, D.left, r);
    q := Fork(at, D.key, D.meta, D.left, r, at.hight);
    Parts(q, p);
    BelowStep(s, d, r);
    var top;
    ghost var q';
    top, q' := Rebalance(at, q, p);
    Parts(q, p);
    NextHinge(n, s, d, q);
    up := top.parent;
  }

  // A hinge done, the one above it is next.
  lemma NextHinge(n: Node, s: Shape, d: nat, q: Shape)
    requires s.Fork? && d < Depth(s) && Above(s, d, n) && Nodes(q) <= Nodes(s) && Nodes(q) !! Upper(s, d)
    requires Is(q, ParentAt(s, d, n)) && Root(q) == Down(s, d).n
    requires TreeOf(Down(s, d)).Node? && TreeOf(Down(s, d)).right.Node?
    requires R.DropLast(TreeOf(Down(s, d))) == Some(TreeOf(q))
    ensures ParentAt(s, d, n) != null && Climbing(n, ParentAt(s, d, n), s, d, q)
  {
    hide R.DropLast;
    if d > 0 {
      LastHinge(s, d, n);
      DownNext(s, d - 1);
      DownNext(s, d);
    }
  }

  lemma HingeParts(s: Shape, left: nat, n: Node)
    requires s.Fork? && 0 < left <= Depth(s) && AboveHinge(s, left, n)
    ensures var D := Down(s, left - 1);
      D.n.key == D.key && D.n.meta == D.meta && D.n.parent == ParentAt(s, left - 1, n)
      && D.n.left == Root(D.left) && Is(D.left, D.n) && D.n !in Nodes(D.left)
    ensures Above(s, left - 1, n)
  {
  }

  lemma BelowStep(s: Shape, d: nat, r: Shape)
    requires s.Fork? && d < Depth(s) && Below(s, d, r) && Calm(Down(s, d))
    ensures var D := Down(s, d);
      var u := T.Over(D.key, D.meta, TreeOf(D.left), TreeOf(r));
      T.MoveFor(u) == T.Stay && T.Rebalance(u) == Some(u)
      && TreeOf(D).Node? && TreeOf(D).right.Node? && R.DropLast(TreeOf(D)) == Some(u)
  {
    DropLastStep(TreeOf(Down(s, d)), TreeOf(r));
  }

  // The walk to the last node on the right.
  method LastOf(n: Node, ghost s: Shape, ghost p: Node?) returns (last: Node)
    requires Is(s, p) && s.Fork? && s.n == n
    ensures last == Down(s, Depth(s)).n && Is(Down(s, Depth(s)), ParentAt(s, Depth(s), p))
  {
    last := n;
    ghost var d: nat := 0;
    hide Is, Nodes, Upper, Above;
    while last.right != null
      invariant Is(s, p) && d <= Depth(s) && last == Down(s, d).n && Is(Down(s, d), ParentAt(s, d, p))
      decreases Depth(s) - d
    {
      Parts(Down(s, d), ParentAt(s, d, p));
      DepthIs(Down(s, d));
      DownNext(s, d);
      last := last.right;
      d := d + 1;
      SpineSplit(s, d, p);
    }
    Parts(Down(s, d), ParentAt(s, d, p));
    DepthIs(Down(s, d));
  }

  lemma DepthIs(s: Shape)
    requires s.Fork?
    ensures Depth(s) == 0 <==> s.right.Nil?
  {
  }

  lemma LastShape(s: Shape)
    requires s.Fork? && Depth(s) > 0
    ensures Down(s, Depth(s)).right.Nil? && Down(s, Depth(s) - 1).right == Down(s, Depth(s))
  {
    hide Down, Depth;
    DownNext(s, Depth(s) - 1);
    DepthIs(Down(s, Depth(s)));
  }

  lemma LastLeft(s: Shape)
    requires s.Fork? && Depth(s) > 0 && Tidy(s)
    ensures var k := Depth(s); var L, D := Down(s, k), Down(s, k - 1);
      L.right.Nil? && D.right == L && Tidy(L) && Below(s, k - 1, L.left)
    ensures Upper(s, Depth(s)) !! Nodes(Down(s, Depth(s)))
  {
    hide Down, Upper, Depth, Tidy, Below, TreeOf, Nodes;
    LastShape(s);
    UpperWhole(s, Depth(s));
    BelowLast(s, Depth(s) - 1);
  }

  lemma LastNodes(s: Shape)
    requires s.Fork? && Depth(s) > 0 && Tidy(s)
    ensures var k := Depth(s); var L, D := Down(s, k), Down(s, k - 1);
      L.n in Nodes(s) && Nodes(L.left) <= Nodes(s) && D.n in Nodes(s) && Nodes(L) == Nodes(L.left) + {L.n}
  {
    var k := Depth(s);
    hide Down, Upper, Depth, Tidy, Below, TreeOf, Nodes;
    LastLeft(s);
    UpperWhole(s, k);
    UpperWhole(s, k - 1);
    TreeOfParts(Down(s, k));
    TreeOfParts(Down(s, k - 1));
  }

  lemma BelowLast(s: Shape, d: nat)
    requires s.Fork? && d < Depth(s)
    requires Down(s, d).right.Fork? && Down(s, d).right.right.Nil?
    ensures Below(s, d, Down(s, d).right.left)
  {
    hide TreeOf, Down, Depth;
    var D := Down(s, d);
    TreeOfParts(D);
    TreeOfParts(D.right);
    NilIsLeaf(D.right.right);
  }

  lemma NilIsLeaf(s: Shape)
    ensures s.Nil? <==> TreeOf(s).Leaf?
  {
  }

  lemma {:induction false} UpperWhole(s: Shape, d: nat)
    requires Tidy(s) && s.Fork? && d <= Depth(s)
    ensures Upper(s, d) !! Nodes(Down(s, d)) && Upper(s, d) + Nodes(Down(s, d)) == Nodes(s) && Tidy(Down(s, d))
  {
    if d > 0 {
      UpperWhole(s.right, d - 1);
    }
  }

  // The last node leaves the spine; its left subtree takes its place.
  method Unlink(last: Node, ghost s: Shape, ghost n: Node) returns (at: Node)
    requires s.Fork? && Depth(s) > 0 && Tidy(s) && Above(s, Depth(s), n) && n !in Nodes(s) && TreeOf(s).Node?
    requires var L := Down(s, Depth(s));
      last == L.n && last.left == Root(L.left) && last.parent == ParentAt(s, Depth(s), n) && Is(L.left, last)
    modifies Nodes(s)
    ensures Climbing(n, at, s, Depth(s), Down(s, Depth(s)).left)
  {
    hide Is, Nodes, TreeOf, Upper, Above, Tidy, Calm, Down, Depth, Below;
    ghost var k := Depth(s);
    ghost var L := Down(s, k);
    ghost var D := Down(s, k - 1);
    LastHinge(s, k, n);
    UpperApart(s, k - 1);
    HingeInUpper(s, k);
    Exist(s);
    LastLeft(s);
    LastNodes(s);
    assert Is(D.left, D.n);
    at := last.parent;
    if last.left != null {
      Parts(L.left, last);
      assert L.left.n in Nodes(L.left) && L.left.n !in Nodes(D.left);
    }
    SetParent(last.left, at, L.left, last);
    at.right := last.left;
    assert Above(s, k - 1, n);
    assert Hinge(D, ParentAt(s, k - 1, n));
  }

  lemma LastIsFirst(s: Shape)
    requires s.Fork? && Tidy(s)
    ensures Down(s, Depth(s)).n == s.n <==> s.right.Nil?
    ensures if s.right.Nil? then Down(s, Depth(s)) == s else Depth(s) > 0 && TreeOf(s.right).Node?
    ensures s.right.Nil? <==> TreeOf(s.right).Leaf?
  {
    if s.right.Fork? {
      UpperWhole(s.right, Depth(s.right));
      assert Down(s, Depth(s)) == Down(s.right, Depth(s.right));
      assert Down(s, Depth(s)).n in Nodes(s.right);
    }
  }

  // The tree that stands at a node with two subtrees after the exchange with
  // the last key on its left, before its own rebalancing.
  ghost predicate CanExchange(t: T.Tree) {
    t.Node? && t.left.Node? && (t.left.right.Node? ==> R.NoTurnOnSpine(t.left) && R.DropLast(t.left).Some?)
  }

  ghost function Exchanged(t: T.Tree): T.Tree
    requires CanExchange(t)
  {
    var last := R.Last(t.left);
    T.Over(last.key, last.meta, if t.left.right.Leaf? then t.left.left else R.DropLast(t.left).value, t.right)
  }

  // The climb from the unlinked node's parent to n.
  method Climb(n: Node, from: Node, ghost s: Shape, ghost below: Shape) returns (ghost r: Shape)
    requires s.Fork? && Depth(s) > 0 && Tidy(s) && Calm(s) && n !in Nodes(s)
    requires Climbing(n, from, s, Depth(s), below)
    modifies Nodes(s)
    ensures Climbing(n, n, s, 0, r)
  {
    hide Is, Nodes, TreeOf, Upper, Above, Tidy, Calm, Down, Depth, Below, Climbing;
    var at := from;
    ghost var left: nat := Depth(s);
    r := below;
    while at != n
      invariant left <= Depth(s) && Climbing(n, at, s, left, r)
      decreases left
    {
      ClimbingMore(n, at, s, left, r);
      at, r := ClimbStep(n, at, s, left, r);
      left := left - 1;
    }
    ClimbingDone(n, s, left, r);
  }

  lemma ClimbingMore(n: Node, at: Node, s: Shape, left: nat, r: Shape)
    requires s.Fork? && left <= Depth(s) && Climbing(n, at, s, left, r) && at != n
    ensures left > 0 && at == Down(s, left - 1).n && at in Nodes(s) && Nodes(r) <= Nodes(s)
    ensures Nodes(Down(s, left - 1).left) <= Nodes(s)
  {
    HingeInUpper(s, left);
  }

  lemma ClimbingDone(n: Node, s: Shape, left: nat, r: Shape)
    requires s.Fork? && left <= Depth(s) && Climbing(n, n, s, left, r) && n !in Nodes(s)
    ensures left == 0
  {
    if left > 0 {
      HingeInUpper(s, left);
    }
  }

  // The last node, its contents exchanged already, leaves the subtree.
  method Lower(n: Node, last: Node, ghost s: Shape) returns (ghost r: Shape)
    requires s.Fork? && Tidy(s) && Above(s, Depth(s), n) && n !in Nodes(s) && n.left == s.n && TreeOf(s).Node?
    requires s.right.Fork? ==> Calm(s)
    requires var L := Down(s, Depth(s));
      last == L.n && last.left == Root(L.left) && last.parent == ParentAt(s, Depth(s), n) && Is(L.left, last)
    modifies Nodes(s), n`left
    ensures Is(r, n) && n.left == Root(r) && Nodes(r) <= Nodes(s)
    ensures if TreeOf(s).right.Leaf? then TreeOf(r) == TreeOf(s).left else R.DropLast(TreeOf(s)) == Some(TreeOf(r))
  {
    hide Is, Nodes, TreeOf, Upper, Above, Tidy, Calm, Down, Depth, Below;
    LastIsFirst(s);
    TreeOfParts(s);
    ghost var L := Down(s, Depth(s));
    if last == n.left {
      if L.left.Fork? {
        Parts(L.left, last);
      }
      n.left := last.left;
      SetParent(last.left, n, L.left, last);
      r := L.left;
    } else {
      var at := Unlink(last, s, n);
      r := Climb(n, at, s, L.left);
    }
  }

  lemma TreeOfParts(s: Shape)
    requires s.Fork?
    ensures TreeOf(s) == T.Node(s.key, s.meta, TreeOf(s.left), TreeOf(s.right), s.hight)
    ensures Nodes(s) == Nodes(s.left) + {s.n} + Nodes(s.right)
    ensures s.right.Nil? ==> Nodes(s) == Nodes(s.left) + {s.n}
  {
  }

  lemma ExchangedIs(t: T.Tree)
    requires CanExchange(t)
    ensures var u := Exchanged(t); u.Node? && u == T.Over(u.key, u.meta, u.left, u.right)
  {
  }

  // The exchange itself: the last node on the left gives its contents to n and
  // leaves the tree; r is what stays on the left.
  method Exchange(n: Node, ghost s: Shape, ghost p: Node?) returns (ghost r: Shape)
    requires Is(s, p) && s.Fork? && s.n == n && s.left.Fork? && s.right.Fork? && CanExchange(TreeOf(s))
    modifies Nodes(s)
    ensures Hung(n, Exchanged(TreeOf(s)).key, Exchanged(TreeOf(s)).meta, p, r, s.right)
    ensures TreeOf(r) == Exchanged(TreeOf(s)).left && TreeOf(s.right) == Exchanged(TreeOf(s)).right
    ensures Nodes(r) <= Nodes(s.left)
  {
    hide Is, Nodes, TreeOf, Upper, Above, Tidy, Down, Depth, Below, R.DropLast, R.Last, R.NoTurnOnSpine;
    Parts(s, p);
    Exist(s);
    IsTidy(s.left, n);
    LastIs(s.left);
    LastIsFirst(s.left);
    Parts(s.left, n);
    SpineSplit(s.left, Depth(s.left), n);
    ghost var L := Down(s.left, Depth(s.left));
    var last := LastOf(n.left, s.left, n);
    Parts(L, ParentAt(s.left, Depth(s.left), n));
    n.key, last.key := last.key, n.key;
    n.meta, last.meta := last.meta, n.meta;
    r := Lower(n, last, s.left);
  }

  // ----- removal -----

  lemma RemoveRight(t: T.Tree, key: Str)
    requires t.Node? && B.GoesRight(t, key) && R.NoTurnBelow(t, key)
    ensures R.NoTurn(t.right, key) && R.NoTurnBelow(t.right, key) && R.Remove(t.right, key).Some?
    ensures R.Pending(t, key) == Some(T.Over(t.key, t.meta, t.left, R.Remove(t.right, key).value))
  {
    R.NoTurnStays(t.right, key);
  }

  lemma RemoveLeft(t: T.Tree, key: Str)
    requires t.Node? && B.GoesLeft(t, key) && R.NoTurnBelow(t, key)
    ensures R.NoTurn(t.left, key) && R.NoTurnBelow(t.left, key) && R.Remove(t.left, key).Some?
    ensures R.Pending(t, key) == Some(T.Over(t.key, t.meta, R.Remove(t.left, key).value, t.right))
  {
    R.NoTurnStays(t.left, key);
  }

  lemma RemoveHere(t: T.Tree, key: Str)
    requires t.Node? && !B.GoesRight(t, key) && !B.GoesLeft(t, key) && R.NoTurnBelow(t, key) && R.Pending(t, key).Some?
    ensures t.left.Leaf? && t.right.Leaf? ==> R.Pending(t, key) == Some(T.Leaf)
    ensures t.left.Node? && t.right.Leaf? ==>
      R.Pending(t, key) == Some(T.Over(t.left.key, t.left.meta, t.left.left, t.left.right))
    ensures t.left.Leaf? && t.right.Node? ==>
      R.Pending(t, key) == Some(T.Over(t.right.key, t.right.meta, t.right.left, t.right.right))
    ensures t.left.Node? && t.right.Node? ==> CanExchange(t) && R.Pending(t, key) == Some(Exchanged(t))
  {
    hide R.DropLast, R.NoTurnOnSpine, R.Last;
  }

  lemma OnlyChild(s: Shape, p: Node?, c: Shape)
    requires Is(s, p) && s.Fork? && c.Fork? && ((c == s.left && s.right.Nil?) || (c == s.right && s.left.Nil?))
    ensures Is(c.left, c.n) && Is(c.right, c.n) && c.n.left == Root(c.left) && c.n.right == Root(c.right)
    ensures c.n.key == c.key && c.n.meta == c.meta && s.n.parent == p && c.n != s.n
    ensures Apart(s.n, c.left, c.right) && Apart(c.n, c.left, c.right)
    ensures c.n in Nodes(s) && s.n in Nodes(s) && Nodes(c.left) <= Nodes(s) && Nodes(c.right) <= Nodes(s)
    ensures c.left.Fork? ==> c.left.n in Nodes(c.left) && c.left.n !in Nodes(c.right)
    ensures c.right.Fork? ==> c.right.n in Nodes(c.right) && c.right.n !in Nodes(c.left)
  {
  }

  // The only child gives its contents and its subtrees to n.
  method TakeOver(n: Node, mid: Node, ghost s: Shape, ghost p: Node?, ghost c: Shape)
    requires Is(s, p) && s.Fork? && s.n == n && c.Fork? && mid == c.n
    requires (c == s.left && s.right.Nil?) || (c == s.right && s.left.Nil?)
    modifies Nodes(s)
    ensures Hung(n, c.key, c.meta, p, c.left, c.right) && Apart(n, c.left, c.right)
    ensures Nodes(c.left) + {n} + Nodes(c.right) <= Nodes(s)
  {
    hide Is, Nodes;
    OnlyChild(s, p, c);
    Exist(s);
    n.key, mid.key := mid.key, n.key;
    n.meta, mid.meta := mid.meta, n.meta;
    n.left := mid.left;
    SetParent(n.left, n, c.left, mid);
    n.right := mid.right;
    SetParent(n.right, n, c.right, mid);
  }

  lemma ChildrenDiffer(s: Shape, p: Node?)
    requires Is(s, p) && s.Fork?
    ensures s.n.right != null ==> s.n.left != s.n.right
  {
  }

  // A leaf unhooks itself from its parent, whose height is taken again.
  method Unhook(n: Node, ghost p: Node?, ghost right: bool)
    requires n.parent == p && (p != null ==> p != n && HooksOn(p, n, right))
    modifies if p == null then {} else {p}
    ensures p != null ==> HooksOn(p, null, right)
    ensures p != null ==> p.key == old(p.key) && p.meta == old(p.meta) && p.parent == old(p.parent)
    ensures p != null ==> if right then p.left == old(p.left) else p.right == old(p.right)
  {
    var last := n.parent;
    if last != null {
      if last.left == n {
        last.left := null;
      } else if last.right == n {
        last.right := null;
      }
      var a, b := Hight(last.left), Hight(last.right);
      last.hight := (if a > b then a else b) + 1;
    }
  }

  ghost predicate HooksOn(p: Node, n: Node?, right: bool)
    reads p
  {
    if right then p.right == n && (n != null ==> p.left != n) else p.left == n
  }

  ghost function Parent(p: Node?): set<Node> {
    if p == null then {} else {p}
  }

  // The key's own node, when it has a child: its contents are replaced and one
  // of the nodes below it leaves the tree.
  method TakeOut(n: Node, key: Str, ghost s: Shape, ghost p: Node?) returns (ghost q: Shape)
    requires Is(s, p) && s.Fork? && s.n == n && (s.left.Fork? || s.right.Fork?)
    requires TreeOf(s).Node? && !B.GoesRight(TreeOf(s), key) && !B.GoesLeft(TreeOf(s), key)
    requires R.NoTurnBelow(TreeOf(s), key) && R.Pending(TreeOf(s), key).Some?
    modifies Nodes(s)
    ensures Is(q, p) && q.Fork? && q.n == n && Nodes(q) <= Nodes(s)
    ensures R.Pending(TreeOf(s), key) == Some(TreeOf(q))
  {
    hide Is, Nodes, TreeOf, R.Pending, R.NoTurnBelow, CanExchange, Exchanged;
    Parts(s, p);
    NilIsLeaf(s.left);
    NilIsLeaf(s.right);
    RemoveHere(TreeOf(s), key);
    if s.left.Fork? {
      Parts(s.left, n);
    }
    if s.right.Fork? {
      Parts(s.right, n);
    }
    if n.left != null && n.right != null {
      ExchangedIs(TreeOf(s));
      var rr := Exchange(n, s, p);
      CalcHight(n, rr, s.right);
      q := Fork(n, n.key, n.meta, rr, s.right, n.hight);
    } else if n.left != null {
      TakeOver(n, n.left, s, p, s.left);
      CalcHight(n, s.left.left, s.left.right);
      q := Fork(n, s.left.key, s.left.meta, s.left.left, s.left.right, n.hight);
    } else {
      TakeOver(n, n.right, s, p, s.right);
      CalcHight(n, s.right.left, s.right.right);
      q := Fork(n, s.right.key, s.right.meta, s.right.left, s.right.right, n.hight);
    }
    Parts(q, p);
  }

  // avl_remove_node, while no node below the root is rotated: the linked nodes
  // make the tree that removal gives, every child, parent and height agreeing,
  // and the parent's link leads to it.
  method Remove(n: Node?, key: Str, ghost s: Shape, ghost p: Node?, ghost right: bool)
    returns (top: Node?, ok: bool, ghost r: Shape)
    requires Is(s, p) && Root(s) == n
    requires R.NoTurnBelow(TreeOf(s), key) && R.Remove(TreeOf(s), key).Some?
    requires p != null ==> p !in Nodes(s) && HooksOn(p, n, right) && R.NoTurn(TreeOf(s), key)
    modifies Nodes(s), Parent(p)
    ensures ok <==> s.Fork?
    ensures Is(r, p) && Root(r) == top && Nodes(r) <= Nodes(s)
    ensures TreeOf(r) == R.Remove(TreeOf(s), key).value
    ensures p != null ==> HooksOn(p, top, right)
    ensures p != null ==> p.key == old(p.key) && p.meta == old(p.meta) && p.parent == old(p.parent)
    ensures p != null ==> if right then p.left == old(p.left) else p.right == old(p.right)
    decreases s
  {
    hide Is, Nodes, TreeOf, R.Pending, R.NoTurnBelow, T.Rebalance, T.MoveFor, CanExchange, Exchanged;
    NilIsLeaf(s);
    if n == null {
      RemoveNothing(key);
      return null, false, s;
    }
    ok := true;
    Parts(s, p);
    Exist(s);
    ChildrenDiffer(s, p);
    ghost var q: Shape;
    if KeyComp(n.key, key) > 0 {
      RemoveRight(TreeOf(s), key);
      var mid, below, rr := Remove(n.right, key, s.right, n, true);
      CalcHight(n, s.left, rr);
      q := Fork(n, s.key, s.meta, s.left, rr, n.hight);
    } else if KeyComp(n.key, key) < 0 {
      RemoveLeft(TreeOf(s), key);
      var mid, below, rr := Remove(n.left, key, s.left, n, false);
      CalcHight(n, rr, s.right);
      q := Fork(n, s.key, s.meta, rr, s.right, n.hight);
    } else {
      NilIsLeaf(s.left);
      NilIsLeaf(s.right);
      if n.left == null && n.right == null {
        RemoveHere(TreeOf(s), key);
        Unhook(n, p, right);
        NilIs(p);
        return null, true, Nil;
      }
      q := TakeOut(n, key, s, p);
    }
    Parts(q, p);
    top, r := Rebalance(n, q, p);
  }

  lemma RemoveNothing(key: Str)
    ensures R.Remove(T.Leaf, key) == Some(T.Leaf)
  {
  }

  lemma NilIs(p: Node?)
    ensures Is(Nil, p) && Nodes(Nil) == {} && TreeOf(Nil) == T.Leaf && T.Rebalance(T.Leaf) == Some(T.Leaf)
  {
  }
}
