/** When insertion keeps the trees balanced, and what balance is worth. */
module AvlBalance {
  import opened Bits
  import opened Bytes
  import opened Keys
  import opened AvlTree
  import opened Options

  predicate GoesRight(t: Tree, key: Str)
    requires t.Node?
  {
    KeyComp(t.key, key) > 0
  }

  predicate GoesLeft(t: Tree, key: Str)
    requires t.Node?
  {
    KeyComp(t.key, key) < 0
  }

  // An insertion here makes the tree higher.
  predicate Grows(t: Tree, key: Str) {
    t.Leaf? || (Balance(t) == 0 &&
      if GoesRight(t, key) then Grows(t.right, key) else GoesLeft(t, key) && Grows(t.left, key))
  }

  // On the way to the key's place there is a node that leans right, the new
  // key makes its right child lean left, and its left child does not lean left
  // itself: the double rotation is needed there, and the test for it fails.
  predicate MissedTurn(t: Tree, key: Str) {
    t.Node? &&
    if GoesRight(t, key) then MissedTurn(t.right, key) || TurnNeeded(t, key)
    else GoesLeft(t, key) && MissedTurn(t.left, key)
  }

  predicate TurnNeeded(t: Tree, key: Str)
    requires t.Node?
  {
    && Balance(t) == 1 && t.right.Node? && Grows(t.right, key)
    && GoesLeft(t.right, key) && Balance(t.left) != -1
  }

  // What is true of a subtree in which a turn was missed.
  predicate Stubborn(r: Tree) {
    && r.Node? && !Balanced(r) && -2 <= Balance(r) <= 2
    && (Balance(r) == -2 ==>
          r.left.Node? && !Balanced(r.left) && (Balance(r.left) == -2 || Balance(r.left) == 2)
          && (Balance(r.left) == -2 ==> !Balanced(r.left.left)))
  }

  // How the height and the lean of a subtree change by an insertion into it.
  predicate Grown(t: Tree, r: Tree) {
    && r.Node? && Exact(r)
    && Hight(t) <= Hight(r) <= Hight(t) + 1
    && (Hight(r) == Hight(t) + 1 && t.Node? ==> Balance(r) != 0)
  }

  lemma LeanBounds(t: Tree)
    requires t.Node? && Exact(t)
    ensures Hight(t.left) >= 0 && Hight(t.right) >= 0
    ensures t.left.Node? <==> Hight(t.left) >= 1
    ensures t.right.Node? <==> Hight(t.right) >= 1
    ensures Exact(t.left) && Exact(t.right)
  {
    HightPositive(t.left);
    HightPositive(t.right);
  }

  // ----- one step of the way back up, on the right -----

  lemma OverLeans(key: Str, meta: nat, l: Tree, r: Tree)
    requires Exact(l) && Exact(r)
    ensures var u := Over(key, meta, l, r);
      Exact(u) && Balance(u) == Hight(r) - Hight(l) && Hight(u) == Max(Hight(l), Hight(r)) + 1
      && (Balanced(u) <==> Balanced(l) && Balanced(r) && -1 <= Balance(u) <= 1)
  {
  }

  // A left rotation at a node whose right child leans right by one.
  lemma LeftMoveLeans(u: Tree)
    requires u.Node? && Exact(u) && Balance(u) == 2 && Balance(u.right) == 1
    ensures u.right.Node? && var v := LeftMove(u);
      Exact(v) && Balance(v) == 0 && Hight(v) == Hight(u) - 1
      && (Balanced(v) <==> Balanced(u.left) && Balanced(u.right))
  {
    LeanBounds(u);
    LeanBounds(u.right);
    hide Exact, Balanced;
    var r := u.right;
    BalancedParts(r);
    var low := Over(u.key, u.meta, u.left, r.left);
    OverLeans(u.key, u.meta, u.left, r.left);
    OverLeans(r.key, r.meta, low, r.right);
    ExactHight(u);
    ExactHight(r);
  }

  lemma ExactHight(t: Tree)
    requires t.Node? && Exact(t)
    ensures Hight(t) == Max(Hight(t.left), Hight(t.right)) + 1
  {
  }

  lemma BalancedParts(t: Tree)
    requires t.Node?
    ensures Balanced(t) <==> Balanced(t.left) && Balanced(t.right) && -1 <= Balance(t) <= 1
  {
  }

  lemma RightMoveLeans(u: Tree)
    requires u.Node? && Exact(u) && Balance(u) == -2 && Balance(u.left) == -1
    ensures u.left.Node? && var v := RightMove(u);
      Exact(v) && Balance(v) == 0 && Hight(v) == Hight(u) - 1
      && (Balanced(v) <==> Balanced(u.left) && Balanced(u.right))
  {
    LeanBounds(u);
    LeanBounds(u.left);
    hide Exact, Balanced;
    var l := u.left;
    BalancedParts(l);
    var low := Over(u.key, u.meta, l.right, u.right);
    OverLeans(u.key, u.meta, l.right, u.right);
    OverLeans(l.key, l.meta, l.left, low);
    ExactHight(u);
    ExactHight(l);
  }

  // The double rotation at a node whose left child leans right by one.
  lemma LeftRightLeans(u: Tree)
    requires u.Node? && Exact(u) && Balance(u) == -2 && Balance(u.left) == 1
    ensures u.left.Node? && u.left.right.Node? && var v := RightMove(u.(left := LeftMove(u.left)));
      Exact(v) && Balance(v) == 0 && Hight(v) == Hight(u) - 1
      && (Balanced(v) <==> Balanced(u.left) && Balanced(u.right))
  {
    LeanBounds(u);
    var l := u.left;
    LeanBounds(l);
    LeanBounds(l.right);
    hide Exact, Balanced;
    var mid := l.right;
    BalancedParts(l);
    BalancedParts(mid);
    ExactHight(u);
    ExactHight(l);
    ExactHight(mid);
    OverLeans(l.key, l.meta, l.left, mid.left);
    OverLeans(u.key, u.meta, mid.right, u.right);
    OverLeans(mid.key, mid.meta, Over(l.key, l.meta, l.left, mid.left), Over(u.key, u.meta, mid.right, u.right));
  }

  // The other double rotation, made when the left child leans left by one.
  ghost predicate TurnsRightLeft(u: Tree) {
    && u.Node? && Exact(u) && Balance(u) == 2 && Balance(u.left) == -1
    && u.right.Node? && -2 <= Balance(u.right) <= 2 && Balance(u.right) != 1
    && (Balance(u.right) == 0 ==> u.right.right.Node?)
  }

  lemma RightLeftLeans(u: Tree)
    requires TurnsRightLeft(u)
    ensures u.right.left.Node?
    ensures var v := LeftMove(u.(right := RightMove(u.right)));
      Exact(v) && -1 <= Balance(v) <= 1 && Hight(u) - 1 <= Hight(v) <= Hight(u)
      && (Hight(v) == Hight(u) ==> Balance(v) == 1)
      && (Balance(u.right) == -1 ==> Hight(v) == Hight(u) - 1)
  {
    LeanBounds(u);
    LeanBounds(u.left);
    var r := u.right;
    LeanBounds(r);
    var mid := r.left;
    LeanBounds(mid);
    hide Exact, Balanced;
    ExactHight(u);
    ExactHight(u.left);
    ExactHight(r);
    ExactHight(mid);
    OverLeans(u.key, u.meta, u.left, mid.left);
    OverLeans(r.key, r.meta, mid.right, r.right);
    OverLeans(mid.key, mid.meta, Over(u.key, u.meta, u.left, mid.left), Over(r.key, r.meta, mid.right, r.right));
  }

  // It balances what was balanced below, and does not repair a missed turn.
  lemma RightLeftBalances(u: Tree)
    requires TurnsRightLeft(u)
    ensures u.right.left.Node?
    ensures var v := LeftMove(u.(right := RightMove(u.right)));
      (Balance(u.right) == -1 ==> (Balanced(v) <==> Balanced(u.left) && Balanced(u.right)))
      && (Balance(u.right) == 0 && Balanced(u.left) && Balanced(u.right) ==>
            (Balanced(v) <==> Balance(u.right.left) != -1))
      && (Balanced(u.left) && Stubborn(u.right) ==> !Balanced(v))
  {
    LeanBounds(u);
    LeanBounds(u.left);
    var r := u.right;
    LeanBounds(r);
    var mid := r.left;
    LeanBounds(mid);
    BalancedParts(r);
    BalancedParts(mid);
    hide Exact, Balanced;
    ExactHight(u);
    ExactHight(u.left);
    ExactHight(r);
    ExactHight(mid);
    OverLeans(u.key, u.meta, u.left, mid.left);
    OverLeans(r.key, r.meta, mid.right, r.right);
    OverLeans(mid.key, mid.meta, Over(u.key, u.meta, u.left, mid.left), Over(r.key, r.meta, mid.right, r.right));
  }

  // Out of balance by two in a way that the four tests do not see, or that the
  // second double rotation does not put right.
  predicate Uncovered(u: Tree)
    requires u.Node?
  {
    || (Balance(u) == -2 && Balance(u.left) == 0)
    || (Balance(u) == 2 && Balance(u.right) == -1 && Balance(u.left) != -1)
    || (Balance(u) == 2 && Balance(u.right) == 0 && LeavesTilt(u))
  }

  predicate LeavesTilt(u: Tree)
    requires u.Node?
  {
    Balance(u.left) != -1 || u.right.Leaf? || Balance(u.right.left) == -1
  }

  // Rebalancing a node over balanced subtrees, out of balance by two at most,
  // restores balance in every other case and only there.
  lemma RebalanceRestoresIff(u: Tree)
    requires u.Node? && Exact(u) && Balanced(u.left) && Balanced(u.right) && -2 <= Balance(u) <= 2
    ensures Rebalance(u).Some?
    ensures Balanced(Rebalance(u).value) <==> !Uncovered(u)
  {
    LeanBounds(u);
    BalancedParts(u);
    if u.left.Node? {
      BalancedParts(u.left);
      LeanBounds(u.left);
    }
    if u.right.Node? {
      BalancedParts(u.right);
      LeanBounds(u.right);
    }
    ExactHight(u);
    hide Exact, Balanced;
    match MoveFor(u)
    case Stay =>
    case Right => RightMoveLeans(u);
    case Left => LeftMoveLeans(u);
    case LeftRight => LeftRightLeans(u);
    case RightLeft =>
      ExactHight(u.left);
      ExactHight(u.right);
      RightLeftBalances(u);
  }

  // ----- one step of the way back up -----

  // The step at t whose right subtree became r; both were and are balanced.
  lemma GoodRight(t: Tree, r: Tree)
    requires t.Node? && Exact(t) && Balanced(t) && Grown(t.right, r) && Balanced(r)
    requires Hight(r) == Hight(t.right) + 1 && t.right.Leaf? ==> Balance(r) == 0
    ensures var u := Over(t.key, t.meta, t.left, r);
      Rebalance(u).Some? && var v := Rebalance(u).value;
      var grew := Hight(r) == Hight(t.right) + 1;
      Grown(t, v) && (if grew && Balance(t) == 1 && Balance(r) == -1 && Balance(t.left) != -1
                      then Stubborn(v) && Hight(v) == Hight(t) + 1
                      else Balanced(v) && (Hight(v) == Hight(t) + 1 <==> grew && Balance(t) == 0))
      && (grew && Balance(t) == 0 ==> Balance(v) == 1)
  {
    LeanBounds(t);
    BalancedParts(t);
    ExactHight(t);
    var u := Over(t.key, t.meta, t.left, r);
    OverLeans(t.key, t.meta, t.left, r);
    hide Exact, Balanced, RightMove, LeftMove;
    match MoveFor(u)
    case Stay => BalancedParts(r);
    case Right =>
    case LeftRight =>
    case Left => LeftMoveLeans(u);
    case RightLeft =>
      BalancedParts(r);
      RightLeftLeans(u);
      RightLeftBalances(u);
  }

  // The step at t whose left subtree became l; both were and are balanced.
  lemma GoodLeft(t: Tree, l: Tree)
    requires t.Node? && Exact(t) && Balanced(t) && Grown(t.left, l) && Balanced(l)
    requires Hight(l) == Hight(t.left) + 1 && t.left.Leaf? ==> Balance(l) == 0
    ensures var u := Over(t.key, t.meta, l, t.right);
      Rebalance(u).Some? && var v := Rebalance(u).value;
      var grew := Hight(l) == Hight(t.left) + 1;
      Grown(t, v) && Balanced(v) && (Hight(v) == Hight(t) + 1 <==> grew && Balance(t) == 0)
      && (grew && Balance(t) == 0 ==> Balance(v) == -1)
  {
    LeanBounds(t);
    BalancedParts(t);
    ExactHight(t);
    var u := Over(t.key, t.meta, l, t.right);
    OverLeans(t.key, t.meta, l, t.right);
    hide Exact, Balanced, RightMove, LeftMove;
    match MoveFor(u)
    case Stay => BalancedParts(l);
    case Right => RightMoveLeans(u);
    case LeftRight => LeftRightLeans(u);
    case Left =>
    case RightLeft =>
  }

  // A turn missed below is not made up for above.
  lemma StubbornRight(t: Tree, r: Tree)
    requires t.Node? && Exact(t) && Balanced(t) && t.right.Node? && Grown(t.right, r) && Stubborn(r)
    ensures var u := Over(t.key, t.meta, t.left, r);
      Rebalance(u).Some? && Grown(t, Rebalance(u).value) && Stubborn(Rebalance(u).value)
  {
    LeanBounds(t);
    BalancedParts(t);
    ExactHight(t);
    LeanBounds(r);
    var u := Over(t.key, t.meta, t.left, r);
    OverLeans(t.key, t.meta, t.left, r);
    hide Exact, Balanced, RightMove, LeftMove;
    match MoveFor(u)
    case Stay =>
    case Right =>
    case LeftRight =>
    case Left => LeftMoveLeans(u);
    case RightLeft =>
      RightLeftLeans(u);
      RightLeftBalances(u);
  }

  lemma StubbornLeft(t: Tree, l: Tree)
    requires t.Node? && Exact(t) && Balanced(t) && t.left.Node? && Grown(t.left, l) && Stubborn(l)
    ensures var u := Over(t.key, t.meta, l, t.right);
      Rebalance(u).Some? && Grown(t, Rebalance(u).value) && Stubborn(Rebalance(u).value)
  {
    LeanBounds(t);
    BalancedParts(t);
    ExactHight(t);
    LeanBounds(l);
    var u := Over(t.key, t.meta, l, t.right);
    OverLeans(t.key, t.meta, l, t.right);
    hide Exact, Balanced, RightMove, LeftMove;
    match MoveFor(u)
    case Stay =>
    case Right => RightMoveLeans(u);
    case LeftRight => LeftRightLeans(u);
    case Left =>
    case RightLeft =>
  }

  // ----- insertion -----

  lemma {:induction false} InsertShape(t: Tree, key: Str, meta: nat)
    requires t.Node? && Exact(t) && Balanced(t)
    ensures Insert(t, key, meta).Some? && var v := Insert(t, key, meta).value;
      Grown(t, v)
      && (if MissedTurn(t, key) then Stubborn(v)
          else Balanced(v) && (Hight(v) == Hight(t) + 1 <==> Grows(t, key)))
      && (Grows(t, key) && !MissedTurn(t, key) ==> Balance(v) == if GoesRight(t, key) then 1 else -1)
    decreases t
  {
    LeanBounds(t);
    BalancedParts(t);
    SingleShape(key, meta);
    hide Exact, Balanced, Rebalance, Stubborn;
    if GoesRight(t, key) {
      if t.right.Node? {
        InsertShape(t.right, key, meta);
      }
      var r := if t.right.Node? then Insert(t.right, key, meta).value else Single(key, meta);
      if MissedTurn(t.right, key) {
        StubbornRight(t, r);
      } else {
        GoodRight(t, r);
      }
    } else if GoesLeft(t, key) {
      if t.left.Node? {
        InsertShape(t.left, key, meta);
      }
      var l := if t.left.Node? then Insert(t.left, key, meta).value else Single(key, meta);
      if MissedTurn(t.left, key) {
        StubbornLeft(t, l);
      } else {
        GoodLeft(t, l);
      }
    } else {
      SameShape(t);
    }
  }

  lemma SingleShape(key: Str, meta: nat)
    ensures Grown(Leaf, Single(key, meta)) && Balanced(Single(key, meta)) && Balance(Single(key, meta)) == 0
    ensures Hight(Single(key, meta)) == 1
  {
  }

  lemma SameShape(t: Tree)
    requires t.Node? && Exact(t)
    ensures Grown(t, t)
  {
  }

  // Inserting into a balanced tree never follows a null pointer, and leaves it
  // balanced exactly when no turn is missed on the way.
  lemma InsertBalancedIff(t: Tree, key: Str, meta: nat)
    requires t.Node? && Exact(t) && Balanced(t)
    ensures Insert(t, key, meta).Some?
    ensures Balanced(Insert(t, key, meta).value) <==> !MissedTurn(t, key)
  {
    InsertShape(t, key, meta);
  }

  // Which lean makes which turn, whatever the subtrees are: only a lean of two, to
  // either side, and no turn where the child on that side is even; and of a node
  // that leans right, either child can call for a double turn, the left one by
  // leaning left.
  lemma TurnsAre(t: Tree)
    requires t.Node?
    ensures MoveFor(t) == Right <==> Hight(t.left) == Hight(t.right) + 2 && Balance(t.left) == -1
    ensures MoveFor(t) == LeftRight <==> Hight(t.left) == Hight(t.right) + 2 && Balance(t.left) == 1
    ensures MoveFor(t) == Left <==> Hight(t.right) == Hight(t.left) + 2 && Balance(t.right) == 1
    ensures MoveFor(t) == RightLeft <==>
      Hight(t.right) == Hight(t.left) + 2 && Balance(t.right) != 1 && Balance(t.left) == -1
  {
  }

  // Three keys are enough: the first, a later one, then one in between.
  lemma ZigZagIsMissed(m: nat)
    ensures var t := Over([97], m, Leaf, Single([99], m));
      Exact(t) && Balanced(t) && MissedTurn(t, [98])
  {
    var t := Over([97], m, Leaf, Single([99], m));
    assert KeyComp([97], [98]) == 1 && KeyComp([99], [98]) == -1;
    assert Balance(t) == 1 && Balance(t.right) == 0;
    assert Grows(t.right.left, [98]) && Grows(t.right, [98]);
    assert TurnNeeded(t, [98]);
  }

  // ----- what balance is worth -----

  function Size(t: Tree): nat {
    if t.Leaf? then 0 else Size(t.left) + 1 + Size(t.right)
  }

  function Fib(n: nat): nat {
    if n < 2 then n else Fib(n - 1) + Fib(n - 2)
  }

  // Comparisons made by a search.
  function Steps(t: Tree, key: Str): nat {
    if t.Leaf? then 0
    else if GoesRight(t, key) then 1 + Steps(t.right, key)
    else if GoesLeft(t, key) then 1 + Steps(t.left, key)
    else 1
  }

  lemma {:induction false} FibMonotone(m: nat, n: nat)
    requires m <= n
    ensures Fib(m) <= Fib(n)
  {
    if m < n {
      FibMonotone(m, n - 1);
      assert n >= 2 ==> Fib(n) == Fib(n - 1) + Fib(n - 2);
    }
  }

  // A balanced tree of height h has at least Fib(h + 2) - 1 nodes.
  lemma {:induction false} BalancedIsLarge(t: Tree)
    requires Exact(t) && Balanced(t)
    ensures Hight(t) >= 0 && Size(t) + 1 >= Fib(Hight(t) + 2)
  {
    HightPositive(t);
    if t.Node? {
      LeanBounds(t);
      ExactHight(t);
      BalancedIsLarge(t.left);
      BalancedIsLarge(t.right);
      FibPair(Hight(t.left), Hight(t.right));
    }
  }

  lemma FibPair(l: nat, r: nat)
    requires -1 <= r - l <= 1
    ensures Fib(l + 2) + Fib(r + 2) >= Fib(Max(l, r) + 3)
  {
    var h := Max(l, r);
    FibMonotone(h + 1, l + 2);
    FibMonotone(h + 1, r + 2);
    assert Fib(h + 3) == Fib(h + 2) + Fib(h + 1);
  }

  lemma {:induction false} FibGrows(n: nat)
    ensures Fib(2 * n + 2) >= Pow2(n)
  {
    if n > 0 {
      FibGrows(n - 1);
      assert Fib(2 * n + 2) == Fib(2 * n + 1) + Fib(2 * n);
      assert Fib(2 * n + 1) == Fib(2 * n) + Fib(2 * n - 1);
    }
  }

  lemma {:induction false} StepsWithinHight(t: Tree, key: Str)
    requires Exact(t)
    ensures Steps(t, key) <= Hight(t)
  {
    HightPositive(t);
    if t.Node? {
      StepsWithinHight(t.left, key);
      StepsWithinHight(t.right, key);
    }
  }

  // A search in a balanced tree of n keys makes at most 2 log2(n + 1) + 1
  // comparisons.
  lemma SearchIsLogarithmic(t: Tree, key: Str)
    requires Exact(t) && Balanced(t)
    ensures Pow2(Steps(t, key) / 2) <= Size(t) + 1
  {
    StepsWithinHight(t, key);
    BalancedIsLarge(t);
    var n := Steps(t, key) / 2;
    FibGrows(n);
    FibMonotone(2 * n + 2, Hight(t) + 2);
  }
}
