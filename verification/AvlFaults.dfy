/** When insertion and removal follow a null pointer: in trees that are no longer
    balanced, the double rotation can be tried at a node that does not allow it. */
module AvlFaults {
  import opened Bytes
  import opened Keys
  import opened AvlTree
  import opened AvlBalance
  import opened AvlRemove
  import opened Options

  // The right child is two higher and has no left child, and the left child,
  // the one the test looks at, leans left by one.
  predicate Stuck(u: Tree) {
    u.Node? && Balance(u) == 2 && Balance(u.left) == -1 && u.right.Node? && u.right.left.Leaf?
  }

  // Of the five cases only the last can meet a null pointer, and only at a right
  // child that is far out of balance itself.
  lemma RebalanceFaultsIff(u: Tree)
    requires Exact(u)
    ensures Rebalance(u) == None <==> Stuck(u)
    ensures Stuck(u) ==> Balance(u.right) >= 3
  {
    if u.Node? {
      LeanBounds(u);
      if u.left.Node? {
        LeanBounds(u.left);
      }
      if u.right.Node? {
        LeanBounds(u.right);
      }
    }
  }

  // ----- insertion -----

  // The subtree that the key goes into, with the key in it.
  function Below(t: Tree, key: Str, meta: nat): Option<Tree> {
    if t.Leaf? then Some(Single(key, meta)) else Insert(t, key, meta)
  }

  // A node on the way is stuck when the recursion comes back to it.
  predicate StuckOnWay(t: Tree, key: Str, meta: nat)
    decreases t
  {
    t.Node? && (
      if GoesRight(t, key) then StuckOnWay(t.right, key, meta) || StuckWithRight(t, t.left, Below(t.right, key, meta))
      else GoesLeft(t, key) && (StuckOnWay(t.left, key, meta) || StuckWithLeft(t, Below(t.left, key, meta), t.right)))
  }

  predicate StuckWithRight(t: Tree, left: Tree, grown: Option<Tree>)
    requires t.Node?
  {
    grown.Some? && Stuck(Over(t.key, t.meta, left, grown.value))
  }

  predicate StuckWithLeft(t: Tree, grown: Option<Tree>, right: Tree)
    requires t.Node?
  {
    grown.Some? && Stuck(Over(t.key, t.meta, grown.value, right))
  }

  // Heights stay exact whatever the tree looks like, and the insertion follows
  // a null pointer exactly at a stuck node.
  lemma {:induction false} InsertFaultsIff(t: Tree, key: Str, meta: nat)
    requires t.Node? && Exact(t)
    ensures Insert(t, key, meta) == None <==> StuckOnWay(t, key, meta)
    ensures Insert(t, key, meta).Some? ==> Exact(Insert(t, key, meta).value)
    decreases t
  {
    hide Rebalance, Stuck;
    LeanBounds(t);
    if GoesRight(t, key) {
      if t.right.Node? {
        InsertFaultsIff(t.right, key, meta);
      }
      var r := if t.right.Node? then Insert(t.right, key, meta) else Some(Single(key, meta));
      if r.Some? {
        BackUp(t.key, t.meta, t.left, r.value);
      }
    } else if GoesLeft(t, key) {
      if t.left.Node? {
        InsertFaultsIff(t.left, key, meta);
      }
      var l := if t.left.Node? then Insert(t.left, key, meta) else Some(Single(key, meta));
      if l.Some? {
        BackUp(t.key, t.meta, l.value, t.right);
      }
    }
  }

  lemma BackUp(key: Str, meta: nat, l: Tree, r: Tree)
    requires Exact(l) && Exact(r)
    ensures var u := Over(key, meta, l, r);
      (Rebalance(u) == None <==> Stuck(u)) && (Rebalance(u).Some? ==> Exact(Rebalance(u).value))
  {
    hide Rebalance, Stuck;
    var u := Over(key, meta, l, r);
    OverLeans(key, meta, l, r);
    RebalanceFaultsIff(u);
    if Rebalance(u).Some? {
      RebalanceKeeps(u);
    }
  }

  // ----- removal -----

  predicate StuckOnSpine(n: Tree)
    requires n.Node? && n.right.Node?
    decreases n
  {
    if n.right.right.Leaf? then Stuck(Over(n.key, n.meta, n.left, n.right.left))
    else StuckOnSpine(n.right) || StuckWithRight(n, n.left, DropLast(n.right))
  }

  // A node below the root is stuck on the way back.
  predicate StuckBelow(t: Tree, key: Str)
    decreases t, 0
  {
    t.Node? &&
    if GoesRight(t, key) then StuckAt(t.right, key)
    else if GoesLeft(t, key) then StuckAt(t.left, key)
    else t.left.Node? && t.left.right.Node? && t.right.Node? && StuckOnSpine(t.left)
  }

  predicate StuckAt(t: Tree, key: Str)
    decreases t, 1
  {
    StuckBelow(t, key) || (Pending(t, key).Some? && Stuck(Pending(t, key).value))
  }

  // A turn and what stays behind it, over exact subtrees.
  lemma TurnFaultsIff(u: Tree)
    requires Exact(u)
    ensures Turned(u) == None <==> Stuck(u)
    ensures Turned(u).Some? ==> Exact(Turned(u).value.stay)
  {
    RebalanceFaultsIff(u);
    if u.Node? && Turned(u).Some? {
      hide Turned;
      ExactPartsOf(u);
      StayOfTurn(u);
    }
  }

  lemma ExactPartsOf(u: Tree)
    requires u.Node? && Exact(u)
    ensures u.left.Node? ==> Exact(u.left.left) && Exact(u.left.right)
    ensures u.right.Node? ==> Exact(u.right.left) && Exact(u.right.right)
  {
  }

  lemma {:induction false} SpineFaultsIff(n: Tree)
    requires n.Node? && n.right.Node? && Exact(n)
    ensures DropLast(n) == None <==> StuckOnSpine(n)
    ensures DropLast(n).Some? ==> Exact(DropLast(n).value)
    decreases n
  {
    hide Turned, Stuck;
    LeanBounds(n);
    LeanBounds(n.right);
    if n.right.right.Node? {
      SpineFaultsIff(n.right);
    }
    var r := if n.right.right.Leaf? then Some(n.right.left) else DropLast(n.right);
    if r.Some? {
      OverLeans(n.key, n.meta, n.left, r.value);
      TurnFaultsIff(Over(n.key, n.meta, n.left, r.value));
    }
  }

  lemma {:induction false} PendingFaultsIff(t: Tree, key: Str)
    requires Exact(t)
    ensures Pending(t, key) == None <==> StuckBelow(t, key)
    ensures Pending(t, key).Some? ==> Exact(Pending(t, key).value)
    decreases t, 0
  {
    hide Turned, Stuck, DropLast;
    if t.Node? {
      LeanBounds(t);
      if GoesRight(t, key) {
        StaysFaultsIff(t.right, key);
      } else if GoesLeft(t, key) {
        StaysFaultsIff(t.left, key);
      } else if t.left.Node? && t.right.Node? {
        LeanBounds(t.left);
        if t.left.right.Node? {
          SpineFaultsIff(t.left);
        }
      }
    }
  }

  lemma {:induction false} StaysFaultsIff(t: Tree, key: Str)
    requires Exact(t)
    ensures Stays(t, key) == None <==> StuckAt(t, key)
    ensures Stays(t, key).Some? ==> Exact(Stays(t, key).value)
    decreases t, 1
  {
    hide Turned;
    PendingFaultsIff(t, key);
    if Pending(t, key).Some? {
      TurnFaultsIff(Pending(t, key).value);
    }
  }

  // The removal follows a null pointer exactly at a stuck node.
  lemma RemoveFaultsIff(t: Tree, key: Str)
    requires Exact(t)
    ensures Remove(t, key) == None <==> StuckAt(t, key)
    ensures Remove(t, key).Some? ==> Exact(Remove(t, key).value)
  {
    hide Rebalance, Stuck;
    PendingFaultsIff(t, key);
    if Pending(t, key).Some? {
      RebalanceFaultsIff(Pending(t, key).value);
      if Remove(t, key).Some? {
        RebalanceKeeps(Pending(t, key).value);
      }
    }
  }

  // ----- eight insertions into an empty tree -----

  // One-letter keys put into an empty tree in this order.
  function Planted(letters: seq<Byte>): Option<Tree>
    decreases |letters|
  {
    if letters == [] then Some(Leaf) else
    var t := Planted(letters[..|letters| - 1]);
    if t.None? then None else Put(t.value, letters[|letters| - 1])
  }

  function Put(t: Tree, letter: Byte): Option<Tree> {
    if t.Leaf? then Some(Lone(letter)) else Insert(t, [letter], 0)
  }

  function Lone(letter: Byte): Tree {
    Single([letter], 0)
  }

  function Top(letter: Byte, left: Tree, right: Tree): Tree {
    Over([letter], 0, left, right)
  }

  lemma LetterOrder(a: Byte, b: Byte)
    requires a < b
    ensures KeyComp([a], [b]) > 0 && KeyComp([b], [a]) < 0
  {
  }

  // One insertion, back at a node that needs no turn.
  lemma PutRight(letter: Byte, left: Tree, right: Tree, key: Byte, grown: Tree)
    requires letter < key && Put(right, key) == Some(grown) && MoveFor(Top(letter, left, grown)) == Stay
    ensures Put(Top(letter, left, right), key) == Some(Top(letter, left, grown))
  {
    LetterOrder(letter, key);
  }

  lemma PutLeft(letter: Byte, left: Tree, right: Tree, key: Byte, grown: Tree)
    requires key < letter && Put(left, key) == Some(grown) && MoveFor(Top(letter, grown, right)) == Stay
    ensures Put(Top(letter, left, right), key) == Some(Top(letter, grown, right))
  {
    LetterOrder(key, letter);
  }

  const EIGHT: seq<Byte> := [100, 99, 101, 98, 105, 102, 103, 106]
  const LOW: Tree := Top(99, Lone(98), Leaf)

  // The tree after n letters.
  function Stage(n: nat): Tree {
    match n
    case 0 => Leaf
    case 1 => Lone(100)
    case 2 => Top(100, Lone(99), Leaf)
    case 3 => Top(100, Lone(99), Lone(101))
    case 4 => Top(100, LOW, Lone(101))
    case 5 => Top(100, LOW, Top(101, Leaf, Lone(105)))
    case 6 => Top(100, LOW, Top(101, Leaf, Top(105, Lone(102), Leaf)))
    case _ => Top(100, LOW, Top(101, Leaf, Top(103, Lone(102), Lone(105))))
  }

  lemma FirstStages(n: nat)
    requires n < 5
    ensures Put(Stage(n), EIGHT[n]) == Some(Stage(n + 1))
  {
    hide Insert, KeyComp;
    match n
    case 0 =>
    case 1 => PutLeft(100, Leaf, Leaf, 99, Lone(99));
    case 2 => PutRight(100, Lone(99), Leaf, 101, Lone(101));
    case 3 =>
      PutLeft(99, Leaf, Leaf, 98, Lone(98));
      PutLeft(100, Lone(99), Lone(101), 98, LOW);
    case _ =>
      PutRight(101, Leaf, Leaf, 105, Lone(105));
      PutRight(100, LOW, Lone(101), 105, Top(101, Leaf, Lone(105)));
  }

  // Nothing turns the node of 101, though its right child leans left.
  lemma SixthMissesItsTurn()
    ensures Put(Stage(5), EIGHT[5]) == Some(Stage(6))
  {
    hide Insert, KeyComp;
    PutLeft(105, Leaf, Leaf, 102, Lone(102));
    PutRight(101, Leaf, Lone(105), 102, Top(105, Lone(102), Leaf));
    PutRight(100, LOW, Top(101, Leaf, Lone(105)), 102, Top(101, Leaf, Top(105, Lone(102), Leaf)));
  }

  // The node of 105 is turned twice, below the one that stays as it is.
  lemma SeventhTurnsBelow()
    ensures Put(Stage(6), EIGHT[6]) == Some(Stage(7))
  {
    var from, to := Top(105, Lone(102), Leaf), Top(103, Lone(102), Lone(105));
    TurnTwice();
    hide Insert, KeyComp;
    PutRight(101, Leaf, from, 103, to);
    PutRight(100, LOW, Top(101, Leaf, from), 103, Top(101, Leaf, to));
  }

  lemma TurnTwice()
    ensures Put(Top(105, Lone(102), Leaf), 103) == Some(Top(103, Lone(102), Lone(105)))
  {
    LetterOrder(103, 105);
    PutRight(102, Leaf, Leaf, 103, Lone(103));
    hide KeyComp;
    assert Insert(Lone(102), [103], 0) == Some(Top(102, Leaf, Lone(103)));
    var u := Top(105, Top(102, Leaf, Lone(103)), Leaf);
    assert MoveFor(u) == LeftRight;
    assert LeftMove(u.left) == Top(103, Lone(102), Leaf);
    assert RightMove(u.(left := Top(103, Lone(102), Leaf))) == Top(103, Lone(102), Lone(105));
    assert KeyComp([105], [103]) < 0;
    assert Insert(Top(105, Lone(102), Leaf), [103], 0) == Rebalance(u);
  }

  lemma EighthIsStuck()
    ensures Put(Stage(7), EIGHT[7]) == None
  {
    hide Insert, KeyComp;
    PutRight(105, Leaf, Leaf, 106, Lone(106));
    PutRight(103, Lone(102), Lone(105), 106, Top(105, Leaf, Lone(106)));
    var r := Top(103, Lone(102), Top(105, Leaf, Lone(106)));
    PutRight(101, Leaf, Top(103, Lone(102), Lone(105)), 106, r);
    assert Stuck(Top(100, LOW, Top(101, Leaf, r)));
    RootStuck(Top(101, Leaf, Top(103, Lone(102), Lone(105))), Top(101, Leaf, r), 106);
  }

  lemma RootStuck(right: Tree, grown: Tree, key: Byte)
    requires right.Node? && 100 < key && Put(right, key) == Some(grown) && Exact(grown) && Stuck(Top(100, LOW, grown))
    ensures Put(Top(100, LOW, right), key) == None
  {
    LetterOrder(100, key);
    RebalanceFaultsIff(Top(100, LOW, grown));
  }

  lemma {:induction false} StageReached(n: nat)
    requires n <= 7
    ensures Planted(EIGHT[..n]) == Some(Stage(n))
  {
    hide Put;
    if n > 0 {
      StageReached(n - 1);
      assert EIGHT[..n][..n - 1] == EIGHT[..n - 1];
      if n <= 5 {
        FirstStages(n - 1);
      } else if n == 6 {
        SixthMissesItsTurn();
      } else {
        SeventhTurnsBelow();
      }
    }
  }

  // The sixth key misses its turn, the seventh hides that, and at the eighth the
  // root, whose left child leans left, would turn a node without left child.
  lemma EightInsertionsFault()
    ensures Planted(EIGHT[..7]) == Some(Stage(7)) && Planted(EIGHT) == None
  {
    hide Put, Stage;
    StageReached(7);
    EighthIsStuck();
  }
}
