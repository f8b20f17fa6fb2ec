/** Removal from an AVL tree as it is written: every level works on a copy of the
    child pointer, so a rotation below the root is not linked in. */
module AvlRemove {
  import opened Bytes
  import opened Keys
  import opened Assoc
  import opened AvlTree
  import opened AvlBalance
  import opened Options

  // The tree now under the local pointer, and the tree now under the node that
  // the parent still points to. A rotation puts that node below the new top.
  datatype Views = Views(top: Tree, stay: Tree)

  function Turned(t: Tree): Option<Views> {
    var v := Rebalance(t);
    if v.None? then None else
    match MoveFor(t)
    case Stay => Some(Views(t, t))
    case Right => Some(Views(v.value, v.value.right))
    case LeftRight => Some(Views(v.value, v.value.right))
    case Left => Some(Views(v.value, v.value.left))
    case RightLeft => Some(Views(v.value, v.value.left))
  }

  // Unlinks the last node on the right spine and rebalances along the spine.
  function DropLast(n: Tree): Option<Tree>
    requires n.Node? && n.right.Node?
    decreases n
  {
    var r := if n.right.right.Leaf? then Some(n.right.left) else DropLast(n.right);
    if r.None? then None else
    var v := Turned(Over(n.key, n.meta, n.left, r.value));
    if v.None? then None else Some(v.value.stay)
  }

  function Last(t: Tree): Tree
    requires t.Node?
    ensures Last(t).Node?
    decreases t
  {
    if t.right.Leaf? then t else Last(t.right)
  }

  lemma {:induction false} LastEntry(t: Tree)
    requires t.Node?
    ensures |Inorder(t)| > 0 && Inorder(t)[|Inorder(t)| - 1] == (Last(t).key, Last(t).meta)
    decreases t
  {
    if t.right.Node? {
      LastEntry(t.right);
    } else {
      assert Inorder(t.right) == [];
    }
  }

  // With two children, the entry just before it takes the removed one's place;
  // with one child, that child does.
  lemma TakesItsPlace(t: Tree, key: Str)
    requires t.Node? && !GoesRight(t, key) && !GoesLeft(t, key) && Pending(t, key).Some?
    ensures var u := Pending(t, key).value;
      if t.left.Node? && t.right.Node? then
        u.Node? && Inorder(t.left) != [] && (u.key, u.meta) == Inorder(t.left)[|Inorder(t.left)| - 1] && u.right == t.right
      else
        var child := if t.left.Node? then t.left else t.right;
        if child.Leaf? then u.Leaf?
        else u.Node? && u.key == child.key && u.meta == child.meta && u.left == child.left && u.right == child.right
  {
    hide DropLast;
    if t.left.Node? {
      LastEntry(t.left);
    }
  }

  // What the parent keeps of a subtree after the removal in it.
  function Stays(t: Tree, key: Str): Option<Tree>
    decreases t, 1
  {
    var u := Pending(t, key);
    if u.None? || u.value.Leaf? then u else
    var v := Turned(u.value);
    if v.None? then None else Some(v.value.stay)
  }

  // The node of this level before its own rebalancing; Leaf when it is gone.
  function Pending(t: Tree, key: Str): Option<Tree>
    decreases t, 0
  {
    if t.Leaf? then Some(Leaf)
    else if GoesRight(t, key) then
      var r := Stays(t.right, key);
      if r.None? then None else Some(Over(t.key, t.meta, t.left, r.value))
    else if GoesLeft(t, key) then
      var l := Stays(t.left, key);
      if l.None? then None else Some(Over(t.key, t.meta, l.value, t.right))
    else if t.left.Leaf? && t.right.Leaf? then Some(Leaf)
    else if t.right.Leaf? then Some(Over(t.left.key, t.left.meta, t.left.left, t.left.right))
    else if t.left.Leaf? then Some(Over(t.right.key, t.right.meta, t.right.left, t.right.right))
    else
      var last := Last(t.left);
      var l := if t.left.right.Leaf? then Some(t.left.left) else DropLast(t.left);
      if l.None? then None else Some(Over(last.key, last.meta, l.value, t.right))
  }

  // The removal from a whole tree, whose root pointer is written back.
  function Remove(t: Tree, key: Str): Option<Tree> {
    var u := Pending(t, key);
    if u.None? then None else Rebalance(u.value)
  }

  // No node below the root is rotated on the way back.
  predicate NoTurnBelow(t: Tree, key: Str)
    decreases t, 0
  {
    if t.Leaf? then true
    else if GoesRight(t, key) then NoTurn(t.right, key)
    else if GoesLeft(t, key) then NoTurn(t.left, key)
    else t.left.Node? && t.left.right.Node? && t.right.Node? ==> NoTurnOnSpine(t.left)
  }

  predicate NoTurn(t: Tree, key: Str)
    decreases t, 1
  {
    NoTurnBelow(t, key) && Pending(t, key).Some? && MoveFor(Pending(t, key).value) == Stay
  }

  predicate NoTurnOnSpine(n: Tree)
    requires n.Node? && n.right.Node?
    decreases n
  {
    if n.right.right.Leaf? then
      MoveFor(Over(n.key, n.meta, n.left, n.right.left)) == Stay
    else
      NoTurnOnSpine(n.right) && DropLast(n.right).Some?
      && MoveFor(Over(n.key, n.meta, n.left, DropLast(n.right).value)) == Stay
  }

  // ----- sizes: what gets lost -----

  // A rotation through a copied pointer loses at least the new top.
  lemma TurnedSizes(t: Tree)
    requires Turned(t).Some?
    ensures var v := Turned(t).value;
      |Inorder(v.top)| == |Inorder(t)| && |Inorder(v.stay)| <= |Inorder(t)|
      && (|Inorder(v.stay)| == |Inorder(t)| <==> MoveFor(t) == Stay)
      && v.top == Rebalance(t).value
  {
    hide Rebalance;
    RebalanceKeeps(t);
    var v := Turned(t).value;
    if v.top.Node? {
      InorderNode(v.top);
    }
    TurnIsNode(t);
  }

  lemma TurnIsNode(t: Tree)
    requires Rebalance(t).Some?
    ensures if MoveFor(t) == Stay then Rebalance(t).value == t else Rebalance(t).value.Node?
  {
  }

  lemma {:induction false} DropLastSizes(n: Tree)
    requires n.Node? && n.right.Node? && DropLast(n).Some?
    ensures |Inorder(DropLast(n).value)| <= |Inorder(n)| - 1
    ensures |Inorder(DropLast(n).value)| == |Inorder(n)| - 1 <==> NoTurnOnSpine(n)
    decreases n
  {
    hide Turned;
    InorderNode(n);
    InorderNode(n.right);
    if n.right.right.Node? {
      DropLastSizes(n.right);
    } else {
      assert Inorder(n.right.right) == [];
    }
    var r := if n.right.right.Leaf? then n.right.left else DropLast(n.right).value;
    InorderOver(n.key, n.meta, n.left, r);
    TurnedSizes(Over(n.key, n.meta, n.left, r));
  }

  lemma {:induction false} PendingSizes(t: Tree, key: Str)
    requires Ordered(t) && HasKey(Inorder(t), key) && Pending(t, key).Some?
    ensures |Inorder(Pending(t, key).value)| <= |Inorder(t)| - 1
    ensures |Inorder(Pending(t, key).value)| == |Inorder(t)| - 1 <==> NoTurnBelow(t, key)
    decreases t, 0
  {
    hide Turned, DropLast, Sorted;
    OrderedNode(t);
    InorderNode(t);
    WhichSide(t, key);
    if GoesRight(t, key) {
      StaysSizes(t.right, key);
      InorderOver(t.key, t.meta, t.left, Stays(t.right, key).value);
    } else if GoesLeft(t, key) {
      StaysSizes(t.left, key);
      InorderOver(t.key, t.meta, Stays(t.left, key).value, t.right);
    } else if t.left.Leaf? && t.right.Leaf? {
      assert Inorder(Leaf) == [];
    } else if t.right.Leaf? {
      assert Inorder(Leaf) == [];
      InorderNode(t.left);
      InorderOver(t.left.key, t.left.meta, t.left.left, t.left.right);
    } else if t.left.Leaf? {
      assert Inorder(Leaf) == [];
      InorderNode(t.right);
      InorderOver(t.right.key, t.right.meta, t.right.left, t.right.right);
    } else {
      InorderNode(t.left);
      if t.left.right.Node? {
        DropLastSizes(t.left);
      } else {
        assert Inorder(t.left.right) == [];
      }
      var l := if t.left.right.Leaf? then t.left.left else DropLast(t.left).value;
      InorderOver(Last(t.left).key, Last(t.left).meta, l, t.right);
    }
  }

  lemma {:induction false} StaysSizes(t: Tree, key: Str)
    requires Ordered(t) && HasKey(Inorder(t), key) && Stays(t, key).Some?
    ensures |Inorder(Stays(t, key).value)| <= |Inorder(t)| - 1
    ensures |Inorder(Stays(t, key).value)| == |Inorder(t)| - 1 <==> NoTurn(t, key)
    decreases t, 1
  {
    hide Turned, Sorted;
    PendingSizes(t, key);
    if Pending(t, key).value.Node? {
      TurnedSizes(Pending(t, key).value);
    }
  }

  // The key is on the side the comparison points to, or at the node.
  lemma WhichSide(t: Tree, key: Str)
    requires t.Node? && Ordered(t) && HasKey(Inorder(t), key)
    ensures GoesRight(t, key) ==> HasKey(Inorder(t.right), key)
    ensures GoesLeft(t, key) ==> HasKey(Inorder(t.left), key)
    ensures !GoesRight(t, key) && !GoesLeft(t, key) ==> t.key == key
  {
    OrderedNode(t);
    InorderNode(t);
    KeyCompOrders(t.key, key);
    var a, x, b := Inorder(t.left), (t.key, t.meta), Inorder(t.right);
    var i :| 0 <= i < |a + [x] + b| && (a + [x] + b)[i].0 == key;
    if i < |a| {
      assert a[i].0 == key;
    } else if i == |a| {
      assert x.0 == key;
    } else {
      assert b[i - |a| - 1].0 == key;
      KeyCompOrders(key, t.key);
    }
  }

  // ----- what is kept -----

  lemma {:induction false} DropLastKeeps(n: Tree)
    requires n.Node? && n.right.Node? && NoTurnOnSpine(n) && DropLast(n).Some?
    ensures Inorder(DropLast(n).value) + [(Last(n).key, Last(n).meta)] == Inorder(n)
    decreases n
  {
    hide Rebalance;
    InorderNode(n);
    InorderNode(n.right);
    var r := if n.right.right.Leaf? then n.right.left else DropLast(n.right).value;
    if n.right.right.Node? {
      DropLastKeeps(n.right);
    } else {
      assert Inorder(n.right.right) == [];
    }
    InorderOver(n.key, n.meta, n.left, r);
    assert DropLast(n).value == Over(n.key, n.meta, n.left, r);
  }

  lemma {:induction false} PendingKeeps(t: Tree, key: Str)
    requires Ordered(t) && HasKey(Inorder(t), key) && Pending(t, key).Some? && NoTurnBelow(t, key)
    ensures Inorder(Pending(t, key).value) == Without(Inorder(t), key)
    decreases t
  {
    assert t.Node?;
    hide Turned, DropLast, Sorted, Before, HasKey;
    OrderedNode(t);
    var a, x, b := Inorder(t.left), (t.key, t.meta), Inorder(t.right);
    InorderNode(t);
    WhichSide(t, key);
    OtherSides(t, key);
    WithoutSplit(a, x, b, key);
    if GoesRight(t, key) {
      PendingKeeps(t.right, key);
      StaysIsPending(t.right, key);
      InorderOver(t.key, t.meta, t.left, Stays(t.right, key).value);
    } else if GoesLeft(t, key) {
      PendingKeeps(t.left, key);
      StaysIsPending(t.left, key);
      InorderOver(t.key, t.meta, Stays(t.left, key).value, t.right);
    } else {
      FoundKeeps(t, key);
    }
  }

  lemma StaysIsPending(t: Tree, key: Str)
    requires NoTurn(t, key)
    ensures Stays(t, key) == Pending(t, key)
  {
  }

  lemma FoundKeeps(t: Tree, key: Str)
    requires t.Node? && !GoesRight(t, key) && !GoesLeft(t, key) && Pending(t, key).Some? && NoTurnBelow(t, key)
    ensures Inorder(Pending(t, key).value) == Inorder(t.left) + [] + Inorder(t.right)
  {
    hide DropLast;
    if t.left.Node? {
      InorderNode(t.left);
    } else {
      assert Inorder(t.left) == [];
    }
    if t.right.Node? {
      InorderNode(t.right);
    } else {
      assert Inorder(t.right) == [];
    }
    if t.left.Node? && t.right.Node? {
      var last := Last(t.left);
      if t.left.right.Node? {
        DropLastKeeps(t.left);
      } else {
        assert Inorder(t.left.right) == [];
      }
      var l := if t.left.right.Leaf? then t.left.left else DropLast(t.left).value;
      InorderOver(last.key, last.meta, l, t.right);
    } else if t.left.Node? {
      InorderOver(t.left.key, t.left.meta, t.left.left, t.left.right);
    } else if t.right.Node? {
      InorderOver(t.right.key, t.right.meta, t.right.left, t.right.right);
    }
  }

  // The key is nowhere but on the side the comparison points to.
  lemma OtherSides(t: Tree, key: Str)
    requires t.Node? && Ordered(t)
    ensures !GoesLeft(t, key) ==> Without(Inorder(t.left), key) == Inorder(t.left)
    ensures !GoesRight(t, key) ==> Without(Inorder(t.right), key) == Inorder(t.right)
    ensures (GoesLeft(t, key) || GoesRight(t, key)) ==> t.key != key
  {
    OrderedNode(t);
    KeyCompOrders(t.key, key);
    var a, b := Inorder(t.left), Inorder(t.right);
    if !GoesLeft(t, key) {
      forall i | 0 <= i < |a| ensures a[i].0 != key {
        KeyCompOrders(a[i].0, t.key);
      }
      WithoutAbsent(a, key);
    }
    if !GoesRight(t, key) {
      forall i | 0 <= i < |b| ensures b[i].0 != key {
      }
      WithoutAbsent(b, key);
    }
  }

  // Removal of a present key takes away exactly that key exactly when no node
  // below the root is rotated; otherwise entries are lost.
  lemma RemoveExactIff(t: Tree, key: Str)
    requires Ordered(t) && key in TreeMap(t) && Remove(t, key).Some?
    ensures Inorder(Remove(t, key).value) == Without(Inorder(t), key) <==> NoTurnBelow(t, key)
    ensures |Inorder(Remove(t, key).value)| == |Inorder(t)| - 1 <==> NoTurnBelow(t, key)
    ensures |Inorder(Remove(t, key).value)| <= |Inorder(t)| - 1
  {
    hide Sorted, Rebalance, HasKey;
    LookupIsMap(Inorder(t), key);
    PendingSizes(t, key);
    RebalanceKeeps(Pending(t, key).value);
    WithoutLength(Inorder(t), key);
    if NoTurnBelow(t, key) {
      PendingKeeps(t, key);
    }
  }

  // The same on the finite map.
  lemma RemoveIsMapRemoval(t: Tree, key: Str)
    requires Ordered(t) && key in TreeMap(t) && Remove(t, key).Some? && NoTurnBelow(t, key)
    ensures Ordered(Remove(t, key).value) && TreeMap(Remove(t, key).value) == TreeMap(t) - {key}
  {
    hide Sorted;
    RemoveExactIff(t, key);
    WithoutIsMapRemoval(Inorder(t), key);
    WithoutSorted(Inorder(t), key);
  }

  lemma {:induction false} WithoutSorted(e: Entries, key: Str)
    requires Sorted(e)
    ensures Sorted(Without(e, key)) && Within(Without(e, key), e)
  {
    hide Before;
    if e != [] {
      assert [] + [e[0]] + e[1..] == e;
      SortedParts([], e[0], e[1..]);
      WithoutSorted(e[1..], key);
      var r := Without(e[1..], key);
      AroundWithin([], e[0], e[1..], [], r);
      SortedParts([], e[0], r);
      assert [] + [e[0]] + r == [e[0]] + r;
      if e[0].0 == key {
        forall i | 0 <= i < |r| ensures r[i] in e {
          assert r[i] in e[1..];
        }
      }
    }
  }

  // ----- whatever is lost, nothing is invented and the order stays -----

  ghost predicate PartOf(r: Tree, t: Tree) {
    Ordered(r) && Within(Inorder(r), Inorder(t))
  }

  lemma WithinTrans(a: Entries, b: Entries, c: Entries)
    requires Within(a, b) && Within(b, c)
    ensures Within(a, c)
  {
    forall i | 0 <= i < |a| ensures a[i] in c {
      assert a[i] in b;
    }
  }

  lemma TurnedPart(t: Tree)
    requires Ordered(t) && Turned(t).Some?
    ensures PartOf(Turned(t).value.stay, t) && PartOf(Turned(t).value.top, t)
  {
    hide Rebalance, Sorted;
    RebalanceKeeps(t);
    TurnIsNode(t);
    var v := Turned(t).value;
    if v.top.Node? {
      OrderedNode(v.top);
      InorderNode(v.top);
    }
  }

  lemma OverPart(t: Tree, l: Tree, r: Tree)
    requires t.Node? && Ordered(t) && PartOf(l, t.left) && PartOf(r, t.right)
    ensures PartOf(Over(t.key, t.meta, l, r), t)
  {
    hide Sorted;
    OrderedNode(t);
    InorderNode(t);
    InorderOver(t.key, t.meta, l, r);
    AroundWithin(Inorder(t.left), (t.key, t.meta), Inorder(t.right), Inorder(l), Inorder(r));
    SortedParts(Inorder(l), (t.key, t.meta), Inorder(r));
  }

  lemma SelfPart(t: Tree)
    requires Ordered(t)
    ensures PartOf(t, t)
  {
  }

  ghost predicate OthersBefore(e: Entries, last: Entry) {
    forall i :: 0 <= i < |e| && e[i] != last ==> Before(e[i].0, last.0)
  }

  // Everything but the last entry precedes it.
  lemma {:induction false} LastIsLast(t: Tree)
    requires t.Node? && Ordered(t)
    ensures (Last(t).key, Last(t).meta) in Inorder(t)
    ensures OthersBefore(Inorder(t), (Last(t).key, Last(t).meta))
    decreases t
  {
    hide Sorted, Before;
    OrderedNode(t);
    InorderNode(t);
    var a, x, b := Inorder(t.left), (t.key, t.meta), Inorder(t.right);
    if t.right.Node? {
      LastIsLast(t.right);
      var last := (Last(t).key, Last(t).meta);
      assert last in b;
      forall i | 0 <= i < |a + [x] + b| && (a + [x] + b)[i] != last ensures Before((a + [x] + b)[i].0, last.0) {
        if i < |a| {
          BeforeTransitive(a[i].0, x.0, last.0);
        } else if i > |a| {
          assert (a + [x] + b)[i] == b[i - |a| - 1];
        }
      }
    } else {
      assert b == [];
    }
  }

  lemma {:induction false} DropLastPart(n: Tree)
    requires n.Node? && n.right.Node? && Ordered(n) && DropLast(n).Some?
    ensures PartOf(DropLast(n).value, n)
    ensures (Last(n).key, Last(n).meta) !in Inorder(DropLast(n).value)
    decreases n
  {
    hide Turned, Sorted, Before;
    OrderedNode(n);
    InorderNode(n);
    OrderedNode(n.right);
    InorderNode(n.right);
    LastApart(n);
    var r := if n.right.right.Leaf? then n.right.left else DropLast(n.right).value;
    if n.right.right.Node? {
      DropLastPart(n.right);
    } else {
      AroundIsApart(Inorder(n.right.left), (n.right.key, n.right.meta), Inorder(n.right.right));
    }
    SelfPart(n.left);
    OverPart(n, n.left, r);
    var u := Over(n.key, n.meta, n.left, r);
    InorderOver(n.key, n.meta, n.left, r);
    TurnedPart(u);
    WithinTrans(Inorder(DropLast(n).value), Inorder(u), Inorder(n));
  }

  lemma AroundIsApart(a: Entries, x: Entry, b: Entries)
    requires SortedAround(a, x, b)
    ensures x !in a && x !in b
  {
    Irreflexive(x.0);
  }

  // The last entry is on the right, so not at the node or on its left.
  lemma LastApart(n: Tree)
    requires n.Node? && n.right.Node? && Ordered(n)
    ensures var last := (Last(n).key, Last(n).meta);
      last == (Last(n.right).key, Last(n.right).meta) && last != (n.key, n.meta) && last !in Inorder(n.left)
  {
    OrderedNode(n);
    LastIsLast(n.right);
    var last := (Last(n).key, Last(n).meta);
    assert Before(n.key, last.0);
    Irreflexive(n.key);
    forall i | 0 <= i < |Inorder(n.left)| ensures Inorder(n.left)[i] != last {
      BeforeTransitive(Inorder(n.left)[i].0, n.key, last.0);
      Irreflexive(last.0);
    }
  }

  lemma {:induction false} PendingPart(t: Tree, key: Str)
    requires Ordered(t) && Pending(t, key).Some?
    ensures PartOf(Pending(t, key).value, t)
    decreases t, 0
  {
    hide Turned, DropLast, Sorted;
    if t.Leaf? {
      return;
    }
    OrderedNode(t);
    SelfPart(t.left);
    SelfPart(t.right);
    if GoesRight(t, key) {
      StaysPart(t.right, key);
      OverPart(t, t.left, Stays(t.right, key).value);
    } else if GoesLeft(t, key) {
      StaysPart(t.left, key);
      OverPart(t, Stays(t.left, key).value, t.right);
    } else {
      FoundPart(t, key);
    }
  }

  lemma FoundPart(t: Tree, key: Str)
    requires t.Node? && Ordered(t) && !GoesRight(t, key) && !GoesLeft(t, key) && Pending(t, key).Some?
    ensures PartOf(Pending(t, key).value, t)
  {
    hide DropLast, Before;
    OrderedNode(t);
    InorderNode(t);
    var a, x, b := Inorder(t.left), (t.key, t.meta), Inorder(t.right);
    if t.left.Node? && t.right.Node? {
      var last := Last(t.left);
      var l := if t.left.right.Leaf? then t.left.left else DropLast(t.left).value;
      LastIsLast(t.left);
      OrderedNode(t.left);
      InorderNode(t.left);
      if t.left.right.Node? {
        DropLastPart(t.left);
      } else {
        AroundIsApart(Inorder(t.left.left), (last.key, last.meta), Inorder(t.left.right));
      }
      assert Within(Inorder(l), a);
      forall i | 0 <= i < |Inorder(l)| ensures Before(Inorder(l)[i].0, last.key) {
        var k :| 0 <= k < |a| && a[k] == Inorder(l)[i];
      }
      var m :| 0 <= m < |a| && a[m] == (last.key, last.meta);
      forall j | 0 <= j < |b| ensures Before(last.key, b[j].0) {
        BeforeTransitive(a[m].0, x.0, b[j].0);
      }
      InorderOver(last.key, last.meta, l, t.right);
      SortedParts(Inorder(l), (last.key, last.meta), b);
    } else if t.left.Node? {
      InorderNode(t.left);
      InorderOver(t.left.key, t.left.meta, t.left.left, t.left.right);
    } else if t.right.Node? {
      InorderNode(t.right);
      InorderOver(t.right.key, t.right.meta, t.right.left, t.right.right);
    }
  }

  lemma {:induction false} StaysPart(t: Tree, key: Str)
    requires Ordered(t) && Stays(t, key).Some?
    ensures PartOf(Stays(t, key).value, t)
    decreases t, 1
  {
    hide Turned, Sorted;
    PendingPart(t, key);
    var u := Pending(t, key).value;
    if u.Node? {
      TurnedPart(u);
      WithinTrans(Inorder(Stays(t, key).value), Inorder(u), Inorder(t));
    }
  }

  lemma StillMisses(a: Entries, b: Entries, key: Str)
    requires Within(a, b) && Lookup(b, key) == None
    ensures Lookup(a, key) == None
  {
    LookupIsMap(b, key);
    forall i | 0 <= i < |a| ensures a[i].0 != key {
      assert a[i] in b;
    }
    LookupMisses(a, key);
  }

  // The removed key itself is gone in any case.
  lemma {:induction false} PendingGone(t: Tree, key: Str)
    requires Ordered(t) && Pending(t, key).Some?
    ensures Lookup(Inorder(Pending(t, key).value), key) == None
    decreases t, 0
  {
    hide Turned, DropLast, Sorted, Before, Lookup;
    if t.Leaf? {
      LookupMisses([], key);
      return;
    }
    OrderedNode(t);
    KeyCompOrders(t.key, key);
    if GoesRight(t, key) {
      StaysGone(t.right, key);
      var r := Stays(t.right, key).value;
      MissesLeft(Inorder(t.left), t.key, key);
      InorderOver(t.key, t.meta, t.left, r);
      LookupSplit(Inorder(t.left), (t.key, t.meta), Inorder(r), key);
    } else if GoesLeft(t, key) {
      StaysGone(t.left, key);
      var l := Stays(t.left, key).value;
      MissesRight(Inorder(t.right), t.key, key);
      InorderOver(t.key, t.meta, l, t.right);
      LookupSplit(Inorder(l), (t.key, t.meta), Inorder(t.right), key);
    } else {
      FoundGone(t, key);
    }
  }

  lemma StaysGone(t: Tree, key: Str)
    requires Ordered(t) && Stays(t, key).Some?
    ensures Lookup(Inorder(Stays(t, key).value), key) == None
    decreases t, 1
  {
    hide Turned, Sorted, Lookup;
    PendingGone(t, key);
    PendingPart(t, key);
    var u := Pending(t, key).value;
    if u.Node? {
      TurnedPart(u);
      StillMisses(Inorder(Stays(t, key).value), Inorder(u), key);
    }
  }

  lemma FoundGone(t: Tree, key: Str)
    requires t.Node? && Ordered(t) && t.key == key && Pending(t, key).Some?
    requires !GoesRight(t, key) && !GoesLeft(t, key)
    ensures Lookup(Inorder(Pending(t, key).value), key) == None
  {
    hide DropLast, Before, Lookup;
    OrderedNode(t);
    var a, b := Inorder(t.left), Inorder(t.right);
    Irreflexive(key);
    forall i | 0 <= i < |a| ensures a[i].0 != key {
    }
    forall j | 0 <= j < |b| ensures b[j].0 != key {
    }
    LookupMisses(a, key);
    LookupMisses(b, key);
    if t.left.Node? && t.right.Node? {
      var last := Last(t.left);
      var l := if t.left.right.Leaf? then t.left.left else DropLast(t.left).value;
      LastIsLast(t.left);
      OrderedNode(t.left);
      InorderNode(t.left);
      if t.left.right.Node? {
        DropLastPart(t.left);
      } else {
        AroundIsApart(Inorder(t.left.left), (last.key, last.meta), Inorder(t.left.right));
      }
      StillMisses(Inorder(l), a, key);
      var m :| 0 <= m < |a| && a[m] == (last.key, last.meta);
      InorderOver(last.key, last.meta, l, t.right);
      LookupSplit(Inorder(l), (last.key, last.meta), b, key);
    } else if t.left.Node? {
      InorderNode(t.left);
      InorderOver(t.left.key, t.left.meta, t.left.left, t.left.right);
    } else if t.right.Node? {
      InorderNode(t.right);
      InorderOver(t.right.key, t.right.meta, t.right.left, t.right.right);
    } else {
      LookupMisses([], key);
    }
  }

  // Whether or not entries are lost, the rest is in order and was there before,
  // and the key is gone.
  lemma RemoveInventsNothing(t: Tree, key: Str)
    requires Ordered(t) && Remove(t, key).Some?
    ensures Ordered(Remove(t, key).value) && Within(Inorder(Remove(t, key).value), Inorder(t))
    ensures Search(Remove(t, key).value, key) == None
  {
    hide Rebalance, Sorted, Lookup;
    PendingPart(t, key);
    PendingGone(t, key);
    RebalanceKeeps(Pending(t, key).value);
    SearchFinds(Remove(t, key).value, key);
  }

  lemma {:induction false} MapSize(e: Entries)
    requires Sorted(e)
    ensures |MapOf(e)| == |e|
  {
    hide Before, HasKey;
    if e != [] {
      assert [] + [e[0]] + e[1..] == e;
      SortedParts([], e[0], e[1..]);
      MapSize(e[1..]);
      LookupIsMap(e[1..], e[0].0);
      forall i | 0 <= i < |e[1..]| ensures e[1..][i].0 != e[0].0 {
        Irreflexive(e[0].0);
      }
      assert !HasKey(e[1..], e[0].0) by {
        NoSuchKey(e[1..], e[0].0);
      }
    }
  }

  lemma NoSuchKey(e: Entries, key: Str)
    requires forall i :: 0 <= i < |e| ==> e[i].0 != key
    ensures !HasKey(e, key)
  {
  }

  // Removal of a present key does to the finite map what it should exactly when
  // no node below the root is rotated; otherwise some other key is gone too.
  lemma RemoveMapIff(t: Tree, key: Str)
    requires Ordered(t) && key in TreeMap(t) && Remove(t, key).Some?
    ensures TreeMap(Remove(t, key).value) == TreeMap(t) - {key} <==> NoTurnBelow(t, key)
    ensures !NoTurnBelow(t, key) ==> exists k :: k in TreeMap(t) && k != key && k !in TreeMap(Remove(t, key).value)
  {
    hide Sorted, Remove, MapOf, Inorder, NoTurnBelow;
    var r := Remove(t, key).value;
    if NoTurnBelow(t, key) {
      RemoveIsMapRemoval(t, key);
    } else {
      RemoveExactIff(t, key);
      RemoveInventsNothing(t, key);
      MapSize(Inorder(t));
      MapSize(Inorder(r));
      var kept := TreeMap(t) - {key};
      assert kept.Keys == TreeMap(t).Keys - {key};
      assert |TreeMap(r).Keys| < |kept.Keys|;
      if kept.Keys <= TreeMap(r).Keys {
        Subset(kept.Keys, TreeMap(r).Keys);
        assert false;
      }
      var k :| k in kept.Keys && k !in TreeMap(r).Keys;
    }
  }

  lemma {:induction false} Subset<X>(a: set<X>, b: set<X>)
    requires a <= b
    ensures |a| <= |b|
  {
    if a != {} {
      var x :| x in a;
      Subset(a - {x}, b - {x});
    }
  }

  // ----- removal from a balanced tree never follows a null pointer -----

  ghost predicate TurnsWithin(u: Tree, h: int) {
    u.Node? ==> Turned(u).Some? && Exact(Turned(u).value.stay) && Hight(Turned(u).value.stay) <= h
  }

  // A level that lost height on one side and kept the balanced other side.
  lemma TurnedTotal(u: Tree)
    requires u.Node? && Exact(u)
    requires Balance(u) <= 1 || (Balanced(u.right) && u.right.Node? && Hight(u.right) >= 2)
    ensures Turned(u).Some? && Exact(Turned(u).value.stay) && Hight(Turned(u).value.stay) <= Hight(u)
  {
    LeanBounds(u);
    ExactHight(u);
    if u.left.Node? {
      LeanBounds(u.left);
      ExactHight(u.left);
      if u.left.right.Node? {
        LeanBounds(u.left.right);
      }
    }
    if u.right.Node? {
      LeanBounds(u.right);
      ExactHight(u.right);
      BalancedParts(u.right);
      if u.right.left.Node? {
        LeanBounds(u.right.left);
      }
    }
    StayOfTurn(u);
  }

  // The node that stays behind a rotation, written out.
  lemma StayOfTurn(u: Tree)
    requires Turned(u).Some? && u.Node? && Exact(u)
    requires u.left.Node? ==> Exact(u.left.left) && Exact(u.left.right)
    requires u.right.Node? ==> Exact(u.right.left) && Exact(u.right.right)
    ensures Exact(Turned(u).value.stay) && Hight(Turned(u).value.stay) <= Hight(u)
  {
    ExactHight(u);
    match MoveFor(u)
    case Stay =>
    case Right =>
      ExactHight(u.left);
      OverLeans(u.key, u.meta, u.left.right, u.right);
    case Left =>
      ExactHight(u.right);
      OverLeans(u.key, u.meta, u.left, u.right.left);
    case LeftRight =>
      ExactHight(u.left);
      ExactHight(u.left.right);
      OverLeans(u.key, u.meta, u.left.right.right, u.right);
    case RightLeft =>
      ExactHight(u.right);
      ExactHight(u.right.left);
      OverLeans(u.key, u.meta, u.left, u.right.left.left);
  }

  lemma {:induction false} DropLastTotal(n: Tree)
    requires n.Node? && n.right.Node? && Exact(n) && Balanced(n)
    ensures DropLast(n).Some? && Exact(DropLast(n).value) && Hight(DropLast(n).value) <= Hight(n)
    decreases n
  {
    hide Turned;
    LeanBounds(n);
    LeanBounds(n.right);
    BalancedParts(n);
    ExactHight(n);
    ExactHight(n.right);
    if n.right.right.Node? {
      DropLastTotal(n.right);
    }
    var r := if n.right.right.Leaf? then n.right.left else DropLast(n.right).value;
    OverLeans(n.key, n.meta, n.left, r);
    HightPositive(r);
    TurnedTotal(Over(n.key, n.meta, n.left, r));
  }

  lemma {:induction false} PendingTotal(t: Tree, key: Str)
    requires Exact(t) && Balanced(t)
    ensures Pending(t, key).Some? && Exact(Pending(t, key).value) && Hight(Pending(t, key).value) <= Hight(t)
    ensures TurnsWithin(Pending(t, key).value, Hight(t))
    decreases t
  {
    hide Turned, DropLast;
    if t.Leaf? {
      return;
    }
    LeanBounds(t);
    BalancedParts(t);
    ExactHight(t);
    if GoesRight(t, key) {
      PendingTotal(t.right, key);
      var r := Stays(t.right, key).value;
      OverLeans(t.key, t.meta, t.left, r);
      HightPositive(r);
      TurnedTotal(Over(t.key, t.meta, t.left, r));
    } else if GoesLeft(t, key) {
      PendingTotal(t.left, key);
      var l := Stays(t.left, key).value;
      OverLeans(t.key, t.meta, l, t.right);
      HightPositive(l);
      TurnedTotal(Over(t.key, t.meta, l, t.right));
    } else if t.left.Node? && t.right.Node? {
      LeanBounds(t.left);
      BalancedParts(t.left);
      ExactHight(t.left);
      if t.left.right.Node? {
        DropLastTotal(t.left);
      }
      var l := if t.left.right.Leaf? then t.left.left else DropLast(t.left).value;
      HightPositive(l);
      OverLeans(Last(t.left).key, Last(t.left).meta, l, t.right);
      TurnedTotal(Over(Last(t.left).key, Last(t.left).meta, l, t.right));
    } else {
      OneChildTotal(t, key);
    }
  }

  lemma OneChildTotal(t: Tree, key: Str)
    requires t.Node? && Exact(t) && Balanced(t) && !GoesRight(t, key) && !GoesLeft(t, key)
    requires t.left.Leaf? || t.right.Leaf?
    ensures Pending(t, key).Some? && Exact(Pending(t, key).value) && Hight(Pending(t, key).value) <= Hight(t)
    ensures TurnsWithin(Pending(t, key).value, Hight(t))
  {
    hide Turned;
    LeanBounds(t);
    BalancedParts(t);
    ExactHight(t);
    if t.left.Node? || t.right.Node? {
      var c := if t.left.Node? then t.left else t.right;
      LeanBounds(c);
      BalancedParts(c);
      ExactHight(c);
      OverLeans(c.key, c.meta, c.left, c.right);
      TurnedTotal(Over(c.key, c.meta, c.left, c.right));
    }
  }

  lemma RemoveTotal(t: Tree, key: Str)
    requires Exact(t) && Balanced(t)
    ensures Remove(t, key).Some? && Exact(Remove(t, key).value)
  {
    PendingTotal(t, key);
    RebalanceKeeps(Pending(t, key).value);
  }

  // ----- when a removal keeps the balance -----

  predicate Level(u: Tree) {
    u.Node? ==> -1 <= Balance(u) <= 1
  }

  // No node below the root leans by two on the way back.
  predicate LevelBelow(t: Tree, key: Str)
    decreases t, 0
  {
    if t.Leaf? then true
    else if GoesRight(t, key) then LevelAt(t.right, key)
    else if GoesLeft(t, key) then LevelAt(t.left, key)
    else t.left.Node? && t.left.right.Node? && t.right.Node? ==> LevelOnSpine(t.left)
  }

  predicate LevelAt(t: Tree, key: Str)
    decreases t, 1
  {
    LevelBelow(t, key) && Pending(t, key).Some? && Level(Pending(t, key).value)
  }

  predicate LevelOnSpine(n: Tree)
    requires n.Node? && n.right.Node?
    decreases n
  {
    if n.right.right.Leaf? then
      Level(Over(n.key, n.meta, n.left, n.right.left))
    else
      LevelOnSpine(n.right) && DropLast(n.right).Some?
      && Level(Over(n.key, n.meta, n.left, DropLast(n.right).value))
  }

  // The root is in balance, or one of the four tests puts it right.
  predicate RootRestored(t: Tree, key: Str) {
    Pending(t, key).Some? && (Pending(t, key).value.Node? ==> !Uncovered(Pending(t, key).value))
  }

  // A level without rotation: what the parent keeps is what removal gives.
  lemma NoTurnStays(t: Tree, key: Str)
    requires NoTurn(t, key)
    ensures Stays(t, key) == Pending(t, key) == Remove(t, key) && NoTurnBelow(t, key)
  {
    hide Pending, NoTurnBelow;
  }

  ghost predicate OneLower(u: Tree, t: Tree) {
    Exact(u) && Hight(t) - 1 <= Hight(u) <= Hight(t)
  }

  lemma {:induction false} DropLastLevel(n: Tree)
    requires n.Node? && n.right.Node? && Exact(n) && Balanced(n) && NoTurnOnSpine(n)
    ensures DropLast(n).Some? && OneLower(DropLast(n).value, n)
    ensures Balanced(DropLast(n).value) <==> LevelOnSpine(n)
    decreases n
  {
    hide Turned, MoveFor;
    LeanBounds(n);
    BalancedParts(n);
    ExactHight(n);
    LeanBounds(n.right);
    BalancedParts(n.right);
    ExactHight(n.right);
    if n.right.right.Node? {
      DropLastLevel(n.right);
    }
    var r := if n.right.right.Leaf? then n.right.left else DropLast(n.right).value;
    OverLeans(n.key, n.meta, n.left, r);
    StayTurned(Over(n.key, n.meta, n.left, r));
  }

  lemma StayTurned(u: Tree)
    requires MoveFor(u) == Stay
    ensures Turned(u) == Some(Views(u, u))
  {
  }

  // The node of this level before its own rebalancing.
  lemma {:induction false} PendingLevel(t: Tree, key: Str)
    requires Exact(t) && Balanced(t) && NoTurnBelow(t, key)
    ensures Pending(t, key).Some? && var u := Pending(t, key).value;
      OneLower(u, t) && (u.Node? ==> -2 <= Balance(u) <= 2)
      && (LevelBelow(t, key) <==> (u.Node? ==> Balanced(u.left) && Balanced(u.right)))
      && (u.Node? && Balance(u) == 2 ==> Balanced(u.right))
    decreases t
  {
    hide DropLast, Rebalance, NoTurnOnSpine, LevelOnSpine;
    if t.Leaf? {
      return;
    }
    LeanBounds(t);
    BalancedParts(t);
    ExactHight(t);
    if GoesRight(t, key) {
      NoTurnStays(t.right, key);
      PendingLevel(t.right, key);
      LevelIsBalanced(t.right, key);
      OverLeans(t.key, t.meta, t.left, Pending(t.right, key).value);
    } else if GoesLeft(t, key) {
      NoTurnStays(t.left, key);
      PendingLevel(t.left, key);
      LevelIsBalanced(t.left, key);
      OverLeans(t.key, t.meta, Pending(t.left, key).value, t.right);
    } else {
      FoundLevel(t, key);
    }
  }

  lemma LevelIsBalanced(t: Tree, key: Str)
    requires Pending(t, key).Some? && var u := Pending(t, key).value;
      LevelBelow(t, key) <==> (u.Node? ==> Balanced(u.left) && Balanced(u.right))
    ensures LevelAt(t, key) <==> Balanced(Pending(t, key).value)
  {
  }

  lemma FoundLevel(t: Tree, key: Str)
    requires t.Node? && Exact(t) && Balanced(t) && NoTurnBelow(t, key) && !GoesRight(t, key) && !GoesLeft(t, key)
    ensures Pending(t, key).Some? && var u := Pending(t, key).value;
      OneLower(u, t) && (u.Node? ==> -2 <= Balance(u) <= 2)
      && (LevelBelow(t, key) <==> (u.Node? ==> Balanced(u.left) && Balanced(u.right)))
      && (u.Node? && Balance(u) == 2 ==> Balanced(u.right))
  {
    hide DropLast, Rebalance, NoTurnOnSpine, LevelOnSpine;
    LeanBounds(t);
    BalancedParts(t);
    ExactHight(t);
    if t.left.Node? {
      LeanBounds(t.left);
      BalancedParts(t.left);
      ExactHight(t.left);
    }
    if t.right.Node? {
      LeanBounds(t.right);
      BalancedParts(t.right);
      ExactHight(t.right);
    }
    if t.left.Node? && t.right.Node? {
      if t.left.right.Node? {
        DropLastLevel(t.left);
      }
      var l := if t.left.right.Leaf? then t.left.left else DropLast(t.left).value;
      OverLeans(Last(t.left).key, Last(t.left).meta, l, t.right);
    } else if t.left.Node? {
      OverLeans(t.left.key, t.left.meta, t.left.left, t.left.right);
    } else if t.right.Node? {
      OverLeans(t.right.key, t.right.meta, t.right.left, t.right.right);
    }
  }

  // A subtree out of balance is not put right by the rotation above it.
  lemma UnevenStays(u: Tree)
    requires u.Node? && Exact(u) && -2 <= Balance(u) <= 2 && Rebalance(u).Some?
    requires !(Balanced(u.left) && Balanced(u.right)) && (Balance(u) == 2 ==> Balanced(u.right))
    ensures !Balanced(Rebalance(u).value)
  {
    LeanBounds(u);
    BalancedParts(u);
    hide Exact;
    match MoveFor(u)
    case Stay =>
    case Right => RightMoveLeans(u);
    case Left => LeftMoveLeans(u);
    case LeftRight => LeftRightLeans(u);
    case RightLeft =>
  }

  // In place of a node over balanced subtrees: balance is kept exactly when no
  // node below the root leans by two and the root is restored.
  lemma RemoveBalancedIff(t: Tree, key: Str)
    requires Exact(t) && Balanced(t) && NoTurnBelow(t, key)
    ensures Remove(t, key).Some?
    ensures Balanced(Remove(t, key).value) <==> LevelBelow(t, key) && RootRestored(t, key)
  {
    hide Pending, LevelBelow, NoTurnBelow;
    RemoveTotal(t, key);
    PendingLevel(t, key);
    var u := Pending(t, key).value;
    if u.Node? {
      LeanBounds(u);
      if LevelBelow(t, key) {
        RebalanceRestoresIff(u);
      } else {
        UnevenStays(u);
      }
    }
  }

  // All that is promised of a removal at once: it takes away the key alone and
  // leaves a balanced tree exactly when no node below the root is rotated or
  // leans by two, and the root is restored.
  lemma RemoveKeepsIff(t: Tree, key: Str)
    requires Ordered(t) && Exact(t) && Balanced(t) && key in TreeMap(t)
    ensures Remove(t, key).Some?
    ensures Inorder(Remove(t, key).value) == Without(Inorder(t), key) && Balanced(Remove(t, key).value)
      <==> NoTurnBelow(t, key) && LevelBelow(t, key) && RootRestored(t, key)
  {
    hide Remove, Pending, LevelBelow, NoTurnBelow, Balanced, Exact, Sorted;
    RemoveTotal(t, key);
    RemoveExactIff(t, key);
    if NoTurnBelow(t, key) {
      RemoveBalancedIff(t, key);
    }
  }

  // ----- what goes wrong, by example -----

  // Removing e from d(b(a), f(e, g(h))) rotates f's subtree and loses g and h.
  lemma InnerRotationLosesKeys(m: nat)
    ensures var low := Over([98], m, Single([97], m), Leaf);
      var f := Over([102], m, Single([101], m), Over([103], m, Leaf, Single([104], m)));
      var t := Over([100], m, low, f);
      Exact(t) && Balanced(t) && !NoTurnBelow(t, [101])
      && Remove(t, [101]) == Some(Over([100], m, low, Single([102], m)))
  {
    var low := Over([98], m, Single([97], m), Leaf);
    var g := Over([103], m, Leaf, Single([104], m));
    var f := Over([102], m, Single([101], m), g);
    var t := Over([100], m, low, f);
    SingleShape([97], m);
    SingleShape([101], m);
    SingleShape([104], m);
    assert Exact(low) && Balanced(low) && Exact(g) && Balanced(g);
    assert Exact(f) && Balanced(f);
    assert KeyComp([100], [101]) == 1 && KeyComp([102], [101]) == -1 && KeyComp([101], [101]) == 0;
    assert Pending(Single([101], m), [101]) == Some(Leaf);
    assert Stays(Single([101], m), [101]) == Some(Leaf);
    var u := Over([102], m, Leaf, g);
    assert Pending(f, [101]) == Some(u);
    assert Balance(u) == 2 && Balance(u.right) == 1;
    assert Turned(u).value.stay == Single([102], m);
    assert Stays(f, [101]) == Some(Single([102], m));
    assert Pending(t, [101]) == Some(Over([100], m, low, Single([102], m)));
  }

  // A left child that leans neither way is not rotated up.
  lemma EvenChildIsLeft(m: nat)
    ensures var b := Over([98], m, Single([97], m), Single([99], m));
      var t := Over([100], m, b, Single([101], m));
      Exact(t) && Balanced(t) && NoTurnBelow(t, [101])
      && Remove(t, [101]) == Some(Over([100], m, b, Leaf)) && !Balanced(Over([100], m, b, Leaf))
  {
    var b := Over([98], m, Single([97], m), Single([99], m));
    var t := Over([100], m, b, Single([101], m));
    SingleShape([97], m);
    SingleShape([99], m);
    SingleShape([101], m);
    assert Exact(b) && Balanced(b);
    assert KeyComp([100], [101]) == 1 && KeyComp([101], [101]) == 0;
    assert Pending(Single([101], m), [101]) == Some(Leaf);
    assert Stays(Single([101], m), [101]) == Some(Leaf);
    assert Balance(Over([100], m, b, Leaf)) == -2;
  }
}
