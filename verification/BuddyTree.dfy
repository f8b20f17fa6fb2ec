/** The flattened binary tree of the buddy allocator: index arithmetic, block
    addresses, and what a marking of the tree says about memory. */
module BuddyTree {
  import opened Bits

  datatype Mark = FREE | USED | SPLIT

  // ----- index arithmetic -----

  function Level(pos: nat): (l: nat)
    ensures l >= 1 && Pow2(l - 1) <= pos + 1 < Pow2(l)
  {
    CeilLog2(pos + 2)
  }

  lemma LevelUnique(pos: nat, l: nat)
    requires l >= 1 && Pow2(l - 1) <= pos + 1 < Pow2(l)
    ensures Level(pos) == l
  {
    CeilLog2Unique(pos + 2, l);
  }

  lemma ChildLevel(pos: nat)
    ensures Level(2 * pos + 1) == Level(pos) + 1
    ensures Level(2 * pos + 2) == Level(pos) + 1
  {
    var l := Level(pos);
    assert Pow2(l) == 2 * Pow2(l - 1) && Pow2(l + 1) == 2 * Pow2(l);
    LevelUnique(2 * pos + 1, l + 1);
    LevelUnique(2 * pos + 2, l + 1);
  }

  function Parent(pos: nat): (p: nat)
    requires pos > 0
    ensures p < pos && (pos == 2 * p + 1 || pos == 2 * p + 2)
  {
    (pos - 1) / 2
  }

  lemma ParentLevel(pos: nat)
    requires pos > 0
    ensures Level(pos) == Level(Parent(pos)) + 1
  {
    ChildLevel(Parent(pos));
  }

  function Nodes(h: nat): nat {
    Pow2(h) - 1
  }

  lemma InTree(h: nat, pos: nat)
    ensures pos < Nodes(h) <==> Level(pos) <= h
    ensures 2 * pos + 2 < Nodes(h) <==> Level(pos) < h
    ensures 2 * pos + 1 < Nodes(h) <==> Level(pos) < h
  {
    LevelWithin(h, pos);
    ChildLevel(pos);
    LevelWithin(h, 2 * pos + 1);
    LevelWithin(h, 2 * pos + 2);
  }

  lemma LevelWithin(h: nat, pos: nat)
    ensures pos < Nodes(h) <==> Level(pos) <= h
  {
    if Level(pos) <= h {
      Pow2Monotone(Level(pos), h);
    } else {
      Pow2Monotone(h, Level(pos) - 1);
    }
  }

  // Kilobytes covered by a node of a tree with h levels.
  function Capacity(h: nat, pos: nat): (c: nat)
    ensures c >= 1
  {
    if Level(pos) <= h then Pow2(h - Level(pos)) else 1
  }

  // How many blocks of its own size precede the node's block.
  function Offset(pos: nat): nat {
    (pos + 1) % Pow2(Level(pos) - 1)
  }

  // First kilobyte of the node's block.
  function Address(h: nat, pos: nat): nat {
    Offset(pos) * Capacity(h, pos)
  }

  lemma OffsetValue(pos: nat)
    ensures Offset(pos) == pos + 1 - Pow2(Level(pos) - 1)
    ensures Offset(pos) < Pow2(Level(pos) - 1)
  {
    var p := Pow2(Level(pos) - 1);
    assert Pow2(Level(pos)) == 2 * p;
    ModuloOnce(pos + 1, p);
  }

  lemma ModuloOnce(n: nat, d: nat)
    requires d > 0 && d <= n < 2 * d
    ensures n % d == n - d
  {
  }

  lemma RootGeometry(h: nat)
    requires h >= 1
    ensures Level(0) == 1 && Address(h, 0) == 0 && Capacity(h, 0) == Pow2(h - 1)
  {
    LevelUnique(0, 1);
    OffsetValue(0);
  }

  // The two children halve the parent's block.
  lemma ChildGeometry(h: nat, pos: nat)
    requires Level(pos) < h
    ensures Capacity(h, pos) == 2 * Capacity(h, 2 * pos + 1) == 2 * Capacity(h, 2 * pos + 2)
    ensures Address(h, 2 * pos + 1) == Address(h, pos)
    ensures Address(h, 2 * pos + 2) == Address(h, pos) + Capacity(h, 2 * pos + 2)
  {
    ChildLevel(pos);
    OffsetValue(pos);
    OffsetValue(2 * pos + 1);
    OffsetValue(2 * pos + 2);
    var c := Capacity(h, 2 * pos + 1);
    assert Pow2(h - Level(pos)) == 2 * Pow2(h - Level(pos) - 1);
    Doubling(Offset(pos), c);
  }

  lemma Doubling(o: nat, c: nat)
    ensures o * (2 * c) == (2 * o) * c
    ensures (2 * o + 1) * c == (2 * o) * c + c
  {
  }

  // `n` is `top` or one of its descendants.
  predicate Under(top: nat, n: nat)
    decreases n
  {
    n == top || (n > top && Under(top, Parent(n)))
  }

  lemma {:induction false} UnderTrans(a: nat, b: nat, c: nat)
    requires Under(a, b) && Under(b, c)
    ensures Under(a, c)
    decreases c
  {
    if c != b {
      UnderTrans(a, b, Parent(c));
    }
  }

  lemma {:induction false} RootIsTop(n: nat)
    ensures Under(0, n)
  {
    if n > 0 {
      RootIsTop(Parent(n));
    }
  }

  lemma {:induction false} UnderLevel(top: nat, n: nat)
    requires Under(top, n)
    ensures Level(top) <= Level(n)
    ensures Level(top) == Level(n) ==> n == top
    decreases n
  {
    if n != top {
      UnderLevel(top, Parent(n));
      ParentLevel(n);
    }
  }

  // A proper descendant lies under exactly one child.
  lemma {:induction false} UnderChild(top: nat, n: nat)
    requires Under(top, n) && n != top
    ensures Under(2 * top + 1, n) || Under(2 * top + 2, n)
    decreases n
  {
    if Parent(n) != top {
      UnderChild(top, Parent(n));
    }
  }

  // On one level, everything under the left child precedes everything under
  // the right child.
  lemma {:induction false} LeftBeforeRight(top: nat, m: nat, n: nat)
    requires Under(2 * top + 1, m) && Under(2 * top + 2, n) && Level(m) == Level(n)
    ensures m < n
    decreases m
  {
    ChildLevel(top);
    if m == 2 * top + 1 {
      UnderLevel(2 * top + 2, n);
    } else {
      UnderLevel(2 * top + 1, m);
      if n == 2 * top + 2 {
        assert false;
      }
      ParentLevel(m);
      ParentLevel(n);
      LeftBeforeRight(top, Parent(m), Parent(n));
    }
  }

  // ----- blocks -----

  predicate Within(h: nat, inner: nat, outer: nat) {
    && Address(h, outer) <= Address(h, inner)
    && Address(h, inner) + Capacity(h, inner) <= Address(h, outer) + Capacity(h, outer)
  }

  predicate Apart(h: nat, m: nat, n: nat) {
    || Address(h, m) + Capacity(h, m) <= Address(h, n)
    || Address(h, n) + Capacity(h, n) <= Address(h, m)
  }

  lemma {:induction false} DescendantsNest(h: nat, top: nat, n: nat)
    requires Under(top, n) && n < Nodes(h)
    ensures Within(h, n, top)
    decreases n
  {
    if n != top {
      InTree(h, n);
      ParentLevel(n);
      InTree(h, Parent(n));
      ChildGeometry(h, Parent(n));
      DescendantsNest(h, top, Parent(n));
    }
  }

  // Blocks overlap exactly when one node is above the other.
  lemma {:induction false} UnrelatedApart(h: nat, m: nat, n: nat)
    requires m < Nodes(h) && n < Nodes(h)
    requires !Under(m, n) && !Under(n, m)
    ensures Apart(h, m, n)
    decreases m + n
  {
    if Level(m) < Level(n) {
      LevelAtLeastOne(m, n);
      UnrelatedByParent(m, n);
      UnrelatedApart(h, m, Parent(n));
      ApartFromChild(h, m, n);
    } else if Level(n) < Level(m) {
      LevelAtLeastOne(n, m);
      UnrelatedByParent(n, m);
      UnrelatedApart(h, n, Parent(m));
      ApartFromChild(h, n, m);
    } else {
      PeersApart(h, m, n);
    }
  }

  lemma ApartFromChild(h: nat, m: nat, n: nat)
    requires n > 0 && n < Nodes(h) && Apart(h, m, Parent(n))
    ensures Apart(h, m, n)
  {
    assert Under(Parent(n), n);
    DescendantsNest(h, Parent(n), n);
  }

  lemma PeersApart(h: nat, m: nat, n: nat)
    requires m < Nodes(h) && n < Nodes(h) && Level(m) == Level(n) && m != n
    ensures Apart(h, m, n)
  {
    OffsetValue(m);
    OffsetValue(n);
    DistinctSlots(Offset(m), Offset(n), Capacity(h, m));
  }

  lemma LevelAtLeastOne(m: nat, n: nat)
    requires Level(m) < Level(n)
    ensures n > 0
  {
    RootGeometry(1);
  }

  lemma UnrelatedByParent(m: nat, n: nat)
    requires n > 0 && Level(m) < Level(n) && !Under(m, n) && !Under(n, m)
    ensures !Under(m, Parent(n)) && !Under(Parent(n), m)
  {
    ParentLevel(n);
    if Under(m, Parent(n)) {
      UnderIsAbove(m, Parent(n));
    }
    if Under(Parent(n), m) {
      UnderLevel(Parent(n), m);
    }
  }

  lemma {:induction false} UnderIsAbove(top: nat, n: nat)
    requires Under(top, n)
    ensures top <= n
  {
  }

  lemma DistinctSlots(i: nat, j: nat, c: nat)
    requires i != j
    ensures i * c + c <= j * c || j * c + c <= i * c
  {
    if i < j {
      SlotBefore(i, j, c);
    } else {
      SlotBefore(j, i, c);
    }
  }

  lemma {:induction false} SlotBefore(i: nat, j: nat, c: nat)
    requires i < j
    ensures i * c + c <= j * c
  {
    if i + 1 < j {
      SlotBefore(i, j - 1, c);
      assert j * c == (j - 1) * c + c;
    } else {
      assert j * c == i * c + c;
    }
  }

  lemma InPool(h: nat, n: nat)
    requires h >= 1 && n < Nodes(h)
    ensures Address(h, n) + Capacity(h, n) <= Pow2(h - 1)
  {
    RootIsTop(n);
    DescendantsNest(h, 0, n);
    RootGeometry(h);
  }
}
