/** What a marking of the tree means: which blocks are handed out, which runs
    of memory are free, and how marking and merging change that. */
module BuddyMarks {
  import opened Bits
  import opened BuddyTree

  type Marks = seq<Mark>

  // Every node that is in use in any way hangs below SPLIT nodes only, and a
  // leaf is never SPLIT.
  ghost predicate WellMarked(h: nat, s: Marks) {
    && h >= 1 && |s| == Nodes(h)
    && (forall i: nat :: i < |s| ==> Hangs(s, i))
  }

  predicate Hangs(s: Marks, i: nat)
    requires i < |s|
  {
    && (i > 0 && s[i] != FREE ==> s[Parent(i)] == SPLIT)
    && (s[i] == SPLIT ==> 2 * i + 2 < |s|)
  }

  // A SPLIT node whose two halves are both FREE.
  predicate Stale(s: Marks, i: nat) {
    2 * i + 2 < |s| && s[i] == SPLIT && s[2 * i + 1] == FREE && s[2 * i + 2] == FREE
  }

  ghost predicate Coalesced(s: Marks) {
    forall i: nat :: !Stale(s, i)
  }

  // The node, or a node above it, is handed out.
  predicate Covered(s: Marks, n: nat)
    requires n < |s|
  {
    s[n] == USED || (n > 0 && Covered(s, Parent(n)))
  }

  // The node can be handed out as one block.
  predicate Available(s: Marks, n: nat) {
    n < |s| && s[n] == FREE && !Covered(s, n)
  }

  // No handed-out block overlaps the block of n.
  ghost predicate RunFree(h: nat, s: Marks, n: nat) {
    forall m :: 0 <= m < |s| && s[m] == USED ==> Apart(h, m, n)
  }

  lemma {:induction false} FreeBelow(h: nat, s: Marks, top: nat, n: nat)
    requires WellMarked(h, s) && Under(top, n) && n != top && n < |s| && s[top] != SPLIT
    ensures s[n] == FREE
    decreases n
  {
    assert Hangs(s, n);
    if Parent(n) != top {
      FreeBelow(h, s, top, Parent(n));
    }
  }

  lemma {:induction false} SplitAbove(h: nat, s: Marks, top: nat, n: nat)
    requires WellMarked(h, s) && Under(top, n) && n != top && n < |s| && s[n] != FREE
    ensures s[top] == SPLIT
    decreases n
  {
    assert Hangs(s, n);
    if Parent(n) != top {
      SplitAbove(h, s, top, Parent(n));
    }
  }

  // Handed-out blocks are pairwise disjoint and inside the pool.
  lemma LiveBlocksApart(h: nat, s: Marks, m: nat, n: nat)
    requires WellMarked(h, s) && m < |s| && n < |s| && m != n
    requires s[m] == USED && s[n] == USED
    ensures Apart(h, m, n)
    ensures Address(h, n) + Capacity(h, n) <= Pow2(h - 1)
  {
    if Under(m, n) {
      SplitAbove(h, s, m, n);
    } else if Under(n, m) {
      SplitAbove(h, s, n, m);
    } else {
      UnrelatedApart(h, m, n);
    }
    InPool(h, n);
  }

  lemma {:induction false} CoveredBelow(s: Marks, top: nat, n: nat)
    requires n < |s| && Under(top, n)
    requires Covered(s, top)
    ensures Covered(s, n)
    decreases n
  {
    if n != top {
      CoveredBelow(s, top, Parent(n));
    }
  }

  lemma {:induction false} CoveredByBlock(h: nat, s: Marks, n: nat) returns (m: nat)
    requires |s| == Nodes(h) && n < |s| && Covered(s, n)
    ensures m < |s| && s[m] == USED && Under(m, n) && !Apart(h, m, n)
  {
    if s[n] == USED {
      m := n;
    } else {
      m := CoveredByBlock(h, s, Parent(n));
    }
    DescendantsNest(h, m, n);
  }

  // A run can be handed out as a block exactly when nothing overlaps it and it
  // is not still marked SPLIT.
  lemma AvailableIsFreeRun(h: nat, s: Marks, n: nat)
    requires WellMarked(h, s) && n < |s|
    ensures Available(s, n) <==> RunFree(h, s, n) && s[n] != SPLIT
  {
    if Available(s, n) {
      forall m | 0 <= m < |s| && s[m] == USED ensures Apart(h, m, n) {
        if Under(n, m) {
          FreeBelow(h, s, n, m);
        } else if Under(m, n) {
          CoveredBelow(s, m, n);
        } else {
          UnrelatedApart(h, m, n);
        }
      }
    } else if RunFree(h, s, n) {
      if Covered(s, n) {
        var m := CoveredByBlock(h, s, n);
      }
    }
  }

  // In a coalesced tree a SPLIT node has a handed-out block below it.
  lemma {:induction false} SplitHoldsBlock(h: nat, s: Marks, n: nat) returns (m: nat)
    requires WellMarked(h, s) && Coalesced(s) && n < |s| && s[n] == SPLIT
    ensures n < m < |s| && s[m] == USED && Under(n, m)
    decreases |s| - n
  {
    assert Hangs(s, n) && !Stale(s, n);
    var c := if s[2 * n + 1] != FREE then 2 * n + 1 else 2 * n + 2;
    assert Parent(c) == n && Under(n, c);
    m := c;
    if s[c] == SPLIT {
      m := SplitHoldsBlock(h, s, c);
      UnderTrans(n, c, m);
    }
  }

  // Hence in a coalesced tree availability is exactly freedom of the run.
  lemma CoalescedAvailable(h: nat, s: Marks, n: nat)
    requires WellMarked(h, s) && Coalesced(s) && n < |s|
    ensures Available(s, n) <==> RunFree(h, s, n)
  {
    AvailableIsFreeRun(h, s, n);
    if s[n] == SPLIT {
      var m := SplitHoldsBlock(h, s, n);
      DescendantsNest(h, n, m);
      assert !Apart(h, m, n);
    }
  }

  // A coalesced tree is determined by its handed-out blocks.
  lemma CoalescedUnique(h: nat, s: Marks, t: Marks)
    requires WellMarked(h, s) && WellMarked(h, t) && Coalesced(s) && Coalesced(t)
    requires forall i :: 0 <= i < |s| ==> (s[i] == USED <==> t[i] == USED)
    ensures s == t
  {
    forall i | 0 <= i < |s| ensures s[i] == t[i] {
      if s[i] == SPLIT {
        var m := SplitHoldsBlock(h, s, i);
        SplitAbove(h, t, i, m);
      } else if t[i] == SPLIT {
        var m := SplitHoldsBlock(h, t, i);
        SplitAbove(h, s, i, m);
      }
    }
  }

  // With nothing handed out, a coalesced tree is one free root block.
  lemma EmptyCoalescedIsFresh(h: nat, s: Marks)
    requires WellMarked(h, s) && Coalesced(s)
    requires forall i :: 0 <= i < |s| ==> s[i] != USED
    ensures forall i :: 0 <= i < |s| ==> s[i] == FREE
  {
    CoalescedUnique(h, s, seq(|s|, i => FREE));
  }

  // ----- handing out a block -----

  // Every node from above n up to `top` becomes SPLIT.
  function SplitPath(s: Marks, top: nat, n: nat): (t: Marks)
    ensures |t| == |s|
    decreases n
  {
    if top < n && Parent(n) < |s| then SplitPath(s[Parent(n) := SPLIT], top, Parent(n)) else s
  }

  // n becomes USED and the nodes above it, up to `top`, become SPLIT.
  function Placed(s: Marks, top: nat, n: nat): (t: Marks)
    requires n < |s|
    ensures |t| == |s|
  {
    SplitPath(s[n := USED], top, n)
  }

  predicate Between(top: nat, i: nat, n: nat) {
    i != n && Under(top, i) && Under(i, n)
  }

  lemma {:induction false} SplitPathAt(s: Marks, top: nat, n: nat, i: nat)
    requires Under(top, n) && n < |s| && i < |s|
    ensures SplitPath(s, top, n)[i] == if Between(top, i, n) then SPLIT else s[i]
    decreases n
  {
    UnderIsAbove(top, n);
    if top < n {
      var p := Parent(n);
      SplitPathAt(s[p := SPLIT], top, p, i);
      BetweenParent(top, i, n);
    } else if Under(top, i) && Under(i, n) {
      UnderIsAbove(top, i);
      UnderIsAbove(i, n);
    }
  }

  lemma BetweenParent(top: nat, i: nat, n: nat)
    requires top < n && Under(top, n)
    ensures Between(top, i, n) <==> Between(top, i, Parent(n)) || i == Parent(n)
  {
    if Under(i, n) {
      UnderIsAbove(i, n);
    }
    if Under(i, Parent(n)) {
      UnderIsAbove(i, Parent(n));
    }
  }

  lemma PlacedAt(s: Marks, top: nat, n: nat, i: nat)
    requires Under(top, n) && n < |s| && i < |s|
    ensures Placed(s, top, n)[i]
         == if i == n then USED else if Between(top, i, n) then SPLIT else s[i]
  {
    SplitPathAt(s[n := USED], top, n, i);
  }

  lemma PlacedWellMarked(h: nat, s: Marks, n: nat)
    requires WellMarked(h, s) && Available(s, n)
    ensures WellMarked(h, Placed(s, 0, n))
    ensures Coalesced(s) ==> Coalesced(Placed(s, 0, n))
  {
    var t := Placed(s, 0, n);
    forall i: nat | i < |t| ensures Hangs(t, i) {
      PlacedHangs(h, s, n, i);
    }
    if Coalesced(s) {
      forall i: nat ensures !Stale(t, i) {
        PlacedNotStale(h, s, n, i);
      }
    }
  }

  lemma PlacedNotStale(h: nat, s: Marks, n: nat, i: nat)
    requires Available(s, n) && !Stale(s, i)
    ensures !Stale(Placed(s, 0, n), i)
  {
    if 2 * i + 2 < |s| {
      if Under(i, n) && i != n {
        UnderChild(i, n);
        PlacedOnPath(s, n, if Under(2 * i + 1, n) then 2 * i + 1 else 2 * i + 2);
      } else {
        NotUnderChildren(i, n);
        PlacedOffPath(s, n, i);
        PlacedOffPath(s, n, 2 * i + 1);
        PlacedOffPath(s, n, 2 * i + 2);
        StaleUnchanged(s, Placed(s, 0, n), n, i);
      }
    }
  }

  lemma StaleUnchanged(s: Marks, t: Marks, n: nat, i: nat)
    requires |s| == |t| && 2 * i + 2 < |s| && !Stale(s, i)
    requires t[i] == if i == n then USED else s[i]
    requires t[2 * i + 1] == if 2 * i + 1 == n then USED else s[2 * i + 1]
    requires t[2 * i + 2] == if 2 * i + 2 == n then USED else s[2 * i + 2]
    ensures !Stale(t, i)
  {
  }

  lemma PlacedOnPath(s: Marks, n: nat, i: nat)
    requires n < |s| && i < |s| && Under(i, n)
    ensures Placed(s, 0, n)[i] == if i == n then USED else SPLIT
  {
    RootIsTop(i);
    RootIsTop(n);
    PlacedAt(s, 0, n, i);
  }

  lemma PlacedOffPath(s: Marks, n: nat, i: nat)
    requires n < |s| && i < |s| && (!Under(i, n) || i == n)
    ensures Placed(s, 0, n)[i] == if i == n then USED else s[i]
  {
    RootIsTop(n);
    PlacedAt(s, 0, n, i);
  }

  lemma PlacedHangs(h: nat, s: Marks, n: nat, i: nat)
    requires WellMarked(h, s) && Available(s, n) && i < |s|
    ensures Hangs(Placed(s, 0, n), i)
  {
    assert Hangs(s, i);
    if Under(i, n) {
      PlacedOnPath(s, n, i);
      if i != n {
        InnerHasChildren(h, i, n);
      }
      if i > 0 {
        assert Under(Parent(i), i);
        UnderTrans(Parent(i), i, n);
        UnderIsAbove(i, n);
        PlacedOnPath(s, n, Parent(i));
      }
    } else {
      PlacedOffPath(s, n, i);
      if i > 0 {
        PlacedKeepsSplit(s, n, Parent(i));
      }
    }
  }

  lemma PlacedKeepsSplit(s: Marks, n: nat, i: nat)
    requires n < |s| && i < |s| && s[n] == FREE
    ensures s[i] == SPLIT ==> Placed(s, 0, n)[i] == SPLIT
    ensures s[i] == USED && !Under(i, n) ==> Placed(s, 0, n)[i] == USED
    ensures s[i] != FREE ==> Placed(s, 0, n)[i] != FREE
    ensures s[i] != USED && i != n ==> Placed(s, 0, n)[i] != USED
  {
    if Under(i, n) {
      PlacedOnPath(s, n, i);
    } else {
      PlacedOffPath(s, n, i);
    }
  }

  lemma NotUnderChildren(i: nat, n: nat)
    requires !Under(i, n) || i == n
    ensures !Under(2 * i + 1, n) && !Under(2 * i + 2, n)
  {
    if Under(2 * i + 1, n) {
      UnderIsAbove(2 * i + 1, n);
      assert Under(i, 2 * i + 1);
      UnderTrans(i, 2 * i + 1, n);
    }
    if Under(2 * i + 2, n) {
      UnderIsAbove(2 * i + 2, n);
      assert Under(i, 2 * i + 2);
      UnderTrans(i, 2 * i + 2, n);
    }
  }

  lemma InnerHasChildren(h: nat, i: nat, n: nat)
    requires n < Nodes(h) && Under(i, n) && i != n
    ensures 2 * i + 2 < Nodes(h)
  {
    UnderLevel(i, n);
    InTree(h, n);
    InTree(h, i);
  }

  // ----- giving a block back -----

  // The climb of the merge: from `parent` by halving, while the node is SPLIT
  // with two FREE halves.
  function MergeFrom(s: Marks, parent: nat): (t: Marks)
    ensures |t| == |s|
    ensures forall i :: 0 <= i < |s| ==> t[i] == s[i] || (s[i] == SPLIT && t[i] == FREE)
    decreases parent
  {
    if Stale(s, parent) then
      var s' := s[parent := FREE];
      if parent == 0 then s' else MergeFrom(s', parent / 2)
    else s
  }

  // Giving back the block of node n.
  function Released(s: Marks, n: nat): (t: Marks)
    requires n < |s|
    ensures |t| == |s|
  {
    MergeFrom(s[n := FREE], n / 2)
  }

  lemma {:induction false} MergeWellMarked(h: nat, s: Marks, parent: nat)
    requires WellMarked(h, s)
    ensures WellMarked(h, MergeFrom(s, parent))
    decreases parent
  {
    if Stale(s, parent) {
      var s' := s[parent := FREE];
      forall i: nat | i < |s'| ensures Hangs(s', i) {
        assert Hangs(s, i);
      }
      if parent > 0 {
        MergeWellMarked(h, s', parent / 2);
      }
    }
  }

  // Whatever the merge does, it keeps the tree well marked and takes back
  // exactly the one block.
  lemma ReleasedKeeps(h: nat, s: Marks, n: nat)
    requires WellMarked(h, s) && n < |s| && s[n] == USED
    ensures WellMarked(h, Released(s, n))
    ensures forall i :: 0 <= i < |s| ==> (Released(s, n)[i] == USED <==> s[i] == USED && i != n)
  {
    ClearedWellMarked(h, s, n);
    MergeWellMarked(h, s[n := FREE], n / 2);
  }

  lemma ClearedWellMarked(h: nat, s: Marks, n: nat)
    requires WellMarked(h, s) && n < |s| && s[n] == USED
    ensures WellMarked(h, s[n := FREE])
  {
    var t := s[n := FREE];
    forall i: nat | i < |t| ensures Hangs(t, i) {
      assert Hangs(s, i);
    }
  }

  // Going up from n through FREE buddies meets left children only.
  predicate LeftClimb(s: Marks, n: nat)
    requires n < |s|
  {
    n == 0 || Buddy(n) >= |s| || s[Buddy(n)] != FREE || (n % 2 == 1 && LeftClimb(s, Parent(n)))
  }

  function Buddy(n: nat): nat
    requires n > 0
  {
    if n % 2 == 1 then n + 1 else n - 1
  }

  ghost predicate CoalescedBut(s: Marks, n: nat) {
    forall i: nat :: Stale(s, i) ==> n > 0 && i == Parent(n)
  }

  lemma {:induction false} MergeCoalesces(h: nat, s: Marks, n: nat)
    requires WellMarked(h, s) && n < |s| && s[n] == FREE
    requires n > 0 ==> s[Parent(n)] == SPLIT
    requires CoalescedBut(s, n)
    ensures Coalesced(MergeFrom(s, n / 2)) <==> LeftClimb(s, n)
    decreases n
  {
    if n == 0 {
      assert !Stale(s, 0);
    } else {
      var p := Parent(n);
      assert Stale(s, p) <==> s[Buddy(n)] == FREE;
      if n % 2 == 0 {
        assert n / 2 == p + 1;
        assert !Stale(s, p + 1);
        assert MergeFrom(s, n / 2) == s;
      } else if Stale(s, p) {
        var s' := s[p := FREE];
        if p > 0 {
          assert Hangs(s, p);
          forall i: nat | i < |s| ensures Hangs(s', i) {
            assert Hangs(s, i);
          }
          forall i: nat | Stale(s', i) ensures i == Parent(p) {
            assert Stale(s, i) || i == Parent(p);
          }
          MergeCoalesces(h, s', p);
          ClimbUnchanged(s, p, p);
        } else {
          forall i: nat ensures !Stale(s', i) {
            assert Stale(s', i) ==> Stale(s, i);
          }
        }
      } else {
        assert MergeFrom(s, n / 2) == s;
      }
    }
  }

  lemma {:induction false} ClimbUnchanged(s: Marks, n: nat, p: nat)
    requires n <= p < |s| && (n == 0 || n + 1 != p)
    ensures LeftClimb(s[p := FREE], n) == LeftClimb(s, n)
    decreases n
  {
    if n > 0 && n % 2 == 1 {
      ClimbUnchanged(s, Parent(n), p);
    }
  }

  // Halving finds the parent of a left child only, so a released block is
  // fully merged exactly when its climb goes through left children.
  lemma ReleaseCoalescesIff(h: nat, s: Marks, n: nat)
    requires WellMarked(h, s) && Coalesced(s) && n < |s| && s[n] == USED
    ensures Coalesced(Released(s, n)) <==> LeftClimb(s, n)
  {
    var s' := s[n := FREE];
    ClearedWellMarked(h, s, n);
    assert Hangs(s, n);
    forall i: nat | Stale(s', i) ensures n > 0 && i == Parent(n) {
      assert !Stale(s, i);
    }
    MergeCoalesces(h, s', n);
    ClimbUnchanged(s, n, n);
  }

  // Releasing in turn the two halves of a two-kilobyte pool leaves the root
  // SPLIT over two FREE halves: the right half climbs to itself, not to the
  // root.
  lemma RightHalfIsNotMerged()
    ensures WellMarked(2, [SPLIT, USED, USED]) && Coalesced([SPLIT, USED, USED])
    ensures Released(Released([SPLIT, USED, USED], 1), 2) == [SPLIT, FREE, FREE]
    ensures !Coalesced([SPLIT, FREE, FREE]) && RunFree(2, [SPLIT, FREE, FREE], 0)
    ensures !Available([SPLIT, FREE, FREE], 0)
  {
    assert Pow2(2) == 4;
    var s := [SPLIT, USED, USED];
    assert s[1 := FREE] == [SPLIT, FREE, USED];
    assert !Stale(s[1 := FREE], 0);
    assert [SPLIT, FREE, USED][2 := FREE] == [SPLIT, FREE, FREE];
    assert Stale([SPLIT, FREE, FREE], 0);
    assert !Stale([SPLIT, FREE, FREE], 1);
  }

  // ----- first fit -----

  // n is the lowest available block of its size under `top`.
  ghost predicate Lowest(s: Marks, top: nat, n: nat) {
    && Under(top, n) && Available(s, n)
    && forall m: nat :: Under(top, m) && Level(m) == Level(n) && Available(s, m) ==> n <= m
  }

  lemma {:induction false} SomeBelow(h: nat, top: nat, l: nat) returns (m: nat)
    requires Level(top) <= l <= h
    ensures Under(top, m) && Level(m) == l && m < Nodes(h)
    decreases l - Level(top)
  {
    m := top;
    if Level(top) < l {
      ChildLevel(top);
      m := SomeBelow(h, 2 * top + 1, l);
      UnderTrans(top, 2 * top + 1, m);
    }
    InTree(h, m);
  }

  // Everything below an available node is available.
  lemma AvailableBelow(h: nat, s: Marks, top: nat, n: nat)
    requires WellMarked(h, s) && Under(top, n) && n < |s|
    requires top < |s| && Available(s, top)
    ensures Available(s, n)
  {
    if n != top {
      FreeBelow(h, s, top, n);
      UncoveredBelow(h, s, top, n);
    }
  }

  lemma {:induction false} UncoveredBelow(h: nat, s: Marks, top: nat, n: nat)
    requires WellMarked(h, s) && Under(top, n) && n < |s|
    requires top < |s| && Available(s, top)
    ensures !Covered(s, n)
    decreases n
  {
    if n != top {
      UncoveredBelow(h, s, top, Parent(n));
      FreeBelow(h, s, top, n);
    }
  }

  lemma UncoveredAbove(s: Marks, n: nat)
    requires 0 < n < |s| && Available(s, n)
    ensures s[Parent(n)] == SPLIT || Available(s, Parent(n))
  {
    assert !Covered(s, Parent(n));
  }

  // A lowest block is not below a right child that could have been a whole
  // available block together with its left buddy.
  lemma RightIsNotLowest(h: nat, s: Marks, p: nat, n: nat)
    requires WellMarked(h, s) && n < |s|
    requires Under(2 * p + 2, n) && p < |s| && Available(s, p)
    ensures !Lowest(s, 0, n)
  {
    UnderLevel(2 * p + 2, n);
    InTree(h, n);
    ChildLevel(p);
    var m := SomeBelow(h, 2 * p + 1, Level(n));
    EarlierAvailable(h, s, p, m, n);
    RootIsTop(m);
  }

  lemma EarlierAvailable(h: nat, s: Marks, p: nat, m: nat, n: nat)
    requires WellMarked(h, s) && p < |s| && Available(s, p)
    requires Under(2 * p + 1, m) && Under(2 * p + 2, n) && Level(m) == Level(n) && m < |s|
    ensures Available(s, m) && m < n
  {
    assert Under(p, 2 * p + 1);
    UnderTrans(p, 2 * p + 1, m);
    AvailableBelow(h, s, p, m);
    LeftBeforeRight(p, m, n);
  }

  // The block just handed out climbs through left children only.
  lemma {:induction false} LowestClimbsLeft(h: nat, s: Marks, n: nat, x: nat)
    requires WellMarked(h, s) && Coalesced(s) && Lowest(s, 0, n)
    requires Under(x, n) && x < |s| && Available(s, x)
    ensures LeftClimb(Placed(s, 0, n), x)
    decreases x
  {
    if x > 0 {
      UncoveredAbove(s, x);
      if s[Parent(x)] == SPLIT {
        BuddyTaken(h, s, x);
        PlacedKeepsSplit(s, n, Buddy(x));
      } else {
        LowestBelowLeft(h, s, n, x);
        LowestClimbsLeft(h, s, n, Parent(x));
      }
    }
  }

  lemma BuddyTaken(h: nat, s: Marks, x: nat)
    requires WellMarked(h, s) && Coalesced(s) && 0 < x < |s| && Available(s, x)
    requires s[Parent(x)] == SPLIT
    ensures Buddy(x) < |s| && s[Buddy(x)] != FREE
  {
    var p := Parent(x);
    assert Hangs(s, p) && !Stale(s, p);
  }

  lemma LowestBelowLeft(h: nat, s: Marks, n: nat, x: nat)
    requires WellMarked(h, s) && Lowest(s, 0, n) && 0 < x < |s|
    requires Under(x, n) && Available(s, Parent(x))
    ensures x % 2 == 1 && Under(Parent(x), n)
  {
    if x % 2 == 0 {
      RightIsNotLowest(h, s, Parent(x), n);
    }
    assert Under(Parent(x), x);
    UnderTrans(Parent(x), x, n);
  }

  // Releasing the block that was just handed out restores the exact tree.
  lemma ReleaseUndoesAlloc(h: nat, s: Marks, n: nat)
    requires WellMarked(h, s) && Coalesced(s) && Lowest(s, 0, n)
    ensures Released(Placed(s, 0, n), n) == s
  {
    var t := Placed(s, 0, n);
    PlacedWellMarked(h, s, n);
    PlacedOnPath(s, n, n);
    LowestClimbsLeft(h, s, n, n);
    ReleaseCoalescesIff(h, t, n);
    ReleasedKeeps(h, t, n);
    forall i | 0 <= i < |s| ensures s[i] == USED <==> Released(t, n)[i] == USED {
      PlacedKeepsSplit(s, n, i);
      if s[i] == USED && Under(i, n) {
        CoveredBelow(s, i, n);
      }
    }
    CoalescedUnique(h, s, Released(t, n));
  }

  // ----- accounting -----

  function UsedKb(h: nat, s: Marks, k: nat): nat
    requires k <= |s|
  {
    if k == 0 then 0 else
    UsedKb(h, s, k - 1) + (if s[k - 1] == USED then Capacity(h, k - 1) else 0)
  }

  // A node whose block is not part of a larger block.
  predicate Outermost(s: Marks, i: nat)
    requires i < |s|
  {
    i == 0 || s[Parent(i)] == SPLIT
  }

  function FreeKb(h: nat, s: Marks, k: nat): nat
    requires k <= |s|
  {
    if k == 0 then 0 else
    FreeKb(h, s, k - 1) + (if s[k - 1] == FREE && Outermost(s, k - 1) then Capacity(h, k - 1) else 0)
  }

  function PendingKb(h: nat, s: Marks, lo: nat, hi: nat): nat
    requires lo <= hi <= |s|
    decreases hi
  {
    if lo == hi then 0 else
    PendingKb(h, s, lo, hi - 1) + (if Outermost(s, hi - 1) then Capacity(h, hi - 1) else 0)
  }

  lemma {:induction false} PendingDropFirst(h: nat, s: Marks, lo: nat, hi: nat)
    requires lo < hi <= |s|
    ensures PendingKb(h, s, lo, hi)
         == PendingKb(h, s, lo + 1, hi) + (if Outermost(s, lo) then Capacity(h, lo) else 0)
    decreases hi
  {
    if lo + 1 < hi {
      PendingDropFirst(h, s, lo, hi - 1);
    }
  }

  // Walking the tree level by level, the blocks seen and the outermost
  // blocks still ahead make up the pool.
  function Horizon(s: Marks, k: nat): (hi: nat)
    requires k <= |s|
    ensures k <= hi <= |s|
  {
    if 2 * k + 1 <= |s| then 2 * k + 1 else |s|
  }

  lemma HorizonStep(h: nat, s: Marks, j: nat)
    requires WellMarked(h, s) && j < |s|
    ensures PendingKb(h, s, j + 1, Horizon(s, j + 1))
         == PendingKb(h, s, j + 1, Horizon(s, j)) + (if s[j] == SPLIT then Capacity(h, j) else 0)
  {
    assert Hangs(s, j);
    hide PendingKb, Capacity;
    if 2 * j + 2 < |s| {
      assert Parent(2 * j + 1) == j && Parent(2 * j + 2) == j;
      PendingTwoMore(h, s, j + 1, 2 * j + 1);
      HalvesAddUp(h, s, j);
    } else {
      NodesOdd(h, j);
    }
  }

  lemma PendingTwoMore(h: nat, s: Marks, lo: nat, hi: nat)
    requires lo <= hi && hi + 2 <= |s|
    ensures PendingKb(h, s, lo, hi + 2) == PendingKb(h, s, lo, hi)
      + (if Outermost(s, hi) then Capacity(h, hi) else 0)
      + (if Outermost(s, hi + 1) then Capacity(h, hi + 1) else 0)
  {
    assert PendingKb(h, s, lo, hi + 1)
        == PendingKb(h, s, lo, hi) + (if Outermost(s, hi) then Capacity(h, hi) else 0);
  }

  lemma HalvesAddUp(h: nat, s: Marks, j: nat)
    requires |s| == Nodes(h) && 2 * j + 2 < |s|
    ensures Capacity(h, j) == Capacity(h, 2 * j + 1) + Capacity(h, 2 * j + 2)
  {
    InTree(h, j);
    ChildGeometry(h, j);
  }

  lemma NodesOdd(h: nat, j: nat)
    requires h >= 1
    ensures Nodes(h) != 2 * j + 2
  {
    assert Pow2(h) == 2 * Pow2(h - 1);
  }

  ghost function Accounted(h: nat, s: Marks, k: nat): nat
    requires k <= |s|
  {
    UsedKb(h, s, k) + FreeKb(h, s, k) + PendingKb(h, s, k, Horizon(s, k))
  }

  lemma {:induction false} AccountedUpTo(h: nat, s: Marks, k: nat)
    requires WellMarked(h, s) && k <= |s|
    ensures Accounted(h, s, k) == Pow2(h - 1)
  {
    if k == 0 {
      AccountNone(h, s);
    } else {
      AccountedUpTo(h, s, k - 1);
      AccountNode(h, s, k - 1);
    }
  }

  lemma AccountNone(h: nat, s: Marks)
    requires WellMarked(h, s)
    ensures Accounted(h, s, 0) == Pow2(h - 1)
  {
    RootGeometry(h);
    assert Pow2(h) == 2 * Pow2(h - 1) && Horizon(s, 0) == 1;
    assert PendingKb(h, s, 0, 1) == PendingKb(h, s, 0, 0) + Capacity(h, 0);
  }

  lemma AccountNode(h: nat, s: Marks, j: nat)
    requires WellMarked(h, s) && j < |s|
    ensures Accounted(h, s, j + 1) == Accounted(h, s, j)
  {
    PendingDropFirst(h, s, j, Horizon(s, j));
    HorizonStep(h, s, j);
    assert Hangs(s, j);
  }

  // Handed-out and free memory always add up to the pool.
  lemma MemoryConserved(h: nat, s: Marks)
    requires WellMarked(h, s)
    ensures UsedKb(h, s, |s|) + FreeKb(h, s, |s|) == Pow2(h - 1)
  {
    AccountedUpTo(h, s, |s|);
  }

  lemma {:induction false} UsedKbOneMore(h: nat, s: Marks, t: Marks, n: nat, k: nat)
    requires |s| == |t| && k <= |s| && n < |s| && s[n] != USED && t[n] == USED
    requires forall i :: 0 <= i < |s| && i != n ==> (t[i] == USED <==> s[i] == USED)
    ensures UsedKb(h, t, k) == UsedKb(h, s, k) + (if n < k then Capacity(h, n) else 0)
  {
    if k > 0 {
      UsedKbOneMore(h, s, t, n, k - 1);
    }
  }

  // ----- from an address back to its node -----

  // `pos` reaches n by halving left children.
  predicate Spine(n: nat, pos: nat)
    decreases pos
  {
    pos == n || (pos > n && pos % 2 == 1 && Spine(n, pos / 2))
  }

  lemma {:induction false} SpineStep(n: nat, pos: nat)
    requires Spine(2 * n + 1, pos)
    ensures Spine(n, pos)
    decreases pos
  {
    if pos != 2 * n + 1 {
      SpineStep(n, pos / 2);
    }
  }

  lemma {:induction false} SpineUnder(n: nat, pos: nat)
    requires Spine(n, pos)
    ensures Under(n, pos)
    decreases pos
  {
    if pos != n {
      assert pos / 2 == Parent(pos);
      SpineUnder(n, pos / 2);
    }
  }

  function FirstLeaf(h: nat): nat
    requires h >= 1
  {
    Pow2(h - 1) - 1
  }

  // The leaf computed from a block's address is the end of its left spine.
  lemma {:induction false} LeafOnSpine(h: nat, n: nat)
    requires h >= 1 && n < Nodes(h)
    ensures FirstLeaf(h) + Address(h, n) < Nodes(h)
    ensures Spine(n, FirstLeaf(h) + Address(h, n))
    decreases h - Level(n)
  {
    InTree(h, n);
    OffsetValue(n);
    if Level(n) < h {
      ChildGeometry(h, n);
      ChildLevel(n);
      LeafOnSpine(h, 2 * n + 1);
      SpineStep(n, FirstLeaf(h) + Address(h, n));
    } else {
      assert Capacity(h, n) == 1;
      assert Pow2(h) == 2 * Pow2(h - 1);
    }
  }

  // ----- request sizes -----

  // Kilobytes looked for when `bytes` are asked for.
  function RequestKb(bytes: nat): (kb: nat)
    requires bytes >= 1024
  {
    Pow2(CeilLog2(bytes / 1024))
  }

  // Dropping the part below a kilobyte loses it exactly when the rest is a
  // power of two.
  lemma RequestCoveredIff(bytes: nat)
    requires bytes >= 1024
    ensures RequestKb(bytes) * 1024 >= bytes <==> bytes % 1024 == 0 || RequestKb(bytes) != bytes / 1024
  {
    var q := bytes / 1024;
    assert bytes == q * 1024 + bytes % 1024;
  }

  // The arena's own request, 1024 pages and a 32-byte header, is one such.
  lemma ArenaRequestFallsShort()
    ensures RequestKb(1024 * 4096 + 32) * 1024 < 1024 * 4096 + 32
  {
    var bytes := 1024 * 4096 + 32;
    assert bytes / 1024 == 4096;
    assert Pow2(4) == 16;
    Pow2Add(4, 4);
    Pow2Add(8, 3);
    assert Pow2(11) == 2048 && Pow2(12) == 4096;
    CeilLog2Unique(4096, 12);
  }

  // ----- steps of the search for a block -----

  lemma CapacityLevel(h: nat, m: nat, n: nat)
    requires m < Nodes(h) && n < Nodes(h)
    ensures Capacity(h, m) == Capacity(h, n) <==> Level(m) == Level(n)
    ensures Level(m) <= Level(n) ==> Capacity(h, n) <= Capacity(h, m)
  {
    InTree(h, m);
    InTree(h, n);
    if Level(m) < Level(n) {
      Pow2Monotone(h - Level(n), h - Level(m));
    } else if Level(n) < Level(m) {
      Pow2Monotone(h - Level(m), h - Level(n));
    }
  }

  // No block of kbytes can be handed out under pos.
  ghost predicate NoneOf(h: nat, s: Marks, pos: nat, kbytes: nat) {
    forall n: nat :: n < |s| && Under(pos, n) && Capacity(h, n) == kbytes ==> !Available(s, n)
  }

  lemma NoneOutside(h: nat, s: Marks, pos: nat, kbytes: nat)
    requires pos > |s|
    ensures NoneOf(h, s, pos, kbytes)
  {
    forall n: nat | n < |s| ensures !Under(pos, n) {
      if Under(pos, n) {
        UnderIsAbove(pos, n);
      }
    }
  }

  lemma NoneTooLarge(h: nat, s: Marks, pos: nat, kbytes: nat)
    requires |s| == Nodes(h) && pos < |s| && Capacity(h, pos) < kbytes
    ensures NoneOf(h, s, pos, kbytes)
  {
    forall n: nat | n < |s| && Under(pos, n) ensures Capacity(h, n) != kbytes {
      UnderLevel(pos, n);
      CapacityLevel(h, pos, n);
    }
  }

  lemma NoneInUsed(h: nat, s: Marks, pos: nat, kbytes: nat)
    requires pos < |s| && s[pos] == USED
    ensures NoneOf(h, s, pos, kbytes)
  {
    forall n: nat | n < |s| && Under(pos, n) ensures !Available(s, n) {
      CoveredBelow(s, pos, n);
    }
  }

  lemma NoneAtSplit(h: nat, s: Marks, pos: nat)
    requires |s| == Nodes(h) && pos < |s| && s[pos] == SPLIT
    ensures NoneOf(h, s, pos, Capacity(h, pos))
  {
    forall n: nat | n < |s| && Under(pos, n) && Capacity(h, n) == Capacity(h, pos)
      ensures !Available(s, n)
    {
      CapacityLevel(h, pos, n);
      UnderLevel(pos, n);
    }
  }

  lemma NoneInEither(h: nat, s: Marks, pos: nat, kbytes: nat)
    requires |s| == Nodes(h) && pos < |s| && s[pos] == SPLIT
    requires NoneOf(h, s, 2 * pos + 1, kbytes) && NoneOf(h, s, 2 * pos + 2, kbytes)
    ensures NoneOf(h, s, pos, kbytes)
  {
    forall n: nat | n < |s| && Under(pos, n) && Capacity(h, n) == kbytes
      ensures !Available(s, n)
    {
      if n != pos {
        UnderChild(pos, n);
      }
    }
  }

  // The code halves the capacity to decide whether to go down.
  lemma HalfFits(h: nat, pos: nat, e: nat)
    requires pos < Nodes(h)
    ensures Capacity(h, pos) / 2 >= Pow2(e)
      ==> 2 * pos + 2 < Nodes(h) && Capacity(h, 2 * pos + 1) >= Pow2(e)
    ensures Capacity(h, pos) >= Pow2(e) > Capacity(h, pos) / 2 ==> Capacity(h, pos) == Pow2(e)
  {
    InTree(h, pos);
    if Level(pos) < h {
      ChildGeometry(h, pos);
    }
    var c := h - Level(pos);
    if e < c {
      Pow2Monotone(e, c);
    } else {
      Pow2Monotone(c, e);
    }
  }

  // A free node always has a block of any smaller size under its left child.
  lemma FreeNodeFits(h: nat, s: Marks, pos: nat, e: nat) returns (n: nat)
    requires WellMarked(h, s) && pos < |s| && Available(s, pos)
    requires Capacity(h, pos) / 2 >= Pow2(e)
    ensures n < |s| && Under(2 * pos + 1, n) && Capacity(h, n) == Pow2(e) && Available(s, n)
  {
    HalfFits(h, pos, e);
    LevelForSize(h, 2 * pos + 1, e);
    n := SomeBelow(h, 2 * pos + 1, h - e);
    assert Under(pos, 2 * pos + 1);
    UnderTrans(pos, 2 * pos + 1, n);
    AvailableBelow(h, s, pos, n);
    CapacityAt(h, n, e);
  }

  lemma LevelForSize(h: nat, pos: nat, e: nat)
    requires pos < Nodes(h) && Capacity(h, pos) >= Pow2(e)
    ensures e <= h && Level(pos) <= h - e
  {
    InTree(h, pos);
    if h - Level(pos) <= e {
      Pow2Monotone(h - Level(pos), e);
    }
  }

  lemma CapacityAt(h: nat, n: nat, e: nat)
    requires e <= h && Level(n) == h - e
    ensures Capacity(h, n) == Pow2(e)
  {
  }

  lemma LowestSelf(s: Marks, pos: nat)
    requires Available(s, pos)
    ensures Lowest(s, pos, pos)
  {
    forall m: nat | Under(pos, m) && Level(m) == Level(pos) && Available(s, m) ensures pos <= m {
      UnderIsAbove(pos, m);
    }
  }

  lemma LowestFromLeft(s: Marks, pos: nat, n: nat)
    requires Lowest(s, 2 * pos + 1, n)
    ensures Lowest(s, pos, n)
  {
    assert Under(pos, 2 * pos + 1);
    UnderTrans(pos, 2 * pos + 1, n);
    ChildLevel(pos);
    UnderLevel(2 * pos + 1, n);
    forall m: nat | Under(pos, m) && Level(m) == Level(n) && Available(s, m) ensures n <= m {
      UnderChild(pos, m);
      if !Under(2 * pos + 1, m) {
        LeftBeforeRight(pos, n, m);
      }
    }
  }

  lemma LowestFromRight(h: nat, s: Marks, pos: nat, n: nat)
    requires |s| == Nodes(h) && Lowest(s, 2 * pos + 2, n)
    requires NoneOf(h, s, 2 * pos + 1, Capacity(h, n))
    ensures Lowest(s, pos, n)
  {
    assert Under(pos, 2 * pos + 2);
    UnderTrans(pos, 2 * pos + 2, n);
    ChildLevel(pos);
    UnderLevel(2 * pos + 2, n);
    forall m: nat | Under(pos, m) && Level(m) == Level(n) && Available(s, m) ensures n <= m {
      UnderChild(pos, m);
      CapacityLevel(h, m, n);
    }
  }

  lemma PlacedFromChild(s: Marks, pos: nat, c: nat, n: nat)
    requires c > 0 && Parent(c) == pos && Under(c, n) && n < |s|
    ensures Under(pos, n) && pos < n
    ensures Placed(s, pos, n) == Placed(s, c, n)[pos := SPLIT]
  {
    assert Under(pos, c);
    UnderTrans(pos, c, n);
    UnderIsAbove(c, n);
    forall i | 0 <= i < |s|
      ensures Placed(s, pos, n)[i] == Placed(s, c, n)[pos := SPLIT][i]
    {
      PlacedAt(s, pos, n, i);
      PlacedAt(s, c, n, i);
      BetweenFromChild(pos, c, i, n);
    }
  }

  lemma {:induction false} BetweenFromChild(pos: nat, c: nat, i: nat, n: nat)
    requires c > 0 && Parent(c) == pos && Under(c, n)
    ensures Between(pos, i, n) <==> Between(c, i, n) || i == pos
    decreases n
  {
    UnderIsAbove(c, n);
    if n == c {
      BetweenParent(pos, i, n);
      BetweenSelf(pos, i);
      BetweenSelf(c, i);
    } else {
      BetweenFromChild(pos, c, i, Parent(n));
      assert Under(pos, c);
      UnderTrans(pos, c, n);
      BetweenParent(pos, i, n);
      BetweenParent(c, i, n);
    }
  }

  lemma BetweenSelf(n: nat, i: nat)
    ensures !Between(n, i, n)
  {
    if Under(n, i) && Under(i, n) {
      UnderIsAbove(n, i);
      UnderIsAbove(i, n);
    }
  }

  lemma {:induction false} FreshAccount(h: nat, s: Marks, k: nat)
    requires k <= |s| && forall i :: 0 <= i < |s| ==> s[i] == FREE
    ensures UsedKb(h, s, k) == 0
  {
    if k > 0 {
      FreshAccount(h, s, k - 1);
    }
  }
}
