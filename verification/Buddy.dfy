/** The buddy allocator: a tree of one-byte marks updated in place. Pointers are
    byte offsets from the start of the pool. */
module Buddy {
  import opened Bits
  import opened BuddyTree
  import opened BuddyMarks

  datatype Pointer = Null | At(offset: nat)

  datatype FreeOutcome = Freed | DoubleFree

  const KB: nat := 1024

  // A block handed out: where it starts and how long it is, in bytes.
  datatype Block = Block(start: nat, length: nat)

  function BlockOf(h: nat, n: nat): Block {
    Block(Address(h, n) * KB, Capacity(h, n) * KB)
  }

  ghost function LiveBlocks(h: nat, s: Marks): set<Block> {
    set n | 0 <= n < |s| && s[n] == USED :: BlockOf(h, n)
  }

  ghost predicate HoldsBlockAt(h: nat, s: Marks, n: nat, ptr: nat) {
    n < |s| && s[n] == USED && Address(h, n) == ptr / KB
  }

  // Over the whole pool, live blocks are disjoint byte ranges inside it.
  lemma LiveBlocksDisjoint(h: nat, s: Marks, b: Block, c: Block)
    requires WellMarked(h, s) && b in LiveBlocks(h, s) && c in LiveBlocks(h, s) && b != c
    ensures b.start + b.length <= c.start || c.start + c.length <= b.start
    ensures c.start + c.length <= Pow2(h - 1) * KB
  {
    var m: nat :| m < |s| && s[m] == USED && b == BlockOf(h, m);
    var n: nat :| n < |s| && s[n] == USED && c == BlockOf(h, n);
    LiveBlocksApart(h, s, m, n);
  }

  lemma BlocksDistinct(h: nat, s: Marks, m: nat, n: nat)
    requires WellMarked(h, s) && m < |s| && n < |s| && m != n
    requires s[m] == USED && s[n] == USED
    ensures BlockOf(h, m) != BlockOf(h, n)
  {
    LiveBlocksApart(h, s, m, n);
  }

  lemma LiveAfterPlaced(h: nat, s: Marks, n: nat)
    requires WellMarked(h, s) && Available(s, n)
    ensures LiveBlocks(h, Placed(s, 0, n)) == LiveBlocks(h, s) + {BlockOf(h, n)}
    ensures BlockOf(h, n) !in LiveBlocks(h, s)
  {
    var t := Placed(s, 0, n);
    PlacedWellMarked(h, s, n);
    PlacedOnPath(s, n, n);
    forall i | 0 <= i < |s| && i != n ensures t[i] == USED <==> s[i] == USED {
      PlacedKeepsSplit(s, n, i);
      if s[i] == USED {
        PathNotUsed(s, i, n);
      }
    }
    forall i | 0 <= i < |s| && s[i] == USED ensures BlockOf(h, i) != BlockOf(h, n) {
      BlocksDistinct(h, t, i, n);
    }
    forall b | b in LiveBlocks(h, s) + {BlockOf(h, n)} ensures b in LiveBlocks(h, t) {
      var i: nat :| i < |s| && t[i] == USED && b == BlockOf(h, i);
    }
  }

  lemma PathNotUsed(s: Marks, i: nat, n: nat)
    requires Available(s, n) && i < |s| && s[i] == USED
    ensures i != n && !Under(i, n)
  {
    if Under(i, n) {
      CoveredBelow(s, i, n);
    }
  }

  lemma LiveAfterReleased(h: nat, s: Marks, n: nat)
    requires WellMarked(h, s) && n < |s| && s[n] == USED
    ensures LiveBlocks(h, Released(s, n)) == LiveBlocks(h, s) - {BlockOf(h, n)}
  {
    var t := Released(s, n);
    ReleasedKeeps(h, s, n);
    forall i | 0 <= i < |s| && s[i] == USED && i != n ensures BlockOf(h, i) != BlockOf(h, n) {
      BlocksDistinct(h, s, i, n);
    }
    forall b | b in LiveBlocks(h, s) - {BlockOf(h, n)} ensures b in LiveBlocks(h, t) {
      var i: nat :| i < |s| && s[i] == USED && b == BlockOf(h, i);
      assert t[i] == USED;
    }
  }

  // From marks s to marks t, the lowest block of kbytes under top is taken.
  ghost predicate Grants(h: nat, s: Marks, t: Marks, top: nat, n: nat, kbytes: nat) {
    && Lowest(s, top, n)
    && Capacity(h, n) == kbytes
    && t == Placed(s, top, n)
  }

  // Nothing above pos is handed out.
  predicate Searchable(s: Marks, pos: nat)
    requires pos < |s|
  {
    pos > 0 ==> !Covered(s, Parent(pos))
  }

  lemma SearchChildren(h: nat, s: Marks, pos: nat)
    requires 2 * pos + 2 < |s| && Searchable(s, pos) && s[pos] != USED
    ensures Searchable(s, 2 * pos + 1) && Searchable(s, 2 * pos + 2)
  {
    assert Parent(2 * pos + 1) == pos && Parent(2 * pos + 2) == pos;
  }

  lemma FreeNeverRefuses(h: nat, s: Marks, pos: nat, e: nat)
    requires WellMarked(h, s) && pos < |s| && Searchable(s, pos) && s[pos] == FREE
    requires Capacity(h, pos) / 2 >= Pow2(e)
    ensures !NoneOf(h, s, 2 * pos + 1, Pow2(e))
  {
    var n := FreeNodeFits(h, s, pos, e);
  }

  lemma GrantWhole(h: nat, s: Marks, pos: nat)
    requires pos < |s| && Searchable(s, pos) && s[pos] == FREE
    ensures Grants(h, s, s[pos := USED], pos, pos, Capacity(h, pos))
  {
    LowestSelf(s, pos);
  }

  lemma GrantFromLeft(h: nat, s: Marks, t: Marks, pos: nat, n: nat, kbytes: nat)
    requires pos < |s| && Grants(h, s, t, 2 * pos + 1, n, kbytes)
    ensures Grants(h, s, t[pos := SPLIT], pos, n, kbytes)
    ensures s[pos] == SPLIT ==> t[pos := SPLIT] == t
  {
    PlacedFromChild(s, pos, 2 * pos + 1, n);
    LowestFromLeft(s, pos, n);
    if s[pos] == SPLIT {
      SplitStays(s, pos, 2 * pos + 1, n);
    }
  }

  lemma GrantFromRight(h: nat, s: Marks, t: Marks, pos: nat, n: nat, kbytes: nat)
    requires |s| == Nodes(h) && pos < |s| && Grants(h, s, t, 2 * pos + 2, n, kbytes)
    requires s[pos] == SPLIT && NoneOf(h, s, 2 * pos + 1, kbytes)
    ensures Grants(h, s, t, pos, n, kbytes)
  {
    PlacedFromChild(s, pos, 2 * pos + 2, n);
    LowestFromRight(h, s, pos, n);
    SplitStays(s, pos, 2 * pos + 2, n);
  }

  class BuddyInfo {
    const level: nat
    const leaves: nat
    var used: nat
    const tree: array<Mark>

    ghost predicate Valid()
      reads this, tree
    {
      && 1 <= level <= 22
      && leaves == Nodes(level)
      && WellMarked(level, tree[..])
      && used == UsedKb(level, tree[..], tree.Length)
    }

    ghost function Live(): set<Block>
      reads this, tree
    {
      LiveBlocks(level, tree[..])
    }

    // Sizes above 2^21 kilobytes overflow the 32-bit byte counts of the original.
    constructor (size: nat)
      requires 0 < size <= 0x20_0000
      ensures Valid() && fresh(tree) && used == 0
      ensures level == CeilLog2(size) + 1 && Live() == {}
      ensures Coalesced(tree[..])
    {
      var exponent := Bsqrt(size);
      var minimum := Bsqrt(1);
      level := exponent - minimum + 1;
      leaves := Pow2(exponent - minimum + 1) - 1;
      tree := new Mark[Pow2(exponent - minimum + 1) - 1](_ => FREE);
      used := 0;
      new;
      CeilLog2Unique(1, 0);
      if exponent > 21 {
        Pow2Monotone(21, exponent - 1);
        Pow2Values();
      }
      FreshAccount(level, tree[..], tree.Length);
    }

    // Looks for kbytes in the subtree of pos: left before right, splitting a
    // free block down to the size asked for.
    method AckMemory(kbytes: nat, pos: nat, ghost e: nat) returns (r: Pointer, ghost node: nat)
      requires WellMarked(level, tree[..]) && leaves == Nodes(level)
      requires kbytes == Pow2(e)
      requires pos != leaves
      requires pos < leaves ==> Searchable(tree[..], pos)
      modifies tree, this`used
      ensures r.Null? ==> tree[..] == old(tree[..]) && used == old(used)
      ensures r.Null? ==> NoneOf(level, tree[..], pos, kbytes)
      ensures r.At? ==> Grants(level, old(tree[..]), tree[..], pos, node, kbytes)
      ensures r.At? ==> r.offset == Address(level, node) * KB && used == old(used) + kbytes
      decreases if pos < leaves then leaves - pos else 0
    {
      r, node := Null, 0;
      ghost var s := tree[..];
      if pos > leaves {
        NoneOutside(level, s, pos, kbytes);
        return;
      }
      var capacity := Capacity(level, pos);
      HalfFits(level, pos, e);
      if capacity < kbytes {
        NoneTooLarge(level, s, pos, kbytes);
        return;
      }
      match tree[pos] {
        case FREE =>
          if capacity / 2 >= kbytes {
            SearchChildren(level, s, pos);
            r, node := AckMemory(kbytes, 2 * pos + 1, e);
            if r.At? {
              ghost var t := tree[..];
              tree[pos] := SPLIT;
              assert tree[..] == t[pos := SPLIT];
              GrantFromLeft(level, s, t, pos, node, kbytes);
              return;
            }
            // A free node never refuses, so the right half is not tried.
            FreeNeverRefuses(level, s, pos, e);
            assert false;
          }
          GrantWhole(level, s, pos);
          tree[pos] := USED;
          assert tree[..] == s[pos := USED];
          used := used + capacity;
          r, node := At(Address(level, pos) * KB), pos;
        case SPLIT =>
          if capacity / 2 < kbytes {
            NoneAtSplit(level, s, pos);
            return;
          }
          SearchChildren(level, s, pos);
          r, node := AckMemory(kbytes, 2 * pos + 1, e);
          if r.Null? {
            r, node := AckMemory(kbytes, 2 * pos + 2, e);
            if r.Null? {
              NoneInEither(level, s, pos, kbytes);
              return;
            }
            GrantFromRight(level, s, tree[..], pos, node, kbytes);
            return;
          }
          GrantFromLeft(level, s, tree[..], pos, node, kbytes);
        case USED =>
          NoneInUsed(level, s, pos, kbytes);
      }
    }

    // Hands out the lowest available block of the rounded size, or nothing.
    method Alloc(bytes: nat) returns (ptr: Pointer, ghost node: nat)
      requires Valid() && KB <= bytes && bytes / KB < 0x8000_0000
      modifies tree, this`used
      ensures Valid()
      ensures ptr.Null? ==> tree[..] == old(tree[..])
      ensures ptr.Null? <==> NoneOf(level, old(tree[..]), 0, RequestKb(bytes))
      ensures ptr.At? ==> Lowest(old(tree[..]), 0, node) && Capacity(level, node) == RequestKb(bytes)
      ensures ptr.At? ==> tree[..] == Placed(old(tree[..]), 0, node)
      ensures ptr.At? ==> Block(ptr.offset, RequestKb(bytes) * KB) == BlockOf(level, node)
      ensures ptr.At? ==> BlockOf(level, node) !in old(Live())
      ensures Live() == old(Live()) + (if ptr.At? then {Block(ptr.offset, RequestKb(bytes) * KB)} else {})
      ensures old(Coalesced(tree[..])) ==> Coalesced(tree[..])
    {
      var exponent := Bsqrt(bytes / KB);
      var allocSize := Pow2(exponent);
      ghost var s := tree[..];
      ptr, node := AckMemory(allocSize, 0, exponent);
      if ptr.At? {
        PlacedWellMarked(level, s, node);
        LiveAfterPlaced(level, s, node);
        AccountPlaced(level, s, node);
      }
    }

    // Climbs while the node is SPLIT over two FREE halves; halving the
    // position reaches the parent of a left child only.
    method Merge(pos: nat)
      requires pos < leaves && leaves == tree.Length && WellMarked(level, tree[..])
      modifies tree
      ensures tree[..] == MergeFrom(old(tree[..]), pos / 2)
    {
      var parent: nat := pos / 2;
      while true
        invariant 0 <= parent < leaves && WellMarked(level, tree[..])
        invariant MergeFrom(tree[..], parent) == MergeFrom(old(tree[..]), pos / 2)
        decreases parent
      {
        ghost var t := tree[..];
        assert Hangs(t, parent);
        if tree[parent] == SPLIT && tree[2 * parent + 1] == FREE && tree[2 * parent + 2] == FREE {
          tree[parent] := FREE;
          assert tree[..] == t[parent := FREE];
          MergeStepWellMarked(level, t, parent);
        } else {
          break;
        }
        if parent == 0 {
          break;
        }
        parent := parent / 2;
      }
    }

    // Gives back the block found by climbing from the leaf under ptr.
    method Free(ptr: nat) returns (outcome: FreeOutcome, ghost node: nat)
      requires Valid() && ptr / KB < Pow2(level - 1)
      modifies tree, this`used
      ensures Valid()
      ensures outcome == Freed <==> node < leaves && old(tree[..])[node] == USED
      ensures outcome == Freed ==> tree[..] == Released(old(tree[..]), node)
      ensures outcome == Freed ==> Live() == old(Live()) - {BlockOf(level, node)}
      ensures outcome == DoubleFree ==> tree[..] == old(tree[..])
      ensures forall n: nat :: HoldsBlockAt(level, old(tree[..]), n, ptr) ==> outcome == Freed && node == n
    {
      ghost var s := tree[..];
      var pos: nat := Pow2(level - 1) + ptr / KB - 1;
      assert Nodes(level) == 2 * Pow2(level - 1) - 1;
      forall n: nat | HoldsBlockAt(level, s, n, ptr) ensures Spine(n, pos) {
        LeafOnSpine(level, n);
      }
      assert Hangs(s, pos);
      match tree[pos] {
        case USED =>
        case FREE =>
          while pos > 0 && tree[pos] == FREE
            invariant pos < leaves
            invariant forall n: nat :: HoldsBlockAt(level, s, n, ptr) ==> Spine(n, pos)
          {
            pos := pos / 2;
          }
        case SPLIT =>
          // A leaf is never SPLIT.
          assert false;
      }
      forall n: nat | HoldsBlockAt(level, s, n, ptr) ensures n == pos {
        if n != pos {
          SpineUnder(n, pos);
          FreeBelow(level, s, n, pos);
        }
      }
      node := pos;
      match tree[pos] {
        case FREE =>
          outcome := DoubleFree;
        case SPLIT =>
          outcome := DoubleFree;
        case USED =>
          ClearedWellMarked(level, s, pos);
          AccountReleased(level, s, pos);
          ReleasedKeeps(level, s, pos);
          LiveAfterReleased(level, s, pos);
          tree[pos] := FREE;
          used := used - Capacity(level, pos);
          assert tree[..] == s[pos := FREE];
          Merge(pos);
          outcome := Freed;
      }
    }
  }

  lemma MergeStepWellMarked(h: nat, s: Marks, i: nat)
    requires WellMarked(h, s) && Stale(s, i)
    ensures WellMarked(h, s[i := FREE])
  {
    var t := s[i := FREE];
    forall j: nat | j < |t| ensures Hangs(t, j) {
      assert Hangs(s, j);
    }
  }

  lemma SplitStays(s: Marks, pos: nat, c: nat, n: nat)
    requires c > 0 && Parent(c) == pos && Under(c, n) && n < |s| && pos < |s| && s[pos] == SPLIT
    ensures Placed(s, c, n)[pos := SPLIT] == Placed(s, c, n)
  {
    PlacedAt(s, c, n, pos);
    if Under(c, pos) {
      UnderIsAbove(c, pos);
    }
    UnderIsAbove(c, n);
  }

  lemma AccountPlaced(h: nat, s: Marks, n: nat)
    requires Available(s, n)
    ensures UsedKb(h, Placed(s, 0, n), |s|) == UsedKb(h, s, |s|) + Capacity(h, n)
  {
    forall i | 0 <= i < |s| && i != n ensures Placed(s, 0, n)[i] == USED <==> s[i] == USED {
      PlacedKeepsSplit(s, n, i);
      if s[i] == USED {
        PathNotUsed(s, i, n);
      }
    }
    PlacedOnPath(s, n, n);
    UsedKbOneMore(h, s, Placed(s, 0, n), n, |s|);
  }

  lemma AccountReleased(h: nat, s: Marks, n: nat)
    requires WellMarked(h, s) && n < |s| && s[n] == USED
    ensures UsedKb(h, s, |s|) == UsedKb(h, Released(s, n), |s|) + Capacity(h, n)
  {
    ReleasedKeeps(h, s, n);
    UsedKbOneMore(h, Released(s, n), s, n, |s|);
  }
}
