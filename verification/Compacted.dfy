/** What can still be read after a compaction, whatever the gaps: the bytes that
    the moves leave, worked out from the offsets and the values alone. */
module Compacted {
  import opened Bytes
  import opened Compaction
  import opened Options

  // Every value is at its offset; the cells may lie in any order and overlap.
  ghost predicate AllHeld(data: Data, offs: seq<nat>, vals: seq<Str>) {
    |offs| == |vals| && forall i: nat :: i < |vals| ==> Holds(data, offs[i], vals[i])
  }

  // ----- the moves, on offsets and values -----

  // The byte that the first n moves put at x, if they put one there.
  function Cover(offs: seq<nat>, vals: seq<Str>, n: nat, x: nat): Option<Byte>
    requires n <= |vals| == |offs|
    decreases n, 0, 0
  {
    if n == 0 then None else
    var to := Place(offs, vals, n - 1);
    if to <= x < to + |vals[n - 1]| + 2 then Some(Block(offs, vals, n - 1)[x - to])
    else Cover(offs, vals, n - 1, x)
  }

  function Over(top: Option<Byte>, below: Byte): Byte {
    if top.Some? then top.value else below
  }

  // What lies at block i's old place when its turn comes.
  function Block(offs: seq<nat>, vals: seq<Str>, i: nat): (b: Data)
    requires i < |vals| == |offs|
    ensures |b| == |vals[i]| + 2
    decreases i, 2, 0
  {
    Lying(offs, vals, i, offs[i], Cell(vals[i]))
  }

  // Bytes at `at` with the first n moves over them.
  function Lying(offs: seq<nat>, vals: seq<Str>, n: nat, at: nat, c: Data): (b: Data)
    requires n <= |vals| == |offs|
    ensures |b| == |c| && forall k :: 0 <= k < |c| ==> b[k] == Over(Cover(offs, vals, n, at + k), c[k])
    decreases n, 1, |c|
  {
    if c == [] then [] else
    var last := |c| - 1;
    Lying(offs, vals, n, at, c[..last]) + [Over(Cover(offs, vals, n, at + last), c[last])]
  }

  // The running offset when block i's turn comes.
  function Place(offs: seq<nat>, vals: seq<Str>, i: nat): nat
    requires i <= |vals| == |offs|
    decreases i, 0, 0
  {
    if i == 0 then 0 else
    var to := Place(offs, vals, i - 1);
    to + Again(Block(offs, vals, i - 1), offs[i - 1] - to) + 2
  }

  // The size read at the old place of a block that moved left by `gap`.
  function Again(b: Data, gap: int): nat
    requires |b| >= 2
  {
    var low: nat, high: nat := if 0 <= gap < |b| then b[gap] else b[0], if 0 <= gap + 1 < |b| then b[gap + 1] else b[1];
    low + 256 * high
  }

  // The last byte put at x: a moved one, or a zero behind the end.
  function Final(offs: seq<nat>, vals: seq<Str>, limit: nat, x: nat): Option<Byte>
    requires |vals| == |offs|
  {
    if Place(offs, vals, |vals|) <= x < limit then Some(0) else Cover(offs, vals, |vals|, x)
  }

  // ----- when every value is still read -----

  // The earlier moves left the block's size alone.
  predicate SizeKept(offs: seq<nat>, vals: seq<Str>, i: nat)
    requires i < |vals| == |offs|
  {
    var b, c := Block(offs, vals, i), Cell(vals[i]);
    b[0] == c[0] && b[1] == c[1]
  }

  predicate Moves(offs: seq<nat>, vals: seq<Str>, size: nat, i: nat)
    requires i < |vals| == |offs|
  {
    SizeKept(offs, vals, i) && Place(offs, vals, i) + |vals[i]| + 2 <= size
  }

  // Sizes are kept and nothing leaves the memory.
  ghost predicate AllMove(offs: seq<nat>, vals: seq<Str>, size: nat)
    requires |vals| == |offs|
  {
    forall i: nat :: i < |vals| ==> Moves(offs, vals, size, i)
  }

  // The last bytes put where the block went are its value's.
  ghost predicate Legible(offs: seq<nat>, vals: seq<Str>, limit: nat, i: nat)
    requires i < |vals| == |offs|
  {
    forall k: nat :: k < |vals[i]| + 2 ==> Final(offs, vals, limit, Place(offs, vals, i) + k) == Some(Cell(vals[i])[k])
  }

  // All blocks move, the rest can be cleared, and the last bytes put at every
  // block are its own.
  ghost predicate Survives(offs: seq<nat>, vals: seq<Str>, size: nat, limit: nat)
    requires |vals| == |offs|
  {
    && AllMove(offs, vals, size)
    && Place(offs, vals, |vals|) <= limit
    && (forall i: nat :: i < |vals| ==> Legible(offs, vals, limit, i))
  }

  // ----- the compaction follows -----

  // After i blocks: their keys have the new offsets, and the memory is the old
  // one with the moves over it.
  ghost predicate Followed(start: Data, data: Data, keys: seq<nat>, offs: seq<nat>, vals: seq<Str>, i: nat) {
    && i <= |vals| == |offs| == |keys| && |data| == |start|
    && (forall j: nat :: j < |vals| ==> keys[j] == if j < i then Place(offs, vals, j) else offs[j])
    && BytesFollowed(start, data, offs, vals, i)
  }

  ghost predicate BytesFollowed(start: Data, data: Data, offs: seq<nat>, vals: seq<Str>, i: nat)
    requires i <= |vals| == |offs| && |data| == |start|
  {
    forall x: nat :: x < |data| ==> data[x] == Over(Cover(offs, vals, i, x), start[x])
  }

  lemma BlockLies(start: Data, data: Data, keys: seq<nat>, offs: seq<nat>, vals: seq<Str>, i: nat)
    requires AllHeld(start, offs, vals) && Followed(start, data, keys, offs, vals, i) && i < |vals|
    ensures offs[i] + |vals[i]| + 2 <= |data|
    ensures data[offs[i]..offs[i] + |vals[i]| + 2] == Block(offs, vals, i)
    ensures SizeKept(offs, vals, i) <==> Read16(data, offs[i]) == |vals[i]|
  {
    hide Cover, Place, Cell;
    var at, n := offs[i], |vals[i]| + 2;
    assert Holds(start, at, vals[i]);
    forall k | 0 <= k < n ensures data[at + k] == Block(offs, vals, i)[k] {
      CellAt(start, at, vals[i], k);
    }
    CellSize(vals[i], data[at], data[at + 1]);
  }

  lemma CellSize(v: Str, low: Byte, high: Byte)
    ensures low as nat + 256 * high as nat == |v| <==> low == Cell(v)[0] && high == Cell(v)[1]
  {
    assert Le(|v|, 2) == [|v| % 256, |v| / 256 % 256];
  }

  lemma SizeAgain(data: Data, to: nat, from: nat, n: nat)
    requires to + n <= |data| && from + n <= |data| && n >= 2
    ensures Read16(Moved(data, to, from, n), from) == Again(data[from..from + n], from - to)
  {
    MovedAt(data, to, from, n, from);
    MovedAt(data, to, from, n, from + 1);
  }

  lemma CoverNext(offs: seq<nat>, vals: seq<Str>, i: nat, x: nat)
    requires i < |vals| == |offs|
    ensures var to := Place(offs, vals, i);
      Cover(offs, vals, i + 1, x) ==
        if to <= x < to + |vals[i]| + 2 then Some(Block(offs, vals, i)[x - to]) else Cover(offs, vals, i, x)
  {
  }

  lemma PlaceNext(offs: seq<nat>, vals: seq<Str>, i: nat)
    requires i < |vals| == |offs|
    ensures Place(offs, vals, i + 1)
         == Place(offs, vals, i) + Again(Block(offs, vals, i), offs[i] - Place(offs, vals, i)) + 2
  {
  }

  lemma MoveFollows(start: Data, data: Data, offs: seq<nat>, vals: seq<Str>, i: nat)
    requires i < |vals| == |offs| && |data| == |start| && BytesFollowed(start, data, offs, vals, i)
    requires offs[i] + |vals[i]| + 2 <= |data| && Place(offs, vals, i) + |vals[i]| + 2 <= |data|
    requires data[offs[i]..offs[i] + |vals[i]| + 2] == Block(offs, vals, i)
    ensures BytesFollowed(start, Moved(data, Place(offs, vals, i), offs[i], |vals[i]| + 2), offs, vals, i + 1)
  {
    hide Block, Moved, Place, Cover;
    var to, from, n := Place(offs, vals, i), offs[i], |vals[i]| + 2;
    forall x: nat | x < |data|
      ensures Moved(data, to, from, n)[x] == Over(Cover(offs, vals, i + 1, x), start[x])
    {
      CoverNext(offs, vals, i, x);
      MovedBlock(data, to, from, n, Block(offs, vals, i), x);
    }
  }

  lemma MovedBlock(data: Data, to: nat, from: nat, n: nat, b: Data, x: nat)
    requires to + n <= |data| && from + n <= |data| && x < |data| && data[from..from + n] == b
    ensures Moved(data, to, from, n)[x] == if to <= x < to + n then b[x - to] else data[x]
  {
    MovedAt(data, to, from, n, x);
    if to <= x < to + n {
      assert data[from..from + n][x - to] == data[from + (x - to)];
    }
  }

  // One turn of the loop, on a block whose size is kept.
  lemma TurnFollows(start: Data, data: Data, keys: seq<nat>, offs: seq<nat>, vals: seq<Str>, i: nat)
    requires AllHeld(start, offs, vals) && Followed(start, data, keys, offs, vals, i)
    requires i < |vals| && Moves(offs, vals, |start|, i)
    ensures var to, n := Place(offs, vals, i), |vals[i]| + 2;
      && offs[i] + n <= |data| && to + n <= |data|
      && Followed(start, Moved(data, to, offs[i], n), keys[i := to], offs, vals, i + 1)
      && Slide(data, keys, i, to)
      == Slide(Moved(data, to, offs[i], n), keys[i := to], i + 1, Place(offs, vals, i + 1))
  {
    hide Block, Cover, Place, Cell, Read16, Again, Moved, SizeKept, BytesFollowed, Holds;
    var to, from, n := Place(offs, vals, i), offs[i], |vals[i]| + 2;
    assert keys[i] == from;
    BlockLies(start, data, keys, offs, vals, i);
    MoveFollows(start, data, offs, vals, i);
    SizeAgain(data, to, from, n);
    PlaceNext(offs, vals, i);
  }

  // ----- a block whose size was not kept -----

  // Such a block keeps its wrong size at its new place.
  lemma LostSize(start: Data, data: Data, keys: seq<nat>, offs: seq<nat>, vals: seq<Str>, i: nat)
    requires AllHeld(start, offs, vals) && Followed(start, data, keys, offs, vals, i)
    requires i < |vals| && !SizeKept(offs, vals, i) && Slide(data, keys, i, Place(offs, vals, i)).Done?
    ensures var to, r := Place(offs, vals, i), Slide(data, keys, i, Place(offs, vals, i));
      |r.offs| == |vals| && r.offs[i] == to && r.end >= to + 2 && |r.data| == |data|
      && to + 2 <= |r.data| && Read16(r.data, to) != |vals[i]|
  {
    hide Block, Cover, Place, Cell, Moved, SizeKept;
    var to, from := Place(offs, vals, i), offs[i];
    assert keys[i] == from;
    BlockLies(start, data, keys, offs, vals, i);
    var n := Read16(data, from) + 2;
    var data' := Moved(data, to, from, n);
    MovedAt(data, to, from, n, to);
    MovedAt(data, to, from, n, to + 1);
    SlideBelow(data', keys[i := to], i + 1, to + Read16(data', from) + 2);
    SlideKeepsOffsets(data, keys, i, to);
  }

  // ----- the whole loop -----

  lemma {:induction false} LoopFollows(start: Data, data: Data, keys: seq<nat>, offs: seq<nat>, vals: seq<Str>, i: nat)
    requires AllHeld(start, offs, vals) && Followed(start, data, keys, offs, vals, i)
    requires forall j: nat :: i <= j < |vals| ==> Moves(offs, vals, |start|, j)
    ensures var r := Slide(data, keys, i, Place(offs, vals, i));
      r.Done? && r.end == Place(offs, vals, |vals|) && Followed(start, r.data, r.offs, offs, vals, |vals|)
    decreases |vals| - i
  {
    hide Block, Cover, Place, Moves, Slide, Moved, AllHeld, Followed;
    FollowedSizes(start, data, keys, offs, vals, i);
    if i < |vals| {
      TurnFollows(start, data, keys, offs, vals, i);
      LoopFollows(start, Moved(data, Place(offs, vals, i), offs[i], |vals[i]| + 2), keys[i := Place(offs, vals, i)],
                  offs, vals, i + 1);
    } else {
      SlideEnds(data, keys, Place(offs, vals, i));
    }
  }

  lemma FollowedSizes(start: Data, data: Data, keys: seq<nat>, offs: seq<nat>, vals: seq<Str>, i: nat)
    requires Followed(start, data, keys, offs, vals, i)
    ensures i <= |vals| == |offs| == |keys| && |data| == |start|
  {
  }

  ghost predicate SizeLost(r: Outcome, vals: seq<Str>)
    requires r.Done?
  {
    |r.offs| == |vals| && exists j: nat :: j < |vals| && WrongAt(r, vals, j)
  }

  ghost predicate WrongAt(r: Outcome, vals: seq<Str>, j: nat)
    requires r.Done? && j < |vals| == |r.offs|
  {
    r.offs[j] + 2 <= r.end && r.offs[j] + 2 <= |r.data| && Read16(r.data, r.offs[j]) != |vals[j]|
  }

  // Otherwise a value is lost: the loop leaves the memory, or ends with the
  // wrong size in front of a block.
  lemma {:induction false} LoopLoses(start: Data, data: Data, keys: seq<nat>, offs: seq<nat>, vals: seq<Str>, i: nat, bad: nat)
    requires AllHeld(start, offs, vals) && Followed(start, data, keys, offs, vals, i)
    requires i <= bad < |vals| && !Moves(offs, vals, |start|, bad)
    ensures var r := Slide(data, keys, i, Place(offs, vals, i)); r.Done? ==> |r.data| == |start| && SizeLost(r, vals)
    decreases bad - i
  {
    hide Block, Cover, Place, Cell, Slide, Moved, AllHeld, Followed, Read16, SizeKept;
    FollowedSizes(start, data, keys, offs, vals, i);
    if Moves(offs, vals, |start|, i) {
      TurnFollows(start, data, keys, offs, vals, i);
      LoopLoses(start, Moved(data, Place(offs, vals, i), offs[i], |vals[i]| + 2), keys[i := Place(offs, vals, i)],
                offs, vals, i + 1, bad);
    } else if !SizeKept(offs, vals, i) {
      if Slide(data, keys, i, Place(offs, vals, i)).Done? {
        LostSize(start, data, keys, offs, vals, i);
        assert WrongAt(Slide(data, keys, i, Place(offs, vals, i)), vals, i);
      }
    } else {
      NoPlace(start, data, keys, offs, vals, i);
    }
  }

  lemma NoPlace(start: Data, data: Data, keys: seq<nat>, offs: seq<nat>, vals: seq<Str>, i: nat)
    requires AllHeld(start, offs, vals) && Followed(start, data, keys, offs, vals, i)
    requires i < |vals| && SizeKept(offs, vals, i) && Place(offs, vals, i) + |vals[i]| + 2 > |start|
    ensures Slide(data, keys, i, Place(offs, vals, i)) == Fault
  {
    hide Block, Cover, Place, Cell, Read16, SizeKept;
    BlockLies(start, data, keys, offs, vals, i);
    assert keys[i] == offs[i];
  }

  // ----- the result -----

  // Compaction in a memory whose first `limit` bytes are the page.
  function Swept(data: Data, offs: seq<nat>, limit: nat): (s: Outcome)
    requires limit <= |data|
    ensures s.Done? ==> |s.data| == |data| && |s.offs| == |offs| && s.end <= limit
  {
    var r := Slide(data, offs, 0, 0);
    if r.Fault? then Fault else
    SlideBelow(data, offs, 0, 0);
    if r.end > limit then Fault
    else Done(r.data[..r.end] + Zeros(limit - r.end) + r.data[limit..], r.offs, r.end)
  }

  lemma CompactIsSwept(data: Data, offs: seq<nat>)
    ensures Compact(data, offs) == Swept(data, offs, |data|)
  {
    hide Slide, Zeros;
    var r := Slide(data, offs, 0, 0);
    if r.Done? {
      SlideBelow(data, offs, 0, 0);
      assert r.data[|data|..] == [];
    }
  }

  // Every value is read at its key's new offset exactly when the offsets and
  // values meet the condition.
  lemma SweptReadsIff(data: Data, offs: seq<nat>, vals: seq<Str>, limit: nat)
    requires AllHeld(data, offs, vals) && limit <= |data|
    ensures var r := Swept(data, offs, limit);
      r.Done? && AllHeld(r.data, r.offs, vals) <==> Survives(offs, vals, |data|, limit)
  {
    hide Block, Cover, Place, Cell, Swept, Moves, Legible, Holds, Final;
    var s := Swept(data, offs, limit);
    if !AllMove(offs, vals, |data|) {
      SweptWrong(data, offs, vals, limit);
      if s.Done? {
        var j: nat :| j < |vals| && WrongAt(s, vals, j);
        WrongSize(s.data, s.data, s.offs[j], vals[j]);
      }
    } else {
      SweptBytes(data, offs, vals, limit);
      if s.Done? {
        forall i: nat | i < |vals| ensures Holds(s.data, s.offs[i], vals[i]) <==> Legible(offs, vals, limit, i) {
          HeldIffLegible(data, s, offs, vals, limit, i);
        }
      }
    }
  }

  // The same for a page of its own.
  lemma CompactReadsIff(data: Data, offs: seq<nat>, vals: seq<Str>)
    requires AllHeld(data, offs, vals)
    ensures var r := Compact(data, offs);
      r.Done? && AllHeld(r.data, r.offs, vals) <==> Survives(offs, vals, |data|, |data|)
  {
    hide Swept, Compact, Survives, Holds;
    CompactIsSwept(data, offs);
    SweptReadsIff(data, offs, vals, |data|);
  }

  lemma HoldsMore(data: Data, more: Data, at: nat, v: Str)
    requires Holds(data, at, v) && |data| <= |more| && more[..|data|] == data
    ensures Holds(more, at, v)
  {
    hide Cell;
    var end := at + 2 + |v|;
    assert data[at..end] == Cell(v);
    assert forall k :: at <= k < end ==> more[k] == more[..|data|][k];
    assert more[at..end] == data[at..end];
  }

  // Nor do the values read right with more memory behind the page, unless they
  // survive in it.
  lemma CompactHeldIff(more: Data, data: Data, offs: seq<nat>, vals: seq<Str>)
    requires AllHeld(data, offs, vals) && Compact(data, offs).Done?
    requires |data| <= |more| && more[..|data|] == Compact(data, offs).data
    ensures AllHeld(more, Compact(data, offs).offs, vals) <==> Survives(offs, vals, |data|, |data|)
  {
    hide Swept, Compact, Survives, Holds, AllMove, WrongAt, Final, Legible;
    CompactReadsIff(data, offs, vals);
    CompactIsSwept(data, offs);
    var r := Compact(data, offs);
    if AllHeld(r.data, r.offs, vals) {
      forall i: nat | i < |vals| ensures Holds(more, r.offs[i], vals[i]) {
        HoldsMore(r.data, more, r.offs[i], vals[i]);
      }
    } else if AllMove(offs, vals, |data|) {
      SweptBytes(data, offs, vals, |data|);
      var i: nat :| i < |vals| && !Holds(r.data, r.offs[i], vals[i]);
      MovedInside(offs, vals, |data|, i);
      if Holds(more, r.offs[i], vals[i]) {
        HoldsLess(r.data, more, r.offs[i], vals[i]);
      }
    } else {
      SweptWrong(data, offs, vals, |data|);
      var j: nat :| j < |vals| && WrongAt(r, vals, j);
      WrongBefore(r, more, vals, j);
    }
  }

  lemma HoldsLess(data: Data, more: Data, at: nat, v: Str)
    requires at + |v| + 2 <= |data| <= |more| && more[..|data|] == data && Holds(more, at, v)
    ensures Holds(data, at, v)
  {
    hide Cell;
    var end := at + 2 + |v|;
    assert more[at..end] == Cell(v);
    assert forall k :: at <= k < end ==> more[k] == more[..|data|][k];
    assert data[at..end] == more[at..end];
  }

  lemma MovedInside(offs: seq<nat>, vals: seq<Str>, size: nat, i: nat)
    requires |offs| == |vals| && AllMove(offs, vals, size) && i < |vals|
    ensures Place(offs, vals, i) + |vals[i]| + 2 <= size
  {
    hide Place, Block;
    assert Moves(offs, vals, size, i);
  }

  lemma WrongBefore(r: Outcome, more: Data, vals: seq<Str>, j: nat)
    requires r.Done? && j < |vals| == |r.offs| && WrongAt(r, vals, j)
    requires |r.data| <= |more| && more[..|r.data|] == r.data
    ensures !Holds(more, r.offs[j], vals[j])
  {
    var at := r.offs[j];
    assert more[at] == more[..|r.data|][at] && more[at + 1] == more[..|r.data|][at + 1];
    WrongSize(more[..|r.data|], r.data, at, vals[j]);
    if Holds(more, at, vals[j]) {
      Read16OfCell(vals[j], more, at);
    }
  }

  // If a block does not move as it should, the compaction that ends has put a
  // wrong size in front of one.
  lemma SweptWrong(data: Data, offs: seq<nat>, vals: seq<Str>, limit: nat)
    requires AllHeld(data, offs, vals) && limit <= |data| && !AllMove(offs, vals, |data|)
    ensures var r := Swept(data, offs, limit); r.Done? ==> SizeLost(r, vals)
  {
    hide Block, Cover, Place, Cell, Slide, Zeros, Moves, Holds;
    StartsFollowed(data, offs, vals);
    var bad: nat :| bad < |vals| && !Moves(offs, vals, |data|, bad);
    LoopLoses(data, data, offs, offs, vals, 0, bad);
    var r, s := Slide(data, offs, 0, 0), Swept(data, offs, limit);
    if s.Done? {
      SlideBelow(data, offs, 0, 0);
      var j: nat :| j < |vals| && WrongAt(r, vals, j);
      assert s.data[r.offs[j]] == r.data[r.offs[j]] && s.data[r.offs[j] + 1] == r.data[r.offs[j] + 1];
      assert WrongAt(s, vals, j);
    }
  }

  lemma StartsFollowed(data: Data, offs: seq<nat>, vals: seq<Str>)
    requires |offs| == |vals|
    ensures Followed(data, data, offs, offs, vals, 0) && Place(offs, vals, 0) == 0
  {
  }

  lemma WrongSize(data: Data, slid: Data, at: nat, v: Str)
    requires at + 2 <= |slid| && |data| == |slid| && data[at] == slid[at] && data[at + 1] == slid[at + 1]
    requires Read16(slid, at) != |v|
    ensures !Holds(data, at, v)
  {
    if Holds(data, at, v) {
      Read16OfCell(v, data, at);
    }
  }

  // The memory with every block and the zeros over it, and the new offsets.
  ghost predicate Painted(data: Data, s: Outcome, offs: seq<nat>, vals: seq<Str>, limit: nat)
    requires s.Done? && |offs| == |vals|
  {
    && |s.data| == |data| && |s.offs| == |vals| && s.end == Place(offs, vals, |vals|)
    && (forall i: nat :: i < |vals| ==> s.offs[i] == Place(offs, vals, i))
    && (forall x: nat :: x < |data| ==> s.data[x] == Over(Final(offs, vals, limit, x), data[x]))
  }

  lemma {:induction false} Covered(offs: seq<nat>, vals: seq<Str>, n: nat, i: nat, x: nat)
    requires i < n <= |vals| == |offs| && Place(offs, vals, i) <= x < Place(offs, vals, i) + |vals[i]| + 2
    ensures Cover(offs, vals, n, x).Some?
  {
    hide Block, Place;
    if i < n - 1 {
      Covered(offs, vals, n - 1, i, x);
    }
  }

  lemma HeldIffLegible(data: Data, s: Outcome, offs: seq<nat>, vals: seq<Str>, limit: nat, i: nat)
    requires s.Done? && |offs| == |vals| && Painted(data, s, offs, vals, limit)
    requires i < |vals| && Moves(offs, vals, |data|, i)
    ensures Holds(s.data, s.offs[i], vals[i]) <==> Legible(offs, vals, limit, i)
  {
    hide Block, Place, Cover, Cell, SizeKept;
    var at, n := Place(offs, vals, i), |vals[i]| + 2;
    forall k: nat | k < n
      ensures s.data[at + k] == Cell(vals[i])[k] <==> Final(offs, vals, limit, at + k) == Some(Cell(vals[i])[k])
    {
      Covered(offs, vals, |vals|, i, at + k);
    }
    var end := at + 2 + |vals[i]|;
    if Holds(s.data, at, vals[i]) {
      forall k: nat | k < n ensures s.data[at + k] == Cell(vals[i])[k] {
        CellAt(s.data, at, vals[i], k);
      }
    }
    if Legible(offs, vals, limit, i) {
      forall k | 0 <= k < n ensures s.data[at..end][k] == Cell(vals[i])[k] {
      }
      assert s.data[at..end] == Cell(vals[i]);
    }
  }

  // What the memory holds when every block moved as a whole.
  lemma SweptBytes(data: Data, offs: seq<nat>, vals: seq<Str>, limit: nat)
    requires AllHeld(data, offs, vals) && limit <= |data|
    requires AllMove(offs, vals, |data|)
    ensures var s := Swept(data, offs, limit);
      (s.Done? <==> Place(offs, vals, |vals|) <= limit) && (s.Done? ==> Painted(data, s, offs, vals, limit))
  {
    hide Block, Cover, Place, Slide, Moves, Holds;
    StartsFollowed(data, offs, vals);
    LoopFollows(data, data, offs, offs, vals, 0);
    var r, s := Slide(data, offs, 0, 0), Swept(data, offs, limit);
    if s.Done? {
      forall x: nat | x < |data| ensures s.data[x] == Over(Final(offs, vals, limit, x), data[x]) {
        assert r.data[x] == Over(Cover(offs, vals, |vals|, x), data[x]);
      }
    }
  }

  // ----- by sizes and offsets alone -----

  // Every size read again is at least the value's, and the running offset passes
  // neither a block's old place nor the end of the page.
  predicate Tame(offs: seq<nat>, vals: seq<Str>, limit: nat) {
    && |offs| == |vals|
    && (forall i: nat :: i < |vals| ==> TameAt(offs, vals, i))
    && Place(offs, vals, |vals|) <= limit
  }

  predicate TameAt(offs: seq<nat>, vals: seq<Str>, i: nat)
    requires i < |vals| == |offs|
  {
    Place(offs, vals, i) <= offs[i] && Place(offs, vals, i) + |vals[i]| + 2 <= Place(offs, vals, i + 1)
  }

  lemma {:induction false} PlacesGrow(offs: seq<nat>, vals: seq<Str>, i: nat, j: nat)
    requires i <= j <= |vals| == |offs|
    ensures Place(offs, vals, i) <= Place(offs, vals, j)
  {
    hide Block;
    if i < j {
      PlacesGrow(offs, vals, i, j - 1);
      PlaceNext(offs, vals, j - 1);
    }
  }

  lemma {:induction false} NotCovered(offs: seq<nat>, vals: seq<Str>, limit: nat, n: nat, x: nat)
    requires Tame(offs, vals, limit) && n <= |vals| && x >= Place(offs, vals, n)
    ensures Cover(offs, vals, n, x) == None
  {
    hide Block, Place;
    if n > 0 {
      assert TameAt(offs, vals, n - 1);
      CoverNext(offs, vals, n - 1, x);
      PlacesGrow(offs, vals, n - 1, n);
      NotCovered(offs, vals, limit, n - 1, x);
    }
  }

  lemma BlockWhole(offs: seq<nat>, vals: seq<Str>, limit: nat, i: nat)
    requires Tame(offs, vals, limit) && i < |vals|
    ensures Block(offs, vals, i) == Cell(vals[i])
  {
    hide Cover, Place, Cell;
    assert TameAt(offs, vals, i);
    var c := Cell(vals[i]);
    forall k | 0 <= k < |c| ensures Block(offs, vals, i)[k] == c[k] {
      NotCovered(offs, vals, limit, i, offs[i] + k);
    }
  }

  lemma {:induction false} CoveredBy(offs: seq<nat>, vals: seq<Str>, limit: nat, n: nat, i: nat, k: nat)
    requires Tame(offs, vals, limit) && i < n <= |vals| && k < |vals[i]| + 2
    ensures Cover(offs, vals, n, Place(offs, vals, i) + k) == Some(Cell(vals[i])[k])
  {
    hide Place, Cell, Block;
    var x := Place(offs, vals, i) + k;
    CoverNext(offs, vals, n - 1, x);
    assert TameAt(offs, vals, i);
    if i < n - 1 {
      PlacesGrow(offs, vals, i + 1, n - 1);
      CoveredBy(offs, vals, limit, n - 1, i, k);
    } else {
      BlockWhole(offs, vals, limit, i);
    }
  }

  // What a caller can check by sizes and offsets: nothing is lost, and the
  // values end up in order again.
  lemma TameSurvives(data: Data, offs: seq<nat>, vals: seq<Str>, limit: nat)
    requires AllHeld(data, offs, vals) && Tame(offs, vals, limit) && limit <= |data|
    ensures Survives(offs, vals, |data|, limit)
    ensures var r := Swept(data, offs, limit); r.Done? && Stored(r.data, r.offs, vals) && r.end == Place(offs, vals, |vals|)
  {
    hide Place, Cell, Block, Holds, Slide, Cover, Zeros;
    var end := Place(offs, vals, |vals|);
    forall i: nat | i < |vals| ensures Moves(offs, vals, |data|, i) && Legible(offs, vals, limit, i) {
      BlockWhole(offs, vals, limit, i);
      assert TameAt(offs, vals, i);
      PlacesGrow(offs, vals, i + 1, |vals|);
      forall k: nat | k < |vals[i]| + 2
        ensures Final(offs, vals, limit, Place(offs, vals, i) + k) == Some(Cell(vals[i])[k])
      {
        CoveredBy(offs, vals, limit, |vals|, i, k);
      }
    }
    SweptReadsIff(data, offs, vals, limit);
    SweptBytes(data, offs, vals, limit);
    var r := Swept(data, offs, limit);
    forall i | 0 < i < |vals| ensures Follows(r.offs, vals, i) {
      assert TameAt(offs, vals, i - 1);
    }
  }

  // The end is behind every value, and there is room for all of them before it.
  lemma TameEnd(data: Data, offs: seq<nat>, vals: seq<Str>, limit: nat)
    requires AllHeld(data, offs, vals) && Tame(offs, vals, limit) && limit <= |data|
    ensures var r := Swept(data, offs, limit);
      r.Done? && r.end <= limit && PackedAt(vals, |vals|) <= r.end
      && (vals != [] ==> r.offs[|vals| - 1] + |vals[|vals| - 1]| + 2 <= r.end)
  {
    hide Swept, Block, Place, PackedAt, Cover;
    TameSurvives(data, offs, vals, limit);
    SweptBytes(data, offs, vals, limit);
    PackedBelow(offs, vals, limit, |vals|);
    if vals != [] {
      assert TameAt(offs, vals, |vals| - 1);
    }
  }

  lemma {:induction false} PackedBelow(offs: seq<nat>, vals: seq<Str>, limit: nat, n: nat)
    requires Tame(offs, vals, limit) && n <= |vals|
    ensures PackedAt(vals, n) <= Place(offs, vals, n)
  {
    hide Block, Place;
    if n > 0 {
      PackedBelow(offs, vals, limit, n - 1);
      assert TameAt(offs, vals, n - 1);
    }
  }

  // Safe gaps are tame, with the packed places for new ones.
  lemma {:induction false} SafePlaces(data: Data, offs: seq<nat>, vals: seq<Str>, i: nat)
    requires Stored(data, offs, vals) && SafeGaps(offs, vals) && i <= |vals|
    ensures Place(offs, vals, i) == PackedAt(vals, i)
    ensures i < |vals| ==> Block(offs, vals, i) == Cell(vals[i])
    decreases i, 1
  {
    hide Cell, Holds, SafeGap;
    if i > 0 {
      SafePlaces(data, offs, vals, i - 1);
      StoredBeyondPacked(data, offs, vals, i - 1);
      assert SafeGap(offs, vals, i - 1);
      SameAgain(offs, vals, i - 1);
    }
    if i < |vals| {
      StoredBeyondPacked(data, offs, vals, i);
      forall k | 0 <= k < |vals[i]| + 2 ensures Block(offs, vals, i)[k] == Cell(vals[i])[k] {
        SafeUncovered(data, offs, vals, i, offs[i] + k);
      }
    }
  }

  lemma SameAgain(offs: seq<nat>, vals: seq<Str>, i: nat)
    requires i < |vals| == |offs| && SafeGap(offs, vals, i) && PackedAt(vals, i) <= offs[i]
    ensures Again(Cell(vals[i]), offs[i] - PackedAt(vals, i)) == |vals[i]|
  {
    var v := vals[i];
    CellSize(v, Cell(v)[0], Cell(v)[1]);
  }

  lemma {:induction false} SafeUncovered(data: Data, offs: seq<nat>, vals: seq<Str>, n: nat, x: nat)
    requires Stored(data, offs, vals) && SafeGaps(offs, vals) && n <= |vals| && x >= PackedAt(vals, n)
    ensures Cover(offs, vals, n, x) == None
    decreases n, 0
  {
    hide Block, Place, SafeGaps, Holds;
    if n > 0 {
      SafePlaces(data, offs, vals, n - 1);
      CoverNext(offs, vals, n - 1, x);
      PackedNext(vals, n - 1);
      SafeUncovered(data, offs, vals, n - 1, x);
    }
  }

  lemma SafeIsTame(data: Data, offs: seq<nat>, vals: seq<Str>)
    requires Stored(data, offs, vals) && SafeGaps(offs, vals)
    ensures Tame(offs, vals, PackedAt(vals, |vals|))
  {
    hide Cell, Holds, SafeGaps, Block, Place;
    forall i: nat | i < |vals| ensures TameAt(offs, vals, i) {
      SafePlaces(data, offs, vals, i);
      SafePlaces(data, offs, vals, i + 1);
      StoredBeyondPacked(data, offs, vals, i);
      PackedNext(vals, i);
    }
    SafePlaces(data, offs, vals, |vals|);
  }

  // ----- two single values, each behind a gap of three bytes -----

  lemma FirstBlock(offs: seq<nat>, vals: seq<Str>)
    requires |offs| == |vals| > 0
    ensures Block(offs, vals, 0) == Cell(vals[0]) && Place(offs, vals, 0) == 0
    ensures Place(offs, vals, 1) == Again(Cell(vals[0]), offs[0]) + 2
  {
    assert Block(offs, vals, 0) == Cell(vals[0]);
  }

  // The gap is not safe: ten is read for the size, four. The value is read all
  // the same.
  lemma UnsafeButRead(data: Data)
    requires |data| == PAGE_SIZE && Holds(data, 3, [0, 10, 0, 7])
    ensures var v: Str := [0, 10, 0, 7]; var r := Swept(data, [3], PAGE_SIZE);
      !SafeGaps([3], [v]) && r.Done? && AllHeld(r.data, r.offs, [v])
  {
    var v: Str := [0, 10, 0, 7];
    FirstBlock([3], [v]);
    assert Cell(v) == [4, 0, 0, 10, 0, 7];
    assert !SafeGap([3], [v], 0);
    hide Place, Swept;
    assert TameAt([3], [v], 0);
    TameSurvives(data, [3], [v], PAGE_SIZE);
  }

  // A single value with its size kept: the bytes of its cell, and zeros from
  // where the size read again puts the end.
  lemma SingleSwept(data: Data, at: nat, v: Str)
    requires |data| == PAGE_SIZE && Holds(data, at, v) && Again(Cell(v), at) + 2 <= PAGE_SIZE
    ensures var r, end := Swept(data, [at], PAGE_SIZE), Again(Cell(v), at) + 2;
      r.Done? && r.offs == [0] && |r.data| == PAGE_SIZE
      && forall k: nat :: k < |v| + 2 ==> r.data[k] == if k < end then Cell(v)[k] else 0
  {
    hide Swept, Place, Cell, Holds, Again, Block;
    FirstBlock([at], [v]);
    HeldWithin(data, at, v);
    assert SizeKept([at], [v], 0);
    SweptBytes(data, [at], [v], PAGE_SIZE);
    forall k: nat | k < |v| + 2 ensures Cover([at], [v], 1, k) == Some(Cell(v)[k]) {
      CoverNext([at], [v], 0, k);
    }
  }

  // One is read for the size, four, and the value's end is cleared: the
  // compaction ends, and the value is read as another.
  lemma EndsAndReadsWrong(data: Data)
    requires |data| == PAGE_SIZE && Holds(data, 3, [7, 1, 0, 9])
    ensures var r := Swept(data, [3], PAGE_SIZE); r.Done? && r.offs == [0] && Holds(r.data, 0, [7, 0, 0, 0])
  {
    var v: Str, w: Str := [7, 1, 0, 9], [7, 0, 0, 0];
    SingleSwept(data, 3, v);
    assert Cell(v) == [4, 0, 7, 1, 0, 9] && Cell(w) == [4, 0, 7, 0, 0, 0];
    assert Again(Cell(v), 3) == 1;
    var r := Swept(data, [3], PAGE_SIZE);
    hide Swept, Cell;
    forall k | 0 <= k < 6 ensures r.data[0..6][k] == Cell(w)[k] {
    }
    assert r.data[0..6] == Cell(w);
  }
}
