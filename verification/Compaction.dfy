/** In-place compaction of a page: blocks slide left over the gaps that removed
    values left behind. */
module Compaction {
  import opened Bits
  import opened Bytes

  const PAGE_SIZE: nat := 4096

  type Data = seq<Byte>

  // A value as stored: its size in two bytes, then its bytes.
  function Cell(v: Str): (c: Data)
    ensures |c| == |v| + 2
  {
    Le(|v|, 2) + v
  }

  function Read16(data: Data, at: nat): (n: nat)
    requires at + 2 <= |data|
  {
    var low: nat, high: nat := data[at], data[at + 1];
    low + 256 * high
  }

  lemma Read16OfCell(v: Str, data: Data, at: nat)
    requires Holds(data, at, v)
    ensures Read16(data, at) == |v|
  {
    assert data[at..at + 2 + |v|][0] == data[at] && data[at..at + 2 + |v|][1] == data[at + 1];
    assert Le(|v|, 2) == [|v| % 256, |v| / 256 % 256];
  }

  ghost predicate Holds(data: Data, at: nat, v: Str) {
    at + 2 + |v| <= |data| && data[at..at + 2 + |v|] == Cell(v)
  }

  // Where value i would start if the values were packed from the page's start.
  function PackedAt(vals: seq<Str>, i: nat): nat
    requires i <= |vals|
  {
    if i == 0 then 0 else PackedAt(vals, i - 1) + |vals[i - 1]| + 2
  }

  lemma {:induction false} PackedMonotone(vals: seq<Str>, i: nat, j: nat)
    requires i <= j <= |vals|
    ensures PackedAt(vals, i) <= PackedAt(vals, j)
  {
    if i < j {
      PackedMonotone(vals, i, j - 1);
    }
  }

  // The values sit at the offsets, in increasing order and without overlap.
  ghost predicate Stored(data: Data, offs: seq<nat>, vals: seq<Str>) {
    && |offs| == |vals|
    && (forall i :: 0 <= i < |vals| ==> Holds(data, offs[i], vals[i]))
    && (forall i :: 0 < i < |vals| ==> Follows(offs, vals, i))
  }

  predicate Follows(offs: seq<nat>, vals: seq<Str>, i: nat)
    requires 0 < i < |vals| == |offs|
  {
    offs[i - 1] + |vals[i - 1]| + 2 <= offs[i]
  }

  lemma {:induction false} StoredBeyondPacked(data: Data, offs: seq<nat>, vals: seq<Str>, i: nat)
    requires Stored(data, offs, vals) && i < |vals|
    ensures PackedAt(vals, i) <= offs[i]
  {
    if i > 0 {
      StoredBeyondPacked(data, offs, vals, i - 1);
      assert Follows(offs, vals, i);
    }
  }

  lemma {:induction false} StoredApart(data: Data, offs: seq<nat>, vals: seq<Str>, i: nat, j: nat)
    requires Stored(data, offs, vals) && i < j < |vals|
    ensures offs[i] + |vals[i]| + 2 <= offs[j]
  {
    assert Follows(offs, vals, j);
    if i < j - 1 {
      StoredApart(data, offs, vals, i, j - 1);
    }
  }

  // ----- the compaction as written -----

  datatype Outcome = Fault | Done(data: Data, offs: seq<nat>, end: nat)

  // memmove: the block at `from` is copied to `to`, overlap allowed.
  function Moved(data: Data, to: nat, from: nat, n: nat): (r: Data)
    requires to + n <= |data| && from + n <= |data|
    ensures |r| == |data|
  {
    data[..to] + data[from..from + n] + data[to + n..]
  }

  // One block after another moves to the running offset, which then advances
  // by the size read again at the block's old place. Fault: an access outside
  // the page.
  function Slide(data: Data, offs: seq<nat>, i: nat, offset: nat): Outcome
    requires i <= |offs|
    decreases |offs| - i
  {
    if i == |offs| then Done(data, offs, offset) else
    var k := offs[i];
    if k + 2 > |data| then Fault else
    var n := Read16(data, k) + 2;
    if k + n > |data| || offset + n > |data| then Fault else
    var data' := Moved(data, offset, k, n);
    Slide(data', offs[i := offset], i + 1, offset + Read16(data', k) + 2)
  }

  function Compact(data: Data, offs: seq<nat>): Outcome {
    var r := Slide(data, offs, 0, 0);
    if r.Fault? || r.end > |r.data| then Fault
    else Done(r.data[..r.end] + Zeros(|r.data| - r.end), r.offs, r.end)
  }

  // ----- when it is right -----

  // What is read at the old place of a block that moved left by `gap`.
  function Reread(v: Str, gap: int): nat {
    var c := Cell(v);
    if gap <= 0 || gap >= |c| then |v| else
    var low: nat, high: nat := c[gap], if gap + 1 < |c| then c[gap + 1] else c[1];
    low + 256 * high
  }

  // The gap in front of a block is nothing, or at least as long as the block,
  // or the block's own bytes there happen to spell its size.
  predicate SafeGap(offs: seq<nat>, vals: seq<Str>, i: nat)
    requires i < |vals| == |offs|
  {
    Reread(vals[i], offs[i] - PackedAt(vals, i)) == |vals[i]|
  }

  ghost predicate SafeGaps(offs: seq<nat>, vals: seq<Str>)
    requires |offs| == |vals|
  {
    forall i: nat :: i < |vals| ==> SafeGap(offs, vals, i)
  }

  predicate InPlace(offs: seq<nat>, vals: seq<Str>, j: nat)
    requires j < |vals| == |offs|
  {
    offs[j] == PackedAt(vals, j)
  }

  lemma PackedStart(vals: seq<Str>)
    ensures PackedAt(vals, 0) == 0
  {
  }

  lemma PackedNext(vals: seq<Str>, i: nat)
    requires i < |vals|
    ensures PackedAt(vals, i + 1) == PackedAt(vals, i) + |vals[i]| + 2
  {
  }

  // Before block i is moved: the first i are packed, the others untouched.
  ghost predicate Progress(data: Data, offs: seq<nat>, vals: seq<Str>, i: nat) {
    && i <= |vals| == |offs|
    && Stored(data, offs, vals)
    && (forall j: nat :: j < i ==> InPlace(offs, vals, j))
  }

  lemma MovedAt(data: Data, to: nat, from: nat, n: nat, k: nat)
    requires to + n <= |data| && from + n <= |data| && k < |data|
    ensures Moved(data, to, from, n)[k] == if to <= k < to + n then data[from + (k - to)] else data[k]
  {
  }

  lemma MoveLands(data: Data, to: nat, from: nat, v: Str)
    requires Holds(data, from, v) && to + |v| + 2 <= |data|
    ensures Holds(Moved(data, to, from, |v| + 2), to, v)
  {
    var n := |v| + 2;
    assert Moved(data, to, from, n)[to..to + n] == data[from..from + n];
    assert from + n == from + 2 + |v| && to + n == to + 2 + |v|;
  }

  lemma MoveKeepsOther(data: Data, to: nat, from: nat, n: nat, at: nat, v: Str)
    requires to + n <= |data| && from + n <= |data| && Holds(data, at, v)
    requires at + |v| + 2 <= to || to + n <= at
    ensures Holds(Moved(data, to, from, n), at, v)
  {
    var r, end := Moved(data, to, from, n), at + 2 + |v|;
    assert r[at..end] == data[at..end];
  }

  lemma RereadIs(data: Data, to: nat, from: nat, v: Str)
    requires Holds(data, from, v) && to <= from
    ensures to + |v| + 2 <= |data|
    ensures Read16(Moved(data, to, from, |v| + 2), from) == Reread(v, from - to)
  {
    hide Moved, Cell;
    var n := |v| + 2;
    Read16OfCell(v, data, from);
    MovedAt(data, to, from, n, from);
    MovedAt(data, to, from, n, from + 1);
    CellAt(data, from, v, 0);
    CellAt(data, from, v, 1);
    if from < to + n {
      CellAt(data, from, v, from - to);
    }
    if from + 1 < to + n {
      CellAt(data, from, v, from + 1 - to);
    }
  }

  lemma CellAt(data: Data, at: nat, v: Str, k: nat)
    requires Holds(data, at, v) && k < |v| + 2
    ensures data[at + k] == Cell(v)[k]
  {
    assert data[at..at + 2 + |v|][k] == data[at + k];
  }

  lemma HeldWithin(data: Data, at: nat, v: Str)
    requires Holds(data, at, v)
    ensures at + |v| + 2 <= |data|
  {
  }

  // Moving block i keeps every value in place, packed ones and unmoved ones.
  lemma MoveStep(data: Data, offs: seq<nat>, vals: seq<Str>, i: nat)
    requires Progress(data, offs, vals, i) && i < |vals|
    ensures PackedAt(vals, i) + |vals[i]| + 2 <= |data|
    ensures Progress(Moved(data, PackedAt(vals, i), offs[i], |vals[i]| + 2),
                     offs[i := PackedAt(vals, i)], vals, i + 1)
  {
    hide Cell, Moved, Le, PackedAt, Holds;
    var to, from, n := PackedAt(vals, i), offs[i], |vals[i]| + 2;
    StoredBeyondPacked(data, offs, vals, i);
    HeldWithin(data, from, vals[i]);
    var data', offs' := Moved(data, to, from, n), offs[i := to];
    MoveLands(data, to, from, vals[i]);
    forall j | 0 <= j < |vals| ensures Holds(data', offs'[j], vals[j]) {
      if j < i {
        assert InPlace(offs, vals, j);
        PackedNext(vals, j);
        PackedMonotone(vals, j + 1, i);
        MoveKeepsOther(data, to, from, n, offs[j], vals[j]);
      } else if j > i {
        StoredApart(data, offs, vals, i, j);
        MoveKeepsOther(data, to, from, n, offs[j], vals[j]);
      }
    }
    forall j | 0 < j < |vals| ensures Follows(offs', vals, j) {
      assert Follows(offs, vals, j);
      if j == i {
        assert InPlace(offs, vals, j - 1);
        PackedNext(vals, j - 1);
      }
    }
    forall j: nat | j < i + 1 ensures InPlace(offs', vals, j) {
      assert j < i ==> InPlace(offs, vals, j);
    }
  }

  // One turn of the loop on a block whose predecessors are packed.
  lemma SlideOnce(data: Data, offs: seq<nat>, vals: seq<Str>, i: nat)
    requires Progress(data, offs, vals, i) && i < |vals|
    ensures PackedAt(vals, i) + |vals[i]| + 2 <= |data| && offs[i] + |vals[i]| + 2 <= |data|
    ensures Slide(data, offs, i, PackedAt(vals, i))
         == Slide(Moved(data, PackedAt(vals, i), offs[i], |vals[i]| + 2), offs[i := PackedAt(vals, i)],
                  i + 1, PackedAt(vals, i) + Reread(vals[i], offs[i] - PackedAt(vals, i)) + 2)
  {
    hide Cell, Le, Reread, PackedAt, Slide, Moved;
    StoredBeyondPacked(data, offs, vals, i);
    SlideBlock(data, offs, i, PackedAt(vals, i), vals[i]);
  }

  lemma SlideBlock(data: Data, offs: seq<nat>, i: nat, offset: nat, v: Str)
    requires i < |offs| && offset <= offs[i] && Holds(data, offs[i], v)
    ensures offset + |v| + 2 <= |data|
    ensures Slide(data, offs, i, offset)
         == Slide(Moved(data, offset, offs[i], |v| + 2), offs[i := offset], i + 1,
                  offset + Reread(v, offs[i] - offset) + 2)
  {
    hide Cell, Le, Reread, Moved, Read16;
    Read16OfCell(v, data, offs[i]);
    RereadIs(data, offset, offs[i], v);
  }

  lemma {:induction false} SlideFollows(data: Data, offs: seq<nat>, vals: seq<Str>, i: nat)
    requires Progress(data, offs, vals, i)
    requires forall j: nat :: i <= j < |vals| ==> SafeGap(offs, vals, j)
    ensures var r := Slide(data, offs, i, PackedAt(vals, i));
      r.Done? && r.end == PackedAt(vals, |vals|) && |r.data| == |data|
      && Progress(r.data, r.offs, vals, |vals|)
    decreases |vals| - i
  {
    hide Cell, Moved, Le, Reread, Read16, Slide, PackedAt;
    if i < |vals| {
      SlideOnce(data, offs, vals, i);
      MoveStep(data, offs, vals, i);
      var to, offs' := PackedAt(vals, i), offs[i := PackedAt(vals, i)];
      PackedNext(vals, i);
      assert SafeGap(offs, vals, i);
      forall j: nat | i + 1 <= j < |vals| ensures SafeGap(offs', vals, j) {
        assert SafeGap(offs, vals, j);
      }
      SlideFollows(Moved(data, to, offs[i], |vals[i]| + 2), offs', vals, i + 1);
    } else {
      SlideEnds(data, offs, PackedAt(vals, i));
    }
  }

  lemma SlideEnds(data: Data, offs: seq<nat>, offset: nat)
    ensures Slide(data, offs, |offs|, offset) == Done(data, offs, offset)
  {
  }

  ghost predicate AllPacked(r: Outcome, vals: seq<Str>)
    requires r.Done? && |r.offs| == |vals|
  {
    r.end == PackedAt(vals, |vals|) && forall j: nat :: j < |vals| ==> InPlace(r.offs, vals, j)
  }

  ghost predicate SameOffsets(a: seq<nat>, b: seq<nat>, n: nat)
    requires n <= |b|
  {
    |a| == |b| && forall j :: 0 <= j < n ==> a[j] == b[j]
  }

  // A block that is not safe throws the running offset off: the next block, or
  // the end of the page, is not where the packed values put it.
  lemma {:induction false} SlideStrays(data: Data, offs: seq<nat>, vals: seq<Str>, i: nat, bad: nat)
    requires Progress(data, offs, vals, i) && i <= bad < |vals| && !SafeGap(offs, vals, bad)
    ensures var r := Slide(data, offs, i, PackedAt(vals, i));
      r.Done? ==> |r.offs| == |vals| && !AllPacked(r, vals)
    decreases bad - i
  {
    hide Cell, Moved, Le, Reread, Read16, Slide, PackedAt;
    SlideOnce(data, offs, vals, i);
    MoveStep(data, offs, vals, i);
    PackedNext(vals, i);
    var to, from := PackedAt(vals, i), offs[i];
    var data', offs' := Moved(data, to, from, |vals[i]| + 2), offs[i := to];
    if SafeGap(offs, vals, i) {
      assert SafeGap(offs', vals, bad) == SafeGap(offs, vals, bad);
      SlideStrays(data', offs', vals, i + 1, bad);
    } else {
      SlideKeepsOffsets(data', offs', i + 1, to + Reread(vals[i], from - to) + 2);
      PackedNext(vals, i);
      var r := Slide(data, offs, i, to);
      if r.Done? && i + 1 < |vals| {
        assert !InPlace(r.offs, vals, i + 1);
      }
    }
  }

  // Slide writes the running offset into the next key and leaves the keys
  // before it alone.
  lemma {:induction false} SlideKeepsOffsets(data: Data, offs: seq<nat>, i: nat, offset: nat)
    requires i <= |offs|
    ensures var r := Slide(data, offs, i, offset);
      r.Done? ==> SameOffsets(r.offs, offs, i) && (if i < |offs| then r.offs[i] == offset else r.end == offset)
    decreases |offs| - i
  {
    hide Moved, Read16;
    if i < |offs| && Slide(data, offs, i, offset).Done? {
      var k := offs[i];
      var n := Read16(data, k) + 2;
      var data' := Moved(data, offset, k, n);
      SlideKeepsOffsets(data', offs[i := offset], i + 1, offset + Read16(data', k) + 2);
    }
  }

  // The loop writes nothing below the running offset.
  lemma {:induction false} SlideBelow(data: Data, keys: seq<nat>, i: nat, offset: nat)
    requires i <= |keys| && Slide(data, keys, i, offset).Done?
    ensures var r := Slide(data, keys, i, offset);
      |r.data| == |data| && |r.offs| == |keys| && r.end >= offset
      && forall x: nat :: x < offset && x < |data| ==> r.data[x] == data[x]
    decreases |keys| - i
  {
    hide Moved, Read16;
    if i < |keys| {
      var k := keys[i];
      var n := Read16(data, k) + 2;
      var data' := Moved(data, offset, k, n);
      SlideBelow(data', keys[i := offset], i + 1, offset + Read16(data', k) + 2);
      forall x: nat | x < offset ensures data'[x] == data[x] {
        MovedAt(data, offset, k, n, x);
      }
    }
  }

  // Nor does it put a block, or the end, behind the memory.
  lemma {:induction false} SlideInside(data: Data, keys: seq<nat>, i: nat, offset: nat)
    requires i <= |keys| && Slide(data, keys, i, offset).Done?
    ensures var r := Slide(data, keys, i, offset);
      |r.offs| == |keys| && forall j :: i <= j < |keys| ==> r.offs[j] <= |data|
    decreases |keys| - i
  {
    hide Moved, Read16;
    if i < |keys| {
      var k := keys[i];
      var data' := Moved(data, offset, k, Read16(data, k) + 2);
      var next := offset + Read16(data', k) + 2;
      SlideInside(data', keys[i := offset], i + 1, next);
      SlideKeepsOffsets(data', keys[i := offset], i + 1, next);
    }
  }

  // ----- the main results -----

  // Every value kept, in order, packed from the start; nothing but zeros after.
  ghost predicate PackedPage(r: Outcome, vals: seq<Str>) {
    && r.Done?
    && Stored(r.data, r.offs, vals)
    && (forall j: nat :: j < |vals| ==> InPlace(r.offs, vals, j))
    && r.end == PackedAt(vals, |vals|) <= |r.data|
    && (forall k :: r.end <= k < |r.data| ==> r.data[k] == 0)
  }

  lemma PackedFits(data: Data, offs: seq<nat>, vals: seq<Str>)
    requires Progress(data, offs, vals, |vals|)
    ensures PackedAt(vals, |vals|) <= |data|
  {
    if |vals| > 0 {
      assert Holds(data, offs[|vals| - 1], vals[|vals| - 1]) && InPlace(offs, vals, |vals| - 1);
    }
  }

  // Compaction packs the page exactly when every gap is safe.
  lemma CompactsIff(data: Data, offs: seq<nat>, vals: seq<Str>)
    requires Stored(data, offs, vals)
    ensures PackedPage(Compact(data, offs), vals) <==> SafeGaps(offs, vals)
  {
    hide Cell, Le, Slide, Zeros, Reread, PackedAt;
    var r := Slide(data, offs, 0, 0);
    PackedStart(vals);
    if SafeGaps(offs, vals) {
      SlideFollows(data, offs, vals, 0);
      PackedFits(r.data, r.offs, vals);
      var d := Compact(data, offs).data;
      forall i | 0 <= i < |vals| ensures Holds(d, r.offs[i], vals[i]) {
        assert InPlace(r.offs, vals, i);
        PackedNext(vals, i);
        PackedMonotone(vals, i + 1, |vals|);
        var at := r.offs[i];
        assert d[at..at + 2 + |vals[i]|] == r.data[at..at + 2 + |vals[i]|];
      }
      assert Stored(d, r.offs, vals);
    } else {
      var bad: nat :| bad < |vals| && !SafeGap(offs, vals, bad);
      SlideStrays(data, offs, vals, 0, bad);
    }
  }

  lemma AlwaysCompactsIff(data: Data, offs: seq<nat>)
    ensures forall vals :: Stored(data, offs, vals) ==>
      (SafeGaps(offs, vals) <==> Compact(data, offs).Done? && PackedPage(Compact(data, offs), vals))
  {
    forall vals | Stored(data, offs, vals)
      ensures SafeGaps(offs, vals) <==> PackedPage(Compact(data, offs), vals)
    {
      CompactsIff(data, offs, vals);
    }
  }

  // What a caller can check by sizes alone: a removed run of bytes in front of
  // a block is at least as long as the block.
  lemma LongGapsAreSafe(offs: seq<nat>, vals: seq<Str>, i: nat)
    requires i < |vals| == |offs|
    requires offs[i] == PackedAt(vals, i) || offs[i] >= PackedAt(vals, i) + |vals[i]| + 2
    ensures SafeGap(offs, vals, i)
  {
  }

  // A second compaction changes nothing.
  lemma CompactAgain(data: Data, offs: seq<nat>, vals: seq<Str>)
    requires Stored(data, offs, vals) && SafeGaps(offs, vals)
    ensures var r := Compact(data, offs);
      r.Done? && Compact(r.data, r.offs) == r
  {
    CompactsIff(data, offs, vals);
    var r := Compact(data, offs);
    SlideStill(r.data, r.offs, vals, 0);
  }

  lemma {:induction false} SlideStill(data: Data, offs: seq<nat>, vals: seq<Str>, i: nat)
    requires Progress(data, offs, vals, |vals|) && i <= |vals|
    ensures Slide(data, offs, i, PackedAt(vals, i)) == Done(data, offs, PackedAt(vals, |vals|))
    decreases |vals| - i
  {
    hide Cell, Le, Read16, Slide, PackedAt;
    if i < |vals| {
      SlideOnce(data, offs, vals, i);
      PackedNext(vals, i);
      assert InPlace(offs, vals, i);
      assert Moved(data, offs[i], offs[i], |vals[i]| + 2) == data;
      assert offs[i := offs[i]] == offs;
      SlideStill(data, offs, vals, i + 1);
    } else {
      SlideEnds(data, offs, PackedAt(vals, i));
    }
  }

  // Removing a one-byte value in front of a four-byte one: the four-byte
  // block moves by three and its size is read from its own bytes.
  lemma ShortGapGoesWrong(data: Data, v: Str)
    requires v == [97, 98, 99, 100] && Stored(data, [3], [v])
    ensures !PackedPage(Compact(data, [3]), [v])
  {
    assert Cell(v)[3] == 98 && Cell(v)[4] == 99;
    assert PackedAt([v], 0) == 0;
    assert !SafeGap([3], [v], 0);
    CompactsIff(data, [3], [v]);
  }

  // ----- the page -----

  // memmove within the page.
  method MoveBytes(data: array<Byte>, to: nat, from: nat, n: nat)
    requires to + n <= data.Length && from + n <= data.Length
    modifies data
    ensures data[..] == Moved(old(data[..]), to, from, n)
  {
    forall i | 0 <= i < n {
      data[to + i] := data[from + i];
    }
    forall k | 0 <= k < data.Length
      ensures data[k] == Moved(old(data[..]), to, from, n)[k]
    {
      MovedAt(old(data[..]), to, from, n, k);
      if to <= k < to + n {
        assert data[to + (k - to)] == old(data[from + (k - to)]);
      }
    }
  }

  method ClearFrom(data: array<Byte>, start: nat)
    requires start <= data.Length
    modifies data
    ensures data[..] == old(data[..start]) + Zeros(data.Length - start)
  {
    forall i | start <= i < data.Length {
      data[i] := 0;
    }
  }

  class Page {
    const data: array<Byte>
    var offsets: seq<nat>
    var offsetBytes: nat
    var fragmentatedBytes: nat

    // Nothing in use.
    constructor ()
      ensures fresh(data) && data.Length == PAGE_SIZE
      ensures offsets == [] && offsetBytes == 0 && fragmentatedBytes == 0
    {
      data := new Byte[PAGE_SIZE](_ => 0);
      offsets, offsetBytes, fragmentatedBytes := [], 0, 0;
    }

    // Slides the blocks together in place. False: a block or the running
    // offset left the page.
    method Defragmentate() returns (ok: bool)
      modifies this, data
      ensures ok <==> Compact(old(data[..]), old(offsets)).Done?
      ensures ok ==> Done(data[..], offsets, offsetBytes) == Compact(old(data[..]), old(offsets))
      ensures ok ==> fragmentatedBytes == 0
      ensures forall vals :: Stored(old(data[..]), old(offsets), vals) ==>
        (SafeGaps(old(offsets), vals) <==> ok && PackedPage(Done(data[..], offsets, offsetBytes), vals))
    {
      hide Moved, Read16, PackedPage, SafeGaps, Stored, Zeros;
      ghost var start, keys := data[..], offsets;
      AlwaysCompactsIff(start, keys);
      var offset: nat := 0;
      var block: nat := 0;
      while block < |offsets|
        invariant block <= |offsets|
        invariant Slide(data[..], offsets, block, offset) == Slide(start, keys, 0, 0)
      {
        var from := offsets[block];
        if from + 2 > data.Length {
          return false;
        }
        var size := Read16(data[..], from) + 2;
        if from + size > data.Length || offset + size > data.Length {
          return false;
        }
        MoveBytes(data, offset, from, size);
        offsets := offsets[block := offset];
        offset := offset + Read16(data[..], from) + 2;
        block := block + 1;
      }
      fragmentatedBytes := 0;
      offsetBytes := offset;
      if offset > data.Length {
        return false;
      }
      ClearFrom(data, offset);
      ok := true;
    }
  }
}
