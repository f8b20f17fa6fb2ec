/** The arena: the page slots one behind the other in one stretch of memory, which
    a value at the end of a page can run across. */
module Arena {
  import opened Bytes
  import opened Compacted
  import opened Compaction
  import opened Options
  import opened Pages

  function Slot(arena: Data, p: nat): (s: Data)
    requires PAGE_SIZE * p + PAGE_SIZE <= |arena|
    ensures |s| == PAGE_SIZE
  {
    arena[PAGE_SIZE * p..PAGE_SIZE * p + PAGE_SIZE]
  }

  // The first n slots.
  function Slots(arena: Data, n: nat): (s: seq<Data>)
    requires PAGE_SIZE * n <= |arena|
    ensures |s| == n && forall p :: 0 <= p < n ==> s[p] == Slot(arena, p)
  {
    if n == 0 then [] else Slots(arena, n - 1) + [Slot(arena, n - 1)]
  }

  // ----- reading -----

  // What is read at an address: a size, then that many bytes; nothing when they
  // do not end inside the arena.
  function ReadRecord(arena: Data, at: nat): Option<seq<Byte>> {
    if at + 2 > |arena| || at + 2 + Read16(arena, at) > |arena| then None else Some(ReadValue(arena, at))
  }

  // A record reads right exactly when its whole cell is there.
  lemma ReadsIff(arena: Data, at: nat, v: Str)
    ensures ReadRecord(arena, at) == Some(v) <==> Holds(arena, at, v)
  {
    if Holds(arena, at, v) {
      ReadStored(arena, at, v);
    }
    if ReadRecord(arena, at) == Some(v) {
      var n := Read16(arena, at);
      assert Le(|v|, 2) == [|v| % 256, |v| / 256 % 256];
      assert arena[at..at + 2 + n] == [arena[at], arena[at + 1]] + arena[at + 2..at + 2 + n];
    }
  }

  lemma HoldsInSlot(arena: Data, p: nat, at: nat, v: Str)
    requires PAGE_SIZE * p + PAGE_SIZE <= |arena| && at + |v| + 2 <= PAGE_SIZE
    ensures Holds(Slot(arena, p), at, v) <==> Holds(arena, PAGE_SIZE * p + at, v)
  {
    var from, end := PAGE_SIZE * p + at, at + 2 + |v|;
    assert Slot(arena, p)[at..end] == arena[from..from + 2 + |v|];
  }

  // ----- writing -----

  // The bytes of a value written at `a` that fall on a cell are the bytes that
  // are there already.
  ghost predicate CellSpared(arena: Data, at: nat, w: Str, a: nat, v: Str)
    requires a + |v| + 2 <= |arena| && at + |w| + 2 <= |arena|
  {
    forall k :: at <= k < at + |w| + 2 && a <= k < a + |v| + 2 ==> arena[k] == Cell(v)[k - a]
  }

  lemma WrittenAt(arena: Data, a: nat, v: Str, k: nat)
    requires a + |v| + 2 <= |arena| && k < |arena|
    ensures Written(arena, a, v)[k] == if a <= k < a + |v| + 2 then Cell(v)[k - a] else arena[k]
  {
    hide Cell;
  }

  // A record survives a write exactly when its cell is spared.
  lemma SurvivesIff(arena: Data, at: nat, w: Str, a: nat, v: Str)
    requires Holds(arena, at, w) && a + |v| + 2 <= |arena|
    ensures Holds(Written(arena, a, v), at, w) <==> CellSpared(arena, at, w, a, v)
  {
    hide Cell, Written;
    var r := Written(arena, a, v);
    var end := at + 2 + |w|;
    if Holds(r, at, w) {
      forall k | at <= k < end && a <= k < a + |v| + 2 ensures arena[k] == Cell(v)[k - a] {
        WrittenAt(arena, a, v, k);
        assert r[at..end][k - at] == arena[at..end][k - at];
      }
    }
    if CellSpared(arena, at, w, a, v) {
      forall k | at <= k < end ensures r[k] == arena[k] {
        WrittenAt(arena, a, v, k);
      }
      assert r[at..end] == arena[at..end];
    }
  }

  // A write that ends inside its slot leaves all other slots alone.
  lemma WriteInSlot(arena: Data, n: nat, p: nat, at: nat, v: Str)
    requires PAGE_SIZE * n <= |arena| && p < n && at + |v| + 2 <= PAGE_SIZE
    ensures Slots(Written(arena, PAGE_SIZE * p + at, v), n) == Slots(arena, n)[p := Written(Slot(arena, p), at, v)]
  {
    hide Cell, Written;
    var a := PAGE_SIZE * p + at;
    var r := Written(arena, a, v);
    forall q | 0 <= q < n
      ensures Slot(r, q) == if q == p then Written(Slot(arena, p), at, v) else Slot(arena, q)
    {
      forall k | 0 <= k < PAGE_SIZE
        ensures Slot(r, q)[k] == if q == p then Written(Slot(arena, p), at, v)[k] else Slot(arena, q)[k]
      {
        WrittenAt(arena, a, v, PAGE_SIZE * q + k);
        WrittenAt(Slot(arena, p), at, v, k);
      }
    }
  }

  // ----- compacting in the arena -----

  // The blocks move within the memory from the slot on; Fault when they leave
  // the arena, or end behind the page, whose rest could not be cleared.
  function CompactAt(arena: Data, p: nat, offs: seq<nat>): (r: Outcome)
    requires PAGE_SIZE * p + PAGE_SIZE <= |arena|
    ensures r.Done? ==> |r.data| == |arena| && |r.offs| == |offs|
  {
    var r := Swept(arena[PAGE_SIZE * p..], offs, PAGE_SIZE);
    if r.Fault? then Fault else Done(arena[..PAGE_SIZE * p] + r.data, r.offs, r.end)
  }

  // What moves within the page does not depend on the memory behind it.
  lemma {:induction false} SlideSame(data: Data, more: Data, offs: seq<nat>, i: nat, offset: nat)
    requires i <= |offs| && Slide(data, offs, i, offset).Done?
    ensures var r := Slide(data, offs, i, offset);
      Slide(data + more, offs, i, offset) == Done(r.data + more, r.offs, r.end)
    decreases |offs| - i
  {
    hide Moved;
    if i < |offs| {
      var k := offs[i];
      var n := Read16(data, k) + 2;
      var data' := Moved(data, offset, k, n);
      MovedSame(data, more, offset, k, n);
      assert (data + more)[k] == data[k] && (data + more)[k + 1] == data[k + 1];
      assert (data' + more)[k] == data'[k] && (data' + more)[k + 1] == data'[k + 1];
      SlideSame(data', more, offs[i := offset], i + 1, offset + Read16(data', k) + 2);
    }
  }

  lemma MovedSame(data: Data, more: Data, to: nat, from: nat, n: nat)
    requires to + n <= |data| && from + n <= |data|
    ensures Moved(data + more, to, from, n) == Moved(data, to, from, n) + more
  {
    assert (data + more)[from..from + n] == data[from..from + n];
  }

  // With safe gaps the slot is compacted as a page of its own.
  lemma CompactInSlot(arena: Data, n: nat, p: nat, offs: seq<nat>)
    requires PAGE_SIZE * n <= |arena| && p < n && Compact(Slot(arena, p), offs).Done?
    ensures var r := Compact(Slot(arena, p), offs);
      |r.data| == PAGE_SIZE && var s := CompactAt(arena, p, offs);
      s.Done? && s.offs == r.offs && s.end == r.end && Slots(s.data, n) == Slots(arena, n)[p := r.data]
  {
    hide Slide, Zeros;
    var base := PAGE_SIZE * p;
    var slot, more := Slot(arena, p), arena[base + PAGE_SIZE..];
    SlideBelow(slot, offs, 0, 0);
    assert arena[base..] == slot + more;
    SlideSame(slot, more, offs, 0, 0);
    var r, s := Compact(slot, offs), CompactAt(arena, p, offs);
    var inner := Slide(slot, offs, 0, 0).data;
    assert (inner + more)[..r.end] == inner[..r.end] && (inner + more)[PAGE_SIZE..] == more;
    assert s.data == arena[..base] + r.data + more;
    forall q | 0 <= q < n ensures Slot(s.data, q) == if q == p then r.data else Slot(arena, q) {
      SlotOfPatch(arena, s.data, p, q, r.data);
    }
  }

  lemma SlotOfPatch(arena: Data, patched: Data, p: nat, q: nat, data: Data)
    requires |data| == PAGE_SIZE && PAGE_SIZE * p + PAGE_SIZE <= |arena| && PAGE_SIZE * q + PAGE_SIZE <= |arena|
    requires patched == arena[..PAGE_SIZE * p] + data + arena[PAGE_SIZE * p + PAGE_SIZE..]
    ensures |patched| == |arena| && Slot(patched, q) == if q == p then data else Slot(arena, q)
  {
    forall k | 0 <= k < PAGE_SIZE
      ensures Slot(patched, q)[k] == if q == p then data[k] else Slot(arena, q)[k]
    {
      assert Slot(patched, q)[k] == patched[PAGE_SIZE * q + k];
    }
  }

  // In the arena, too, the page is packed exactly when every gap is safe.
  lemma CompactAtPacksIff(arena: Data, p: nat, offs: seq<nat>, vals: seq<Str>)
    requires PAGE_SIZE * p + PAGE_SIZE <= |arena| && Stored(Slot(arena, p), offs, vals)
    ensures SafeGaps(offs, vals) <==>
      var r := CompactAt(arena, p, offs); r.Done? && |r.offs| == |vals| && AllPacked(r, vals)
  {
    hide Cell, Le, Slide, Zeros, Reread, PackedAt;
    var mem, slot := arena[PAGE_SIZE * p..], Slot(arena, p);
    var more := arena[PAGE_SIZE * p + PAGE_SIZE..];
    assert mem == slot + more;
    forall i | 0 <= i < |vals| ensures Holds(mem, offs[i], vals[i]) {
      assert Holds(slot, offs[i], vals[i]);
      assert (slot + more)[offs[i]..offs[i] + 2 + |vals[i]|] == slot[offs[i]..offs[i] + 2 + |vals[i]|];
    }
    PackedStart(vals);
    if SafeGaps(offs, vals) {
      SlideFollows(slot, offs, vals, 0);
      var r := Slide(slot, offs, 0, 0);
      PackedFits(r.data, r.offs, vals);
      SlideSame(slot, more, offs, 0, 0);
    } else {
      var bad: nat :| bad < |vals| && !SafeGap(offs, vals, bad);
      SlideStrays(mem, offs, vals, 0, bad);
    }
  }

  // ----- what is read after a compaction -----

  lemma HoldsFrom(arena: Data, base: nat, at: nat, v: Str)
    requires base <= |arena|
    ensures Holds(arena[base..], at, v) <==> Holds(arena, base + at, v)
  {
    hide Cell;
    var end := at + 2 + |v|;
    if base + end <= |arena| {
      assert arena[base..][at..end] == arena[base + at..base + end];
    }
  }

  // The byte a compaction of slot p leaves at an address, if it put one there.
  function Put(p: nat, offs: seq<nat>, vals: seq<Str>, x: nat): Option<Byte>
    requires |offs| == |vals|
  {
    if x < PAGE_SIZE * p then None else Final(offs, vals, PAGE_SIZE, x - PAGE_SIZE * p)
  }

  lemma CompactAtBytes(arena: Data, p: nat, offs: seq<nat>, vals: seq<Str>)
    requires PAGE_SIZE * p + PAGE_SIZE <= |arena| && AllHeld(arena[PAGE_SIZE * p..], offs, vals)
    requires AllMove(offs, vals, |arena| - PAGE_SIZE * p)
    ensures var r := CompactAt(arena, p, offs);
      (r.Done? <==> Place(offs, vals, |vals|) <= PAGE_SIZE)
      && (r.Done? ==> forall x: nat :: x < |arena| ==> r.data[x] == Over(Put(p, offs, vals, x), arena[x]))
  {
    hide Swept, AllMove, Place, Final, Holds;
    var base := PAGE_SIZE * p;
    SweptBytes(arena[base..], offs, vals, PAGE_SIZE);
    var r, s := CompactAt(arena, p, offs), Swept(arena[base..], offs, PAGE_SIZE);
    if r.Done? {
      forall x: nat | x < |arena| ensures r.data[x] == Over(Put(p, offs, vals, x), arena[x]) {
        if x >= base {
          assert r.data[x] == s.data[x - base];
        }
      }
    }
  }

  // The record at an address keeps its bytes: the compaction puts none on it
  // but its own.
  ghost predicate KeptBy(p: nat, offs: seq<nat>, vals: seq<Str>, at: nat, w: Str)
    requires |offs| == |vals|
  {
    forall k: nat :: k < |w| + 2 ==> Over(Put(p, offs, vals, at + k), Cell(w)[k]) == Cell(w)[k]
  }

  lemma KeptIff(arena: Data, p: nat, offs: seq<nat>, vals: seq<Str>, at: nat, w: Str)
    requires PAGE_SIZE * p + PAGE_SIZE <= |arena| && AllHeld(arena[PAGE_SIZE * p..], offs, vals)
    requires AllMove(offs, vals, |arena| - PAGE_SIZE * p)
    requires CompactAt(arena, p, offs).Done? && Holds(arena, at, w)
    ensures Holds(CompactAt(arena, p, offs).data, at, w) <==> KeptBy(p, offs, vals, at, w)
  {
    hide CompactAt, Put, AllMove, Cell;
    CompactAtBytes(arena, p, offs, vals);
    var data, end := CompactAt(arena, p, offs).data, at + 2 + |w|;
    forall k: nat | k < |w| + 2
      ensures data[at + k] == Over(Put(p, offs, vals, at + k), Cell(w)[k])
    {
      CellAt(arena, at, w, k);
    }
    if Holds(data, at, w) {
      forall k: nat | k < |w| + 2 ensures data[at + k] == Cell(w)[k] {
        CellAt(data, at, w, k);
      }
    }
    if KeptBy(p, offs, vals, at, w) {
      assert data[at..end] == Cell(w);
    }
  }
}
