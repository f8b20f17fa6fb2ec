/** One page of values with its header: what adding, removing and compacting
    values keep. */
module Pages {
  import opened Bits
  import opened Bytes
  import opened Compacted
  import opened Compaction
  import opened Options
  import opened Sequences

  datatype PageState = DIRTY | CLEAN

  // The keys of a page are pairs of an offset and the key's meta record; here
  // they are two sequences of one length, the records named by numbers.
  datatype Header = Header(
    offsetBytes: nat,
    fragmentatedBytes: nat,
    offsets: seq<nat>,
    owners: seq<nat>,
    state: PageState)

  const NEW_HEADER: Header := Header(0, 0, [], [], DIRTY)

  function EndOf(offs: seq<nat>, vals: seq<Str>): nat
    requires |offs| == |vals|
  {
    if vals == [] then 0 else offs[|vals| - 1] + |vals[|vals| - 1]| + 2
  }

  // The removed bytes counted so far fit between the values and the page's
  // end, each removal leaving its two size bytes uncounted.
  predicate Slack(h: Header, vals: seq<Str>) {
    if h.fragmentatedBytes == 0 then PackedAt(vals, |vals|) <= h.offsetBytes
    else PackedAt(vals, |vals|) + h.fragmentatedBytes + 2 <= h.offsetBytes
  }

  ghost predicate PageOk(h: Header, data: Data, vals: seq<Str>) {
    && |data| == PAGE_SIZE
    && |h.offsets| == |h.owners| == |vals|
    && Stored(data, h.offsets, vals)
    && EndOf(h.offsets, vals) <= h.offsetBytes <= PAGE_SIZE
    && Slack(h, vals)
  }

  lemma NewPageOk(data: Data)
    requires |data| == PAGE_SIZE
    ensures PageOk(NEW_HEADER, data, [])
  {
  }

  // ----- choosing a page -----

  // The room check of the original leaves out the two size bytes.
  predicate RoomFor(h: Header, size: nat) {
    (0x1_0000 + PAGE_SIZE - h.offsetBytes % 0x1_0000) % 0x1_0000 >= size
  }

  // The check in bytes: a page passes exactly when the value's bytes, though not
  // its size, end inside it; behind an overfull page, when the sum wraps.
  lemma RoomForIff(h: Header, size: nat)
    ensures h.offsetBytes <= PAGE_SIZE ==> (RoomFor(h, size) <==> h.offsetBytes + size <= PAGE_SIZE)
    ensures PAGE_SIZE < h.offsetBytes < 0x1_0000 ==> (RoomFor(h, size) <==> h.offsetBytes + size <= 0x1_0000 + PAGE_SIZE)
  {
  }

  // The check passes a page the value does not fit into exactly when what is
  // left is the value's size or one byte more, or the page is overfull already:
  // then the difference wraps, and lets in almost everything.
  lemma RoomCheckMissesIff(h: Header, size: nat)
    requires h.offsetBytes < 0x1_0000
    ensures var left := PAGE_SIZE - h.offsetBytes;
      RoomFor(h, size) && left < size + 2 <==> left == size || left == size + 1 || (left < 0 && size <= 0x1_0000 + left)
  {
  }

  // The other test a page can pass, on its average share and fragmentation.
  predicate Preferable(h: Header, size: nat)
    requires |h.offsets| > 0
  {
    && (if h.fragmentatedBytes <= PAGE_SIZE then (PAGE_SIZE - h.fragmentatedBytes) / |h.offsets| >= size else true)
    && h.fragmentatedBytes / PAGE_SIZE * |h.offsets| >= 4
  }

  // The test in numbers: never below a page of removed bytes, and from there on
  // with enough keys for so many pages.
  lemma PreferableIff(h: Header, size: nat)
    requires h.offsets != []
    ensures h.fragmentatedBytes < PAGE_SIZE ==> !Preferable(h, size)
    ensures h.fragmentatedBytes == PAGE_SIZE ==> (Preferable(h, size) <==> size == 0 && |h.offsets| >= 4)
    ensures PAGE_SIZE < h.fragmentatedBytes < 0x1_0000 ==>
      (Preferable(h, size) <==>
        |h.offsets| >= 4 || (|h.offsets| >= 2 && h.fragmentatedBytes >= 2 * PAGE_SIZE) || h.fragmentatedBytes >= 4 * PAGE_SIZE)
  {
    var n, f := |h.offsets|, h.fragmentatedBytes / PAGE_SIZE;
    if h.fragmentatedBytes == PAGE_SIZE {
      assert 0 / n == 0;
    } else if PAGE_SIZE < h.fragmentatedBytes < 0x1_0000 {
      assert 1 <= f <= 15;
      if f >= 4 {
        assert f * n >= 4;
      } else if f >= 2 && n >= 2 {
        assert f * n >= 4;
      }
    }
  }

  // That test never succeeds.
  lemma NeverPreferable(h: Header, data: Data, vals: seq<Str>, size: nat)
    requires PageOk(h, data, vals) && |h.offsets| > 0
    ensures !Preferable(h, size)
  {
    assert h.fragmentatedBytes < PAGE_SIZE;
    assert h.fragmentatedBytes / PAGE_SIZE == 0;
  }

  datatype Choice = Existing(page: nat) | Preferred(page: nat) | Fresh | DivisionByZero

  // The first page with room; failing that the last preferable one, which is
  // compacted first; failing that a new one. A page without room and without
  // keys on the way makes the original divide by zero.
  function Choose(headers: seq<Header>, size: nat): (c: Choice)
    ensures c.Existing? ==> c.page < |headers| && RoomFor(headers[c.page], size)
    ensures c.Preferred? ==> c.page < |headers|
  {
    ChooseFrom(headers, 0, size, None)
  }

  function ChooseFrom(headers: seq<Header>, i: nat, size: nat, preferred: Option<nat>): (c: Choice)
    requires i <= |headers| && (preferred.Some? ==> preferred.value < i)
    ensures c.Existing? ==> i <= c.page < |headers| && RoomFor(headers[c.page], size)
    ensures c.Preferred? ==> c.page < |headers|
    decreases |headers| - i
  {
    if i == |headers| then (if preferred.Some? then Preferred(preferred.value) else Fresh)
    else if RoomFor(headers[i], size) then Existing(i)
    else if |headers[i].offsets| == 0 then DivisionByZero
    else ChooseFrom(headers, i + 1, size, if Preferable(headers[i], size) then Some(i) else preferred)
  }

  predicate NoRoomBefore(headers: seq<Header>, n: nat, size: nat) {
    forall i :: 0 <= i < n && i < |headers| ==> !RoomFor(headers[i], size)
  }

  predicate KeyedBefore(headers: seq<Header>, n: nat) {
    forall i :: 0 <= i < n && i < |headers| ==> headers[i].offsets != []
  }

  predicate FirstWithRoom(headers: seq<Header>, p: nat, size: nat) {
    p < |headers| && RoomFor(headers[p], size) && NoRoomBefore(headers, p, size) && KeyedBefore(headers, p)
  }

  // A page without keys fails the room check, and so does every page before it.
  ghost predicate MeetsEmptyPage(headers: seq<Header>, size: nat) {
    exists k: nat :: k < |headers| && headers[k].offsets == [] && NoRoomBefore(headers, k + 1, size)
  }

  predicate NoneWithRoom(headers: seq<Header>, size: nat) {
    NoRoomBefore(headers, |headers|, size) && KeyedBefore(headers, |headers|)
  }

  predicate WorthCompacting(h: Header, size: nat) {
    h.offsets != [] && Preferable(h, size)
  }

  predicate NoneWorthIt(headers: seq<Header>, from: nat, end: nat, size: nat) {
    forall i :: from <= i < end && i < |headers| ==> !WorthCompacting(headers[i], size)
  }

  predicate LastWorthIt(headers: seq<Header>, p: nat, size: nat) {
    p < |headers| && WorthCompacting(headers[p], size) && NoneWorthIt(headers, p + 1, |headers|, size)
  }

  // What the loop finds, in terms of the pages.
  lemma ChooseIff(headers: seq<Header>, size: nat)
    ensures Choose(headers, size) == DivisionByZero <==> MeetsEmptyPage(headers, size)
    ensures forall p: nat :: Choose(headers, size) == Existing(p) <==> FirstWithRoom(headers, p, size)
    ensures forall p: nat ::
      Choose(headers, size) == Preferred(p) <==> NoneWithRoom(headers, size) && LastWorthIt(headers, p, size)
    ensures Choose(headers, size) == Fresh
      <==> NoneWithRoom(headers, size) && NoneWorthIt(headers, 0, |headers|, size)
  {
    hide RoomFor, WorthCompacting;
    ChooseFromIff(headers, 0, size, None);
  }

  ghost predicate Passed(headers: seq<Header>, i: nat, size: nat, preferred: Option<nat>) {
    && i <= |headers| && NoRoomBefore(headers, i, size) && KeyedBefore(headers, i)
    && match preferred
       case None => NoneWorthIt(headers, 0, i, size)
       case Some(p) => p < i && WorthCompacting(headers[p], size) && NoneWorthIt(headers, p + 1, i, size)
  }

  lemma {:induction false} ChooseFromIff(headers: seq<Header>, i: nat, size: nat, preferred: Option<nat>)
    requires Passed(headers, i, size, preferred)
    ensures var c := ChooseFrom(headers, i, size, preferred);
      && (c == DivisionByZero <==> MeetsEmptyPage(headers, size))
      && (forall p: nat :: c == Existing(p) <==> FirstWithRoom(headers, p, size))
      && (forall p: nat :: c == Preferred(p) <==> NoneWithRoom(headers, size) && LastWorthIt(headers, p, size))
      && (c == Fresh <==> NoneWithRoom(headers, size) && NoneWorthIt(headers, 0, |headers|, size))
    decreases |headers| - i
  {
    hide RoomFor, Preferable;
    if i < |headers| && !RoomFor(headers[i], size) {
      if headers[i].offsets == [] {
        assert NoRoomBefore(headers, i + 1, size);
      } else {
        var next := if WorthCompacting(headers[i], size) then Some(i) else preferred;
        assert Passed(headers, i + 1, size, next);
        ChooseFromIff(headers, i + 1, size, next);
      }
    }
  }

  // Pages that are not overfull, with less than a page of removed bytes each, as
  // while all are in order.
  predicate Ordinary(headers: seq<Header>) {
    forall i :: 0 <= i < |headers| ==> headers[i].offsetBytes <= PAGE_SIZE && headers[i].fragmentatedBytes < PAGE_SIZE
  }

  predicate FullBefore(headers: seq<Header>, n: nat, size: nat) {
    forall i :: 0 <= i < n && i < |headers| ==> headers[i].offsetBytes + size > PAGE_SIZE
  }

  lemma NoRoomIff(headers: seq<Header>, n: nat, size: nat)
    requires Ordinary(headers)
    ensures NoRoomBefore(headers, n, size) <==> FullBefore(headers, n, size)
  {
    hide RoomFor;
    forall i | 0 <= i < |headers| ensures RoomFor(headers[i], size) <==> headers[i].offsetBytes + size <= PAGE_SIZE {
      RoomForIff(headers[i], size);
    }
  }

  // The choice in bytes.
  lemma ChooseByBytes(headers: seq<Header>, size: nat)
    requires Ordinary(headers)
    ensures forall p: nat :: Choose(headers, size) == Existing(p) <==>
      p < |headers| && headers[p].offsetBytes + size <= PAGE_SIZE && FullBefore(headers, p, size) && KeyedBefore(headers, p)
    ensures Choose(headers, size) == DivisionByZero <==>
      exists k: nat :: k < |headers| && headers[k].offsets == [] && FullBefore(headers, k + 1, size)
    ensures Choose(headers, size) == Fresh <==> FullBefore(headers, |headers|, size) && KeyedBefore(headers, |headers|)
  {
    hide RoomFor, Preferable, Choose;
    ChooseIff(headers, size);
    forall n: nat ensures NoRoomBefore(headers, n, size) <==> FullBefore(headers, n, size) {
      NoRoomIff(headers, n, size);
    }
    forall i | 0 <= i < |headers|
      ensures RoomFor(headers[i], size) <==> headers[i].offsetBytes + size <= PAGE_SIZE
      ensures !WorthCompacting(headers[i], size)
    {
      RoomForIff(headers[i], size);
      if headers[i].offsets != [] {
        PreferableIff(headers[i], size);
      }
    }
    if k: nat :| k < |headers| && headers[k].offsets == [] && FullBefore(headers, k + 1, size) {
      assert NoRoomBefore(headers, k + 1, size);
    }
    if MeetsEmptyPage(headers, size) {
      var k: nat :| k < |headers| && headers[k].offsets == [] && NoRoomBefore(headers, k + 1, size);
      assert FullBefore(headers, k + 1, size);
    }
  }

  // Where a value put into page p begins, the page behind the last one being new.
  function Start(headers: seq<Header>, p: nat): nat {
    PAGE_SIZE * p + OffsetAt(headers, p)
  }

  function OffsetAt(headers: seq<Header>, p: nat): nat {
    if p < |headers| then headers[p].offsetBytes else 0
  }

  // The page for a value of this size: the first with room, or, with no page
  // worth compacting, a new one.
  predicate GoesTo(headers: seq<Header>, slots: nat, size: nat, p: nat) {
    || FirstWithRoom(headers, p, size)
    || (p == |headers| < slots && NoneWithRoom(headers, size) && NoneWorthIt(headers, 0, |headers|, size))
  }

  // ----- adding a value -----

  function Pushed(h: Header, owner: nat, size: nat): Header {
    h.(offsets := h.offsets + [h.offsetBytes], owners := h.owners + [owner],
       offsetBytes := (h.offsetBytes + size + 2) % 0x1_0000)
  }

  function Written(data: Data, at: nat, v: Str): (r: Data)
    requires at + |v| + 2 <= |data|
    ensures |r| == |data|
  {
    data[..at] + Cell(v) + data[at + |v| + 2..]
  }

  lemma WrittenHolds(data: Data, at: nat, v: Str)
    requires at + |v| + 2 <= |data|
    ensures Holds(Written(data, at, v), at, v)
  {
    hide Cell;
    assert Written(data, at, v)[at..at + 2 + |v|] == Cell(v);
  }

  lemma WrittenKeeps(data: Data, at: nat, v: Str, other: nat, w: Str)
    requires at + |v| + 2 <= |data| && Holds(data, other, w) && other + |w| + 2 <= at
    ensures Holds(Written(data, at, v), other, w)
  {
    hide Cell;
    var end := other + 2 + |w|;
    assert Written(data, at, v)[other..end] == data[other..end];
  }

  lemma {:induction false} BelowEnd(data: Data, offs: seq<nat>, vals: seq<Str>, i: nat)
    requires Stored(data, offs, vals) && i < |vals|
    ensures offs[i] + |vals[i]| + 2 <= EndOf(offs, vals)
  {
    if i < |vals| - 1 {
      StoredApart(data, offs, vals, i, |vals| - 1);
    }
  }

  lemma {:induction false} PackedPrefix(vals: seq<Str>, more: seq<Str>, i: nat)
    requires i <= |vals| <= |more| && more[..|vals|] == vals
    ensures PackedAt(more, i) == PackedAt(vals, i)
  {
    if i > 0 {
      PackedPrefix(vals, more, i - 1);
      assert more[..|vals|][i - 1] == vals[i - 1];
    }
  }

  lemma PushOk(h: Header, data: Data, vals: seq<Str>, owner: nat, v: Str)
    requires PageOk(h, data, vals) && h.offsetBytes + |v| + 2 <= PAGE_SIZE
    ensures PageOk(Pushed(h, owner, |v|), Written(data, h.offsetBytes, v), vals + [v])
  {
    hide Cell, Written, PackedAt, Holds;
    var data', offs', vals' := Written(data, h.offsetBytes, v), h.offsets + [h.offsetBytes], vals + [v];
    WrittenHolds(data, h.offsetBytes, v);
    forall i | 0 <= i < |vals'| ensures Holds(data', offs'[i], vals'[i]) {
      if i < |vals| {
        BelowEnd(data, h.offsets, vals, i);
        WrittenKeeps(data, h.offsetBytes, v, offs'[i], vals'[i]);
      }
    }
    forall i | 0 < i < |vals'| ensures Follows(offs', vals', i) {
      if i < |vals| {
        assert Follows(h.offsets, vals, i);
      } else {
        BelowEnd(data, h.offsets, vals, i - 1);
      }
    }
    PackedNext(vals', |vals|);
    assert vals'[..|vals|] == vals;
    PackedPrefix(vals, vals', |vals|);
  }

  // ----- removing a value -----

  function Dropped(h: Header, i: nat, size: nat): Header
    requires i < |h.offsets| == |h.owners|
  {
    h.(offsets := Without(h.offsets, i), owners := Without(h.owners, i),
       fragmentatedBytes := (h.fragmentatedBytes + size) % 0x1_0000, state := DIRTY)
  }

  lemma {:induction false} PackedDrop(vals: seq<Str>, i: nat, n: nat)
    requires i < n <= |vals|
    ensures PackedAt(Without(vals, i), n - 1) + |vals[i]| + 2 == PackedAt(vals, n)
    decreases n
  {
    if n - 1 > i {
      PackedDrop(vals, i, n - 1);
      PackedNext(vals, n - 1);
      PackedNext(Without(vals, i), n - 2);
    } else {
      PackedNext(vals, i);
      PackedDropPrefix(vals, i, i);
    }
  }

  lemma {:induction false} PackedDropPrefix(vals: seq<Str>, i: nat, n: nat)
    requires n <= i < |vals|
    ensures PackedAt(Without(vals, i), n) == PackedAt(vals, n)
  {
    if n > 0 {
      PackedDropPrefix(vals, i, n - 1);
      PackedNext(vals, n - 1);
      PackedNext(Without(vals, i), n - 1);
    }
  }

  lemma DropOk(h: Header, data: Data, vals: seq<Str>, i: nat)
    requires PageOk(h, data, vals) && i < |vals|
    ensures PageOk(Dropped(h, i, |vals[i]|), data, Without(vals, i))
  {
    hide Cell, PackedAt;
    var offs', vals' := Without(h.offsets, i), Without(vals, i);
    forall j | 0 < j < |vals'| ensures Follows(offs', vals', j) {
      if j < i {
        assert Follows(h.offsets, vals, j);
      } else if j == i {
        StoredApart(data, h.offsets, vals, j - 1, j + 1);
      } else {
        assert Follows(h.offsets, vals, j + 1);
      }
    }
    if vals' != [] {
      BelowEnd(data, h.offsets, vals, if i == |vals| - 1 then |vals| - 2 else |vals| - 1);
    }
    PackedDrop(vals, i, |vals|);
  }

  // ----- compacting -----

  lemma CompactOk(h: Header, data: Data, vals: seq<Str>)
    requires PageOk(h, data, vals) && SafeGaps(h.offsets, vals)
    ensures var r := Compact(data, h.offsets);
      r.Done? && PageOk(h.(offsets := r.offs, offsetBytes := r.end, fragmentatedBytes := 0, state := DIRTY), r.data, vals)
  {
    hide Compact, Stored, Tame, SafeGaps;
    SafeTame(h, data, vals);
    TameOk(h, data, vals);
  }

  lemma SafeTame(h: Header, data: Data, vals: seq<Str>)
    requires PageOk(h, data, vals) && SafeGaps(h.offsets, vals)
    ensures Tame(h.offsets, vals, PAGE_SIZE)
  {
    hide Place, PackedAt, TameAt;
    SafeIsTame(data, h.offsets, vals);
  }

  // Compacting over tame gaps keeps the page in order, though not packed.
  lemma TameOk(h: Header, data: Data, vals: seq<Str>)
    requires PageOk(h, data, vals) && Tame(h.offsets, vals, PAGE_SIZE)
    ensures var r := Compact(data, h.offsets);
      r.Done? && PageOk(h.(offsets := r.offs, offsetBytes := r.end, fragmentatedBytes := 0, state := DIRTY), r.data, vals)
  {
    hide Slide, Cell, PackedAt, Zeros, Swept, Holds, Place;
    TameSurvives(data, h.offsets, vals, PAGE_SIZE);
    CompactIsSwept(data, h.offsets);
    var r := Compact(data, h.offsets);
    TameEnd(data, h.offsets, vals, PAGE_SIZE);
  }

  // What a key's meta record leads to.
  function ReadValue(data: Data, at: nat): (v: seq<Byte>)
    requires at + 2 <= |data| && at + 2 + Read16(data, at) <= |data|
  {
    data[at + 2..at + 2 + Read16(data, at)]
  }

  lemma ReadStored(data: Data, at: nat, v: Str)
    requires Holds(data, at, v)
    ensures Read16(data, at) == |v| && ReadValue(data, at) == v
  {
    Read16OfCell(v, data, at);
    assert data[at..at + 2 + |v|][2..] == data[at + 2..at + 2 + |v|];
    assert Cell(v)[2..] == v;
  }
}
