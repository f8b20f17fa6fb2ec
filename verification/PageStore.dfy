/** The page store: values spread over pages, each key's meta record leading to
    its value, with the reverse index inside the page headers. */
module PageStore {
  import opened Arena
  import opened Bytes
  import opened Compacted
  import opened Compaction
  import opened Options
  import opened Pages
  import opened Sequences

  // key_meta_t without the key: the page and the position in its key list.
  datatype Meta = Meta(page: nat, headerKeyId: nat)

  // Kept: stored and answered for. Otherwise the original divides by zero,
  // compacts a preferred page first, evicts a page, or writes behind the arena.
  datatype SetOutcome = Kept(page: nat) | DividedByZero | Prefers(page: nat) | NoSlot | OutsideArena

  ghost predicate PagesOk(headers: seq<Header>, arena: seq<Data>, vals: seq<seq<Str>>) {
    && |headers| == |arena| == |vals|
    && forall p :: 0 <= p < |headers| ==> PageOk(headers[p], arena[p], vals[p])
  }

  // Meta records and reverse index point at each other.
  ghost predicate Linked(headers: seq<Header>, metas: map<nat, Meta>) {
    && (forall m :: m in metas ==> LeadsTo(headers, metas, m))
    && (forall p: nat, i: nat :: p < |headers| && i < |headers[p].owners| ==> OwnedBack(headers, metas, p, i))
  }

  predicate LeadsTo(headers: seq<Header>, metas: map<nat, Meta>, m: nat)
    requires m in metas
  {
    var at := metas[m];
    at.page < |headers| && at.headerKeyId < |headers[at.page].owners|
    && headers[at.page].owners[at.headerKeyId] == m
  }

  predicate OwnedBack(headers: seq<Header>, metas: map<nat, Meta>, p: nat, i: nat)
    requires p < |headers| && i < |headers[p].owners|
  {
    headers[p].owners[i] in metas && metas[headers[p].owners[i]] == Meta(p, i)
  }

  ghost predicate InBounds(metas: map<nat, Meta>, vals: seq<seq<Str>>) {
    forall m :: m in metas ==> HasValue(metas, vals, m)
  }

  predicate HasValue(metas: map<nat, Meta>, vals: seq<seq<Str>>, m: nat)
    requires m in metas
  {
    metas[m].page < |vals| && metas[m].headerKeyId < |vals[metas[m].page]|
  }

  ghost function View(metas: map<nat, Meta>, vals: seq<seq<Str>>): map<nat, Str>
    requires InBounds(metas, vals)
  {
    map m | m in metas :: (assert HasValue(metas, vals, m); vals[metas[m].page][metas[m].headerKeyId])
  }

  lemma ViewKeys(metas: map<nat, Meta>, vals: seq<seq<Str>>)
    requires InBounds(metas, vals)
    ensures View(metas, vals).Keys == metas.Keys
  {
  }

  lemma ViewAt(metas: map<nat, Meta>, vals: seq<seq<Str>>, m: nat)
    requires InBounds(metas, vals) && m in metas && HasValue(metas, vals, m)
    ensures View(metas, vals)[m] == vals[metas[m].page][metas[m].headerKeyId]
  {
  }

  // Every page keeps as many offsets and owners as it has values.
  ghost predicate Even(headers: seq<Header>, vals: seq<seq<Str>>) {
    |headers| == |vals| && forall p :: 0 <= p < |headers| ==> EvenPage(headers[p], vals[p])
  }

  predicate EvenPage(h: Header, vals: seq<Str>) {
    |h.offsets| == |h.owners| == |vals|
  }

  lemma PagesEven(headers: seq<Header>, arena: seq<Data>, vals: seq<seq<Str>>)
    requires PagesOk(headers, arena, vals)
    ensures Even(headers, vals)
  {
    hide PageOk;
    forall p | 0 <= p < |headers| ensures EvenPage(headers[p], vals[p]) {
      SameLength(headers[p], arena[p], vals[p]);
    }
  }

  lemma LinkedInBounds(headers: seq<Header>, metas: map<nat, Meta>, vals: seq<seq<Str>>)
    requires Even(headers, vals) && Linked(headers, metas)
    ensures InBounds(metas, vals)
  {
    forall m | m in metas ensures HasValue(metas, vals, m) {
      assert LeadsTo(headers, metas, m) && EvenPage(headers[metas[m].page], vals[metas[m].page]);
    }
  }

  // One key more, at the end of the bytes in use, which wrap at two bytes; the
  // mark and the removed bytes are as before.
  predicate Appended(h: Header, h': Header, owner: nat, size: nat) {
    && h'.offsets == h.offsets + [h.offsetBytes] && h'.owners == h.owners + [owner]
    && h'.offsetBytes == (h.offsetBytes + size + 2) % 0x1_0000
    && h'.fragmentatedBytes == h.fragmentatedBytes && h'.state == h.state
  }

  // One key less, its bytes counted as removed; the page is marked.
  predicate TakenOut(h: Header, h': Header, i: nat, size: nat) {
    && i < |h.offsets| == |h.owners|
    && h'.offsets == h.offsets[..i] + h.offsets[i + 1..] && h'.owners == h.owners[..i] + h.owners[i + 1..]
    && h'.offsetBytes == h.offsetBytes
    && h'.fragmentatedBytes == (h.fragmentatedBytes + size) % 0x1_0000 && h'.state == DIRTY
  }

  predicate Behind(a: Meta, b: Meta) {
    a.page == b.page && a.headerKeyId > b.headerKeyId
  }

  // Adding a value at the end of a page's keys.
  lemma ViewPushed(metas: map<nat, Meta>, vals: seq<seq<Str>>, p: nat, m: nat, v: Str)
    requires InBounds(metas, vals) && p < |vals| && m !in metas
    ensures InBounds(metas[m := Meta(p, |vals[p]|)], vals[p := vals[p] + [v]])
    ensures View(metas[m := Meta(p, |vals[p]|)], vals[p := vals[p] + [v]]) == View(metas, vals)[m := v]
  {
    var metas', vals' := metas[m := Meta(p, |vals[p]|)], vals[p := vals[p] + [v]];
    forall x | x in metas' ensures HasValue(metas', vals', x) {
      assert x in metas ==> HasValue(metas, vals, x);
    }
  }

  lemma ViewNewPage(metas: map<nat, Meta>, vals: seq<seq<Str>>)
    requires InBounds(metas, vals)
    ensures InBounds(metas, vals + [[]]) && View(metas, vals + [[]]) == View(metas, vals)
  {
    forall m | m in metas ensures HasValue(metas, vals + [[]], m) {
      assert HasValue(metas, vals, m);
    }
  }

  // Removing a value: the keys behind it have moved down by one.
  lemma ViewDropped(metas: map<nat, Meta>, vals: seq<seq<Str>>, m: nat, metas': map<nat, Meta>)
    requires InBounds(metas, vals) && m in metas && HasValue(metas, vals, m)
    requires metas'.Keys == metas.Keys - {m}
    requires forall x :: x in metas' ==> metas[x] != metas[m]
    requires forall x :: x in metas' ==> metas'[x] == if Behind(metas[x], metas[m]) then Lowered(metas[x]) else metas[x]
    ensures var p, i := metas[m].page, metas[m].headerKeyId;
      InBounds(metas', vals[p := Without(vals[p], i)])
      && View(metas', vals[p := Without(vals[p], i)]) == View(metas, vals) - {m}
  {
    var p, i := metas[m].page, metas[m].headerKeyId;
    var vals' := vals[p := Without(vals[p], i)];
    forall x | x in metas'
      ensures HasValue(metas', vals', x) && HasValue(metas, vals, x)
      ensures vals'[metas'[x].page][metas'[x].headerKeyId] == vals[metas[x].page][metas[x].headerKeyId]
    {
      assert HasValue(metas, vals, x);
    }
  }

  // ----- records in the arena -----

  predicate Placed(headers: seq<Header>, vals: seq<seq<Str>>, at: Meta) {
    && at.page < |headers| == |vals|
    && at.headerKeyId < |headers[at.page].offsets| == |vals[at.page]|
  }

  function Address(headers: seq<Header>, at: Meta): nat
    requires at.page < |headers| && at.headerKeyId < |headers[at.page].offsets|
  {
    PAGE_SIZE * at.page + headers[at.page].offsets[at.headerKeyId]
  }

  // The record reads as the value last set for it.
  ghost predicate RecordReads(headers: seq<Header>, arena: Data, vals: seq<seq<Str>>, at: Meta) {
    Placed(headers, vals, at) && Holds(arena, Address(headers, at), vals[at.page][at.headerKeyId])
  }

  ghost predicate AllRead(headers: seq<Header>, arena: Data, metas: map<nat, Meta>, vals: seq<seq<Str>>) {
    forall m :: m in metas ==> RecordReads(headers, arena, vals, metas[m])
  }

  // A write at `a` leaves the record's bytes as they are.
  ghost predicate RecordSpared(headers: seq<Header>, arena: Data, vals: seq<seq<Str>>, at: Meta, a: nat, v: Str) {
    Placed(headers, vals, at) && var w := vals[at.page][at.headerKeyId];
    a + |v| + 2 <= |arena| && Address(headers, at) + |w| + 2 <= |arena|
    && CellSpared(arena, Address(headers, at), w, a, v)
  }

  ghost predicate AllSpared(headers: seq<Header>, arena: Data, metas: map<nat, Meta>, vals: seq<seq<Str>>, a: nat, v: Str) {
    forall m :: m in metas ==> RecordSpared(headers, arena, vals, metas[m], a, v)
  }

  // What each outcome says of the pages.
  ghost predicate Explains(headers: seq<Header>, slots: nat, size: nat, o: SetOutcome) {
    match o
    case Kept(p) => GoesTo(headers, slots, size, p) && Start(headers, p) + size + 2 <= PAGE_SIZE * slots
    case DividedByZero => MeetsEmptyPage(headers, size)
    case Prefers(p) => NoneWithRoom(headers, size) && LastWorthIt(headers, p, size)
    case NoSlot =>
      NoneWithRoom(headers, size) && NoneWorthIt(headers, 0, |headers|, size) && |headers| >= slots
    case OutsideArena =>
      exists p: nat :: GoesTo(headers, slots, size, p) && Start(headers, p) + size + 2 > PAGE_SIZE * slots
  }

  function OutcomeFor(headers: seq<Header>, slots: nat, size: nat): SetOutcome {
    match Choose(headers, size)
    case DivisionByZero => DividedByZero
    case Preferred(p) => Prefers(p)
    case Fresh =>
      if |headers| >= slots then NoSlot
      else if PAGE_SIZE * |headers| + size + 2 > PAGE_SIZE * slots then OutsideArena else Kept(|headers|)
    case Existing(p) =>
      if Start(headers, p) + size + 2 > PAGE_SIZE * slots then OutsideArena else Kept(p)
  }

  // Exactly one outcome is explained, so each comes about exactly when the pages
  // are as it says.
  lemma OneOutcome(headers: seq<Header>, slots: nat, size: nat)
    ensures forall o :: Explains(headers, slots, size, o) <==> o == OutcomeFor(headers, slots, size)
  {
    hide NoneWithRoom, NoneWorthIt, LastWorthIt, MeetsEmptyPage, FirstWithRoom, GoesTo;
    ChooseIff(headers, size);
    var c := Choose(headers, size);
    forall p: nat
      ensures GoesTo(headers, slots, size, p) <==> c == Existing(p) || (c == Fresh && p == |headers| < slots)
    {
      GoesThere(headers, slots, size, p);
    }
    if c.Existing? {
      assert GoesTo(headers, slots, size, c.page);
    } else if c.Fresh? && |headers| < slots {
      assert GoesTo(headers, slots, size, |headers|);
    }
  }

  lemma GoesThere(headers: seq<Header>, slots: nat, size: nat, p: nat)
    ensures GoesTo(headers, slots, size, p)
      <==> Choose(headers, size) == Existing(p) || (Choose(headers, size) == Fresh && p == |headers| < slots)
  {
    hide NoneWithRoom, NoneWorthIt, LastWorthIt, MeetsEmptyPage, FirstWithRoom;
    ChooseIff(headers, size);
  }

  // What an outcome says of the pages in bytes: a value goes past a page only
  // where it would not end inside, its two size bytes aside.
  predicate InBytes(headers: seq<Header>, size: nat, o: SetOutcome) {
    match o
    case Kept(p) =>
      FullBefore(headers, p, size)
      && (p < |headers| && headers[p].offsetBytes <= PAGE_SIZE ==> headers[p].offsetBytes + size <= PAGE_SIZE)
    case NoSlot => FullBefore(headers, |headers|, size)
    case Prefers(_) => FullBefore(headers, |headers|, size)
    case DividedByZero => exists k :: 0 <= k < |headers| && headers[k].offsets == [] && FullBefore(headers, k + 1, size)
    case OutsideArena => true
  }

  lemma PassedByBytes(headers: seq<Header>, n: nat, size: nat)
    requires NoRoomBefore(headers, n, size)
    ensures FullBefore(headers, n, size)
  {
    hide RoomFor;
    forall i | 0 <= i < n && i < |headers| ensures headers[i].offsetBytes + size > PAGE_SIZE {
      RoomForIff(headers[i], size);
    }
  }

  lemma ExplainsInBytes(headers: seq<Header>, slots: nat, size: nat, o: SetOutcome)
    requires Explains(headers, slots, size, o)
    ensures InBytes(headers, size, o)
  {
    hide RoomFor, NoRoomBefore, FullBefore, LastWorthIt, NoneWorthIt;
    match o
    case Kept(p) =>
      PassedByBytes(headers, p, size);
      if p < |headers| {
        RoomForIff(headers[p], size);
      }
    case NoSlot => PassedByBytes(headers, |headers|, size);
    case Prefers(_) => PassedByBytes(headers, |headers|, size);
    case DividedByZero =>
      var k: nat :| k < |headers| && headers[k].offsets == [] && NoRoomBefore(headers, k + 1, size);
      PassedByBytes(headers, k + 1, size);
    case OutsideArena =>
  }

  // On ordinary pages: kept on page p exactly when p is the first in which the
  // value's bytes end, every page before it has keys, and the arena has room.
  lemma KeptByBytes(headers: seq<Header>, slots: nat, size: nat, p: nat)
    requires Ordinary(headers)
    ensures Explains(headers, slots, size, Kept(p)) <==>
      Start(headers, p) + size + 2 <= PAGE_SIZE * slots && FullBefore(headers, p, size) && KeyedBefore(headers, p)
      && (if p < |headers| then headers[p].offsetBytes + size <= PAGE_SIZE else p == |headers| < slots)
  {
    hide Choose, FullBefore, KeyedBefore, NoneWithRoom, NoneWorthIt, FirstWithRoom;
    GoesThere(headers, slots, size, p);
    ChooseByBytes(headers, size);
  }

  // The headers, page p among them.
  function Opened(headers: seq<Header>, p: nat): seq<Header> {
    if p < |headers| then headers else headers + [NEW_HEADER]
  }

  function HeaderAt(headers: seq<Header>, p: nat): Header {
    if p < |headers| then headers[p] else NEW_HEADER
  }

  lemma LinkedPlaced(headers: seq<Header>, metas: map<nat, Meta>, vals: seq<seq<Str>>, m: nat)
    requires Even(headers, vals) && Linked(headers, metas) && m in metas
    ensures Placed(headers, vals, metas[m])
  {
    assert LeadsTo(headers, metas, m) && EvenPage(headers[metas[m].page], vals[metas[m].page]);
  }

  // Where every page is in order inside its own slot, every record reads right.
  lemma NeatReads(headers: seq<Header>, arena: Data, metas: map<nat, Meta>, vals: seq<seq<Str>>)
    requires PAGE_SIZE * |headers| <= |arena| && Linked(headers, metas)
    requires PagesOk(headers, Slots(arena, |headers|), vals)
    ensures AllRead(headers, arena, metas, vals)
  {
    hide Slot, Holds, Even, Linked, PageOk;
    PagesEven(headers, Slots(arena, |headers|), vals);
    forall m | m in metas ensures RecordReads(headers, arena, vals, metas[m]) {
      LinkedPlaced(headers, metas, vals, m);
      var p := metas[m].page;
      assert Slots(arena, |headers|)[p] == Slot(arena, p);
      SlotReads(headers[p], arena, p, vals[p], metas[m].headerKeyId);
    }
  }

  lemma SlotReads(h: Header, arena: Data, p: nat, vals: seq<Str>, i: nat)
    requires PAGE_SIZE * p + PAGE_SIZE <= |arena| && PageOk(h, Slot(arena, p), vals) && i < |vals|
    ensures |h.offsets| == |vals| && Holds(arena, PAGE_SIZE * p + h.offsets[i], vals[i])
  {
    hide Slot, Holds, Slack;
    HeldWithin(Slot(arena, p), h.offsets[i], vals[i]);
    HoldsInSlot(arena, p, h.offsets[i], vals[i]);
  }

  // After a value is appended, every record reads right exactly when each old
  // one was spared.
  lemma PushReadsIff(headers: seq<Header>, arena: Data, metas: map<nat, Meta>, vals: seq<seq<Str>>, p: nat, m: nat, v: Str)
    requires Even(headers, vals) && Linked(headers, metas) && AllRead(headers, arena, metas, vals)
    requires p < |headers| && m !in metas && PAGE_SIZE * p + headers[p].offsetBytes + |v| + 2 <= |arena|
    ensures var a := PAGE_SIZE * p + headers[p].offsetBytes;
      AllRead(headers[p := Pushed(headers[p], m, |v|)], Written(arena, a, v), metas[m := Meta(p, |headers[p].owners|)],
              vals[p := vals[p] + [v]])
      <==> AllSpared(headers, arena, metas, vals, a, v)
  {
    hide Written, CellSpared, Cell;
    var a := PAGE_SIZE * p + headers[p].offsetBytes;
    var headers', arena' := headers[p := Pushed(headers[p], m, |v|)], Written(arena, a, v);
    var metas', vals' := metas[m := Meta(p, |headers[p].owners|)], vals[p := vals[p] + [v]];
    assert EvenPage(headers[p], vals[p]);
    WrittenHolds(arena, a, v);
    assert RecordReads(headers', arena', vals', metas'[m]);
    forall x | x in metas
      ensures RecordReads(headers', arena', vals', metas'[x]) <==> RecordSpared(headers, arena, vals, metas[x], a, v)
    {
      assert RecordReads(headers, arena, vals, metas[x]);
      var at := metas[x];
      assert headers'[at.page].offsets[at.headerKeyId] == headers[at.page].offsets[at.headerKeyId];
      SurvivesIff(arena, Address(headers, at), vals[at.page][at.headerKeyId], a, v);
    }
    if AllSpared(headers, arena, metas, vals, a, v) {
      forall x | x in metas' ensures RecordReads(headers', arena', vals', metas'[x]) {
        if x != m {
          assert RecordSpared(headers, arena, vals, metas[x], a, v);
        }
      }
    }
    if AllRead(headers', arena', metas', vals') {
      forall x | x in metas ensures RecordSpared(headers, arena, vals, metas[x], a, v) {
        assert RecordReads(headers', arena', vals', metas'[x]);
      }
    }
  }

  lemma NewHeaderKeeps(headers: seq<Header>, arena: Data, metas: map<nat, Meta>, vals: seq<seq<Str>>, a: nat, v: Str)
    requires Even(headers, vals) && Linked(headers, metas)
    ensures Even(headers + [NEW_HEADER], vals + [[]]) && Linked(headers + [NEW_HEADER], metas)
    ensures AllRead(headers + [NEW_HEADER], arena, metas, vals + [[]]) <==> AllRead(headers, arena, metas, vals)
    ensures AllSpared(headers + [NEW_HEADER], arena, metas, vals + [[]], a, v) <==> AllSpared(headers, arena, metas, vals, a, v)
  {
    hide CellSpared, Holds;
    var headers', vals' := headers + [NEW_HEADER], vals + [[]];
    forall m | m in metas
      ensures LeadsTo(headers', metas, m)
      ensures RecordReads(headers', arena, vals', metas[m]) <==> RecordReads(headers, arena, vals, metas[m])
      ensures RecordSpared(headers', arena, vals', metas[m], a, v) <==> RecordSpared(headers, arena, vals, metas[m], a, v)
    {
      assert LeadsTo(headers, metas, m);
      LinkedPlaced(headers, metas, vals, m);
    }
    forall q: nat, i: nat | q < |headers'| && i < |headers'[q].owners|
      ensures OwnedBack(headers', metas, q, i)
    {
      assert OwnedBack(headers, metas, q, i);
    }
    forall q | 0 <= q < |headers'| ensures EvenPage(headers'[q], vals'[q]) {
      assert q < |headers| ==> EvenPage(headers[q], vals[q]);
    }
  }

  // Pages stay in order inside their slots exactly when the value ends inside.
  lemma PushNeatIff(headers: seq<Header>, arena: Data, vals: seq<seq<Str>>, p: nat, m: nat, v: Str)
    requires PAGE_SIZE * |headers| <= |arena| && PagesOk(headers, Slots(arena, |headers|), vals)
    requires p < |headers| && PAGE_SIZE * p + headers[p].offsetBytes + |v| + 2 <= |arena|
    ensures var a := PAGE_SIZE * p + headers[p].offsetBytes;
      PagesOk(headers[p := Pushed(headers[p], m, |v|)], Slots(Written(arena, a, v), |headers|), vals[p := vals[p] + [v]])
      <==> headers[p].offsetBytes + |v| + 2 <= PAGE_SIZE
  {
    hide Written, PageOk;
    var h, n := headers[p], |headers|;
    var a := PAGE_SIZE * p + h.offsetBytes;
    var headers', vals' := headers[p := Pushed(h, m, |v|)], vals[p := vals[p] + [v]];
    assert PageOk(h, Slots(arena, n)[p], vals[p]);
    SameLength(h, Slots(arena, n)[p], vals[p]);
    var slots' := Slots(Written(arena, a, v), n);
    if h.offsetBytes + |v| + 2 <= PAGE_SIZE {
      PushOk(h, Slot(arena, p), vals[p], m, v);
      WriteInSlot(arena, n, p, h.offsetBytes, v);
    } else {
      EndsInside(Pushed(h, m, |v|), slots'[p], vals[p] + [v]);
      assert !PageOk(headers'[p], slots'[p], vals'[p]);
    }
  }

  lemma EndsInside(h: Header, data: Data, vals: seq<Str>)
    ensures PageOk(h, data, vals) && vals != [] ==> h.offsets[|vals| - 1] + |vals[|vals| - 1]| + 2 <= PAGE_SIZE
  {
  }

  class Store {
    const allocatedPages: nat
    var headers: seq<Header>
    var arena: Data
    var metas: map<nat, Meta>

    // The values last set, for every page in key order.
    ghost var vals: seq<seq<Str>>

    // Pages, meta records and reverse index agree, and page p has slot p, so
    // nothing was evicted. What the records read as is another matter.
    ghost predicate Valid()
      reads this
    {
      && |arena| == PAGE_SIZE * allocatedPages && |headers| <= allocatedPages
      && Even(headers, vals) && Linked(headers, metas)
    }

    // What was last set for each meta record.
    ghost function Contents(): map<nat, Str>
      requires Valid()
      reads this
    {
      LinkedInBounds(headers, metas, vals);
      View(metas, vals)
    }

    // Every record reads as it should.
    ghost predicate Sound()
      reads this
    {
      AllRead(headers, arena, metas, vals)
    }

    // Every page is in order inside its own slot.
    ghost predicate Neat()
      requires Valid()
      reads this
    {
      PagesOk(headers, Slots(arena, |headers|), vals)
    }

    constructor (pages: nat)
      ensures Valid() && Sound() && Neat() && Contents() == map[] && allocatedPages == pages && headers == []
    {
      allocatedPages := pages;
      headers, metas, vals := [], map[], [];
      arena := Zeros(PAGE_SIZE * pages);
    }

    lemma NeatIsSound()
      requires Valid() && Neat()
      ensures Sound()
    {
      NeatReads(headers, arena, metas, vals);
    }

    lemma RecordsKept()
      requires Valid()
      ensures Contents().Keys == metas.Keys
    {
      LinkedInBounds(headers, metas, vals);
      ViewKeys(metas, vals);
    }

    // What is read at the place a meta record leads to.
    method Get(m: nat) returns (value: Option<seq<Byte>>)
      requires Valid() && m in Contents()
      ensures value == Some(Contents()[m]) <==> RecordReads(headers, arena, vals, metas[m])
      ensures Sound() ==> value == Some(Contents()[m])
    {
      LinkedInBounds(headers, metas, vals);
      ViewKeys(metas, vals);
      LinkedPlaced(headers, metas, vals, m);
      var at := metas[m];
      assert HasValue(metas, vals, m);
      ViewAt(metas, vals, m);
      var address := PAGE_SIZE * at.page + headers[at.page].offsets[at.headerKeyId];
      ReadsIff(arena, address, vals[at.page][at.headerKeyId]);
      value := ReadRecord(arena, address);
    }

    // A page without values in the next slot of the arena.
    method NewPage() returns (p: nat)
      requires Valid() && |headers| < allocatedPages
      modifies this`headers, this`vals
      ensures Valid() && Contents() == old(Contents())
      ensures p == |old(headers)| && headers == old(headers) + [NEW_HEADER] && vals == old(vals) + [[]]
      ensures headers[p] == Header(0, 0, [], [], DIRTY)
      ensures Sound() <==> old(Sound())
      ensures old(Neat()) ==> Neat()
    {
      hide PageOk, View, AllRead;
      p := |headers|;
      NewHeaderKeeps(headers, arena, metas, vals, 0, []);
      LinkedInBounds(headers, metas, vals);
      ViewNewPage(metas, vals);
      headers := headers + [NEW_HEADER];
      vals := vals + [[]];
      NewPageOk(Slot(arena, p));
      if old(Neat()) {
        forall q | 0 <= q < |headers| ensures PageOk(headers[q], Slots(arena, |headers|)[q], vals[q]) {
          assert q < p ==> Slots(arena, |headers|)[q] == Slots(arena, p)[q];
        }
      }
    }

    method ChoosePage(size: nat) returns (c: Choice)
      requires Valid()
      ensures c == Choose(headers, size)
      ensures c == DivisionByZero <==> MeetsEmptyPage(headers, size)
      ensures forall p: nat :: c == Existing(p) <==> FirstWithRoom(headers, p, size)
      ensures forall p: nat :: c == Preferred(p) <==> NoneWithRoom(headers, size) && LastWorthIt(headers, p, size)
      ensures c == Choice.Fresh <==> NoneWithRoom(headers, size) && NoneWorthIt(headers, 0, |headers|, size)
    {
      ChooseIff(headers, size);
      hide NoneWithRoom, NoneWorthIt, LastWorthIt, MeetsEmptyPage, FirstWithRoom, RoomFor, Preferable;
      var i: nat := 0;
      var preferred: Option<nat> := None;
      while i < |headers|
        invariant i <= |headers| && (preferred.Some? ==> preferred.value < i)
        invariant Choose(headers, size) == ChooseFrom(headers, i, size, preferred)
      {
        if RoomFor(headers[i], size) {
          return Existing(i);
        } else if |headers[i].offsets| == 0 {
          return DivisionByZero;
        } else if Preferable(headers[i], size) {
          preferred := Some(i);
        }
        i := i + 1;
      }
      c := if preferred.None? then Choice.Fresh else Preferred(preferred.value);
    }

    // Appends the value behind the values of page p, whether or not it ends in
    // the page: every record reads right afterwards exactly when each one did
    // and was spared by the write.
    method PutInto(p: nat, value: Str, m: nat)
      requires Valid() && p < |headers| && m !in metas
      requires PAGE_SIZE * p + headers[p].offsetBytes + |value| + 2 <= |arena|
      modifies this
      ensures Valid() && Contents() == old(Contents())[m := value]
      ensures headers == old(headers)[p := Pushed(old(headers)[p], m, |value|)]
      ensures Appended(old(headers)[p], headers[p], m, |value|)
      ensures metas == old(metas)[m := Meta(p, |old(headers)[p].owners|)]
      ensures arena == Written(old(arena), PAGE_SIZE * p + old(headers)[p].offsetBytes, value)
      ensures old(Sound()) ==>
        (Sound() <==> old(AllSpared(headers, arena, metas, vals, PAGE_SIZE * p + headers[p].offsetBytes, value)))
      ensures old(Neat()) ==> (Neat() <==> old(headers)[p].offsetBytes + |value| + 2 <= PAGE_SIZE)
    {
      hide Written, PagesOk, AllRead, AllSpared, Linked, View;
      var h := headers[p];
      var a := PAGE_SIZE * p + h.offsetBytes;
      assert EvenPage(h, vals[p]);
      LinkPushed(headers, metas, p, m, |value|);
      LinkedInBounds(headers, metas, vals);
      ViewPushed(metas, vals, p, m, value);
      if Sound() {
        PushReadsIff(headers, arena, metas, vals, p, m, value);
      }
      if Neat() {
        PushNeatIff(headers, arena, vals, p, m, value);
      }
      EvenPushed(headers, vals, p, value, m);
      headers := headers[p := Pushed(h, m, |value|)];
      metas := metas[m := Meta(p, |h.owners|)];
      arena := Written(arena, a, value);
      vals := vals[p := vals[p] + [value]];
    }

    // Stores a value under a new meta record, at the end of the page found,
    // whether or not it ends in that page.
    method Set(value: Str, m: nat) returns (outcome: SetOutcome)
      requires Valid() && m !in Contents()
      modifies this
      ensures Valid()
      ensures forall o :: outcome == o <==> Explains(old(headers), allocatedPages, |value|, o)
      ensures InBytes(old(headers), |value|, outcome)
      ensures outcome.Kept? ==> Contents() == old(Contents())[m := value]
      ensures outcome.Kept? ==> Changed(old(headers), old(arena), old(metas), outcome.page, value, m)
      ensures outcome.Kept? && old(Sound()) ==>
        (Sound() <==> AllSpared(old(headers), old(arena), old(metas), old(vals), Start(old(headers), outcome.page), value))
      ensures outcome.Kept? && old(Neat()) ==>
        (Neat() <==> OffsetAt(old(headers), outcome.page) + |value| + 2 <= PAGE_SIZE)
      ensures !outcome.Kept? ==> headers == old(headers) && arena == old(arena) && metas == old(metas) && vals == old(vals)
    {
      hide Written, PagesOk, AllRead, AllSpared, View, Linked, Even, Explains, InBytes;
      LinkedInBounds(headers, metas, vals);
      ViewKeys(metas, vals);
      OneOutcome(headers, allocatedPages, |value|);
      ExplainsInBytes(headers, allocatedPages, |value|, OutcomeFor(headers, allocatedPages, |value|));
      var choice := ChoosePage(|value|);
      match choice {
        case DivisionByZero =>
          outcome := DividedByZero;
        case Preferred(p) =>
          outcome := Prefers(p);
        case Fresh =>
          if |headers| == allocatedPages {
            return NoSlot;
          }
          if PAGE_SIZE * |headers| + |value| + 2 > |arena| {
            return OutsideArena;
          }
          NewHeaderKeeps(headers, arena, metas, vals, PAGE_SIZE * |headers|, value);
          var p := NewPage();
          PutInto(p, value, m);
          outcome := Kept(p);
        case Existing(p) =>
          if PAGE_SIZE * p + headers[p].offsetBytes + |value| + 2 > |arena| {
            return OutsideArena;
          }
          PutInto(p, value, m);
          outcome := Kept(p);
      }
    }

    // Page p has the value behind its others, and nothing else is different.
    ghost predicate Changed(headers0: seq<Header>, arena0: Data, metas0: map<nat, Meta>, p: nat, value: Str, m: nat)
      reads this
    {
      && Start(headers0, p) + |value| + 2 <= |arena0|
      && arena == Written(arena0, Start(headers0, p), value)
      && p <= |headers0|
      && headers == Opened(headers0, p)[p := Pushed(HeaderAt(headers0, p), m, |value|)]
      && Appended(HeaderAt(headers0, p), headers[p], m, |value|)
      && metas == metas0[m := Meta(p, |HeaderAt(headers0, p).owners|)]
    }

    // The keys behind the removed one move down by one in their meta records.
    method Recount(p: nat, from: nat)
      requires p < |headers| && from <= |headers[p].owners|
      requires forall i: nat :: from <= i < |headers[p].owners| ==> OneTooHigh(headers[p].owners, metas, p, i)
      modifies this`metas
      ensures metas == Recounted(old(metas), headers[p].owners[from..])
    {
      ghost var before, owners := metas, headers[p].owners;
      var keyId: nat := from;
      while keyId < |headers[p].owners|
        invariant from <= keyId <= |owners| && metas.Keys == before.Keys
        invariant forall x :: x in before ==>
          metas[x] == if x in owners[from..keyId] then Lowered(before[x]) else before[x]
      {
        var owner := headers[p].owners[keyId];
        assert OneTooHigh(owners, before, p, keyId);
        forall k | from <= k < keyId ensures owners[k] != owner {
          assert OneTooHigh(owners, before, p, k);
        }
        metas := metas[owner := Lowered(metas[owner])];
        assert owners[from..keyId + 1] == owners[from..keyId] + [owner];
        keyId := keyId + 1;
      }
      assert owners[from..keyId] == owners[from..];
    }

    // Takes the value of a meta record out of its page, which then holds a gap.
    // The size counted as fragmented is the one read.
    method Unset(m: nat) returns (value: Option<seq<Byte>>)
      requires Valid() && m in Contents()
      modifies this
      ensures Valid() && Contents() == old(Contents()) - {m}
      ensures value == Some(old(Contents())[m]) <==> old(RecordReads(headers, arena, vals, metas[m]))
      ensures old(Sound()) ==> Sound() && value == Some(old(Contents())[m])
      ensures old(Neat()) ==> Neat()
      ensures Placed(old(headers), old(vals), old(metas[m])) && arena == old(arena)
      ensures var at := old(metas[m]);
        headers == old(headers)[at.page :=
          Dropped(old(headers)[at.page], at.headerKeyId, old(SizeAt(Address(headers, metas[m]))))]
        && TakenOut(old(headers)[at.page], headers[at.page], at.headerKeyId, old(SizeAt(Address(headers, metas[m]))))
      ensures old(RecordReads(headers, arena, vals, metas[m])) ==>
        old(SizeAt(Address(headers, metas[m]))) == |old(Contents())[m]|
    {
      hide PagesOk, Recounted, View, RecordReads, AllRead, Holds, Even, Slots, CompactAt;
      LinkedInBounds(headers, metas, vals);
      ViewKeys(metas, vals);
      EvenHeads(headers, vals);
      LinkedPlaced(headers, metas, vals, m);
      assert LeadsTo(headers, metas, m) && HasValue(metas, vals, m);
      value := Get(m);
      var p, i := metas[m].page, metas[m].headerKeyId;
      var size := SizeAt(PAGE_SIZE * p + headers[p].offsets[i]);
      ViewAt(metas, vals, m);
      KeysTooHigh(headers, metas, m);
      LinkDropped(headers, metas, m, size);
      ViewRecounted(headers, metas, vals, m);
      EvenDropped(headers, vals, p, i, size);
      DropReads(headers, arena, metas, vals, m, size);
      if RecordReads(headers, arena, vals, metas[m]) {
        SizeIs(headers, arena, metas, vals, m);
      }
      if Neat() {
        NeatIsSound();
        DropNeat(headers, Slots(arena, |headers|), vals, p, i);
      }
      headers := headers[p := Dropped(headers[p], i, size)];
      vals := vals[p := Without(vals[p], i)];
      Recount(p, i);
      metas := metas - {m};
    }

    // The size read at an address; what lies behind the arena is not known.
    function SizeAt(address: nat): nat
      reads this`arena
    {
      if address + 2 <= |arena| then Read16(arena, address) else 0
    }

    // Compacts page p in its place. While every record reads right, it ends and
    // leaves them so exactly when the values of the page survive it and it hits
    // no other. A page in order ends up packed exactly when its gaps are safe.
    method Defragmentate(p: nat) returns (ok: bool)
      requires Valid() && p < |headers|
      modifies this`headers, this`arena
      ensures Valid() && Contents() == old(Contents())
      ensures ok <==> CompactAt(old(arena), p, old(headers)[p].offsets).Done?
      ensures ok ==> var r := CompactAt(old(arena), p, old(headers)[p].offsets);
        r.Done? && arena == r.data && headers == old(headers)[p := HeaderAfter(old(headers)[p], r)]
        && headers[p] == Header(r.end, 0, r.offs, old(headers)[p].owners, DIRTY)
      ensures !ok ==> headers == old(headers) && arena == old(arena)
      ensures old(Sound()) ==> (ok && Sound() <==> old(Bears(p)))
      ensures old(Neat()) ==> (SafeGaps(old(headers)[p].offsets, vals[p]) <==>
        ok && AllPacked(Done(arena, headers[p].offsets, headers[p].offsetBytes), vals[p]))
      ensures old(Neat()) && (SafeGaps(old(headers)[p].offsets, vals[p]) || Tame(old(headers)[p].offsets, vals[p], PAGE_SIZE)) ==>
        ok && Neat() && SlotAlone(old(arena), arena, |headers|, p)
      ensures Compact(Slot(old(arena), p), old(headers)[p].offsets).Done? ==>
        ok && InOwnSlot(old(arena), old(headers)[p], arena, headers[p], |headers|, p)
    {
      hide Swept, CompactAt, Compact, PageOk, View, Linked, SafeGaps, Survives, OthersKept, AllRead, AllPacked;
      var h, n := headers[p], |headers|;
      assert EvenPage(h, vals[p]);
      var r := CompactAt(arena, p, h.offsets);
      if Neat() {
        CompactNeat(headers, arena, vals, p);
      }
      if Sound() {
        StoreReadsIff(headers, arena, metas, vals, p);
      }
      if Compact(Slot(arena, p), h.offsets).Done? {
        CompactInSlot(arena, n, p, h.offsets);
      }
      if r.Fault? {
        return false;
      }
      LinkSameOwners(headers, headers[p := HeaderAfter(h, r)], metas);
      EvenAfter(headers, vals, p, r);
      headers := headers[p := HeaderAfter(h, r)];
      arena := r.data;
      ok := true;
    }

    // The values of page p survive a compaction, and no other record is hit.
    ghost predicate Bears(p: nat)
      requires Valid() && p < |headers|
      reads this
    {
      assert EvenPage(headers[p], vals[p]);
      Survives(headers[p].offsets, vals[p], |arena| - PAGE_SIZE * p, PAGE_SIZE) && OthersKept(headers, metas, vals, p)
    }
  }

  // A value that fills the first page is stored and removed: the page is left
  // full and without keys, and storing any other value divides by zero.
  method FullPageEmptied(pages: nat, v: Str, w: Str) returns (store: Store, outcome: SetOutcome)
    requires pages > 0 && |v| == PAGE_SIZE - 2 && w != []
    ensures fresh(store) && store.Valid() && store.Contents() == map[] && store.Sound() && store.Neat()
    ensures outcome == DividedByZero
  {
    hide PagesOk, AllRead, Written, Linked, Even, View, Slots, CompactAt, RecordReads, AllSpared;
    store := new Store(pages);
    assert Explains([], pages, |v|, Kept(0));
    var first := store.Set(v, 0);
    assert first == Kept(0);
    ghost var full := store.headers;
    assert full == [NEW_HEADER][0 := Pushed(NEW_HEADER, 0, |v|)];
    store.NeatIsSound();
    assert store.Contents() == map[0 := v];
    var value := store.Unset(0);
    assert map[0 := v] - {0} == map[];
    assert |store.headers| == 1 && store.headers[0].offsets == [] && store.headers[0].offsetBytes == PAGE_SIZE;
    assert NoRoomBefore(store.headers, 0 + 1, |w|);
    assert Explains(store.headers, pages, |w|, DividedByZero);
    outcome := store.Set(w, 0);
  }

  // ----- values that run across the end of their page -----

  // From pages in order, a value that the room check lets run across the end of
  // page p can only hit the first value of the next page.
  lemma OverhangSparesIff(headers: seq<Header>, arena: Data, metas: map<nat, Meta>, vals: seq<seq<Str>>, p: nat, v: Str)
    requires PAGE_SIZE * |headers| <= |arena| && Linked(headers, metas) && PagesOk(headers, Slots(arena, |headers|), vals)
    requires p < |headers| && RoomFor(headers[p], |v|) && PAGE_SIZE * p + headers[p].offsetBytes + |v| + 2 <= |arena|
    ensures var a := PAGE_SIZE * p + headers[p].offsetBytes;
      AllSpared(headers, arena, metas, vals, a, v) <==>
        p + 1 == |headers| || |vals[p + 1]| == 0 || RecordSpared(headers, arena, vals, Meta(p + 1, 0), a, v)
  {
    hide RecordReads, RecordSpared, PagesOk, Even, Linked, Slots, RoomFor;
    NeatReads(headers, arena, metas, vals);
    PagesEven(headers, Slots(arena, |headers|), vals);
    EvenSizes(headers, vals);
    var a, at := PAGE_SIZE * p + headers[p].offsetBytes, Meta(p + 1, 0);
    if p + 1 < |headers| && |vals[p + 1]| > 0 {
      OwnedFirst(headers, metas, vals, p + 1);
      if AllSpared(headers, arena, metas, vals, a, v) {
        assert RecordSpared(headers, arena, vals, metas[headers[p + 1].owners[0]], a, v);
      }
    }
    if p + 1 == |headers| || |vals[p + 1]| == 0 || RecordSpared(headers, arena, vals, at, a, v) {
      forall m | m in metas ensures RecordSpared(headers, arena, vals, metas[m], a, v) {
        LinkedPlaced(headers, metas, vals, m);
        assert RecordReads(headers, arena, vals, metas[m]);
        if metas[m] != at {
          OutOfReach(headers, arena, vals, p, metas[m], v);
        }
      }
    }
  }

  lemma EvenSizes(headers: seq<Header>, vals: seq<seq<Str>>)
    requires Even(headers, vals)
    ensures |headers| == |vals|
  {
  }

  lemma OwnedFirst(headers: seq<Header>, metas: map<nat, Meta>, vals: seq<seq<Str>>, p: nat)
    requires Even(headers, vals) && Linked(headers, metas) && p < |headers| && |vals[p]| > 0
    ensures |headers[p].owners| > 0 && headers[p].owners[0] in metas && metas[headers[p].owners[0]] == Meta(p, 0)
  {
    assert EvenPage(headers[p], vals[p]) && OwnedBack(headers, metas, p, 0);
  }

  lemma CellBound(headers: seq<Header>, slots: seq<Data>, vals: seq<seq<Str>>, p: nat, i: nat)
    requires PagesOk(headers, slots, vals) && p < |headers| && i < |vals[p]|
    ensures |headers[p].offsets| == |vals[p]|
    ensures headers[p].offsets[i] + |vals[p][i]| + 2 <= headers[p].offsetBytes <= PAGE_SIZE
    ensures i > 0 ==> headers[p].offsets[i] >= 2
  {
    assert PageOk(headers[p], slots[p], vals[p]);
    hide Holds;
    BelowEnd(slots[p], headers[p].offsets, vals[p], i);
    if i > 0 {
      StoredApart(slots[p], headers[p].offsets, vals[p], 0, i);
    }
  }

  lemma EndBound(headers: seq<Header>, slots: seq<Data>, vals: seq<seq<Str>>, p: nat)
    requires PagesOk(headers, slots, vals) && p < |headers|
    ensures headers[p].offsetBytes <= PAGE_SIZE
  {
    assert PageOk(headers[p], slots[p], vals[p]);
  }

  lemma OutOfReach(headers: seq<Header>, arena: Data, vals: seq<seq<Str>>, p: nat, at: Meta, v: Str)
    requires PAGE_SIZE * |headers| <= |arena| && PagesOk(headers, Slots(arena, |headers|), vals)
    requires p < |headers| && RoomFor(headers[p], |v|) && PAGE_SIZE * p + headers[p].offsetBytes + |v| + 2 <= |arena|
    requires RecordReads(headers, arena, vals, at) && at != Meta(p + 1, 0)
    ensures RecordSpared(headers, arena, vals, at, PAGE_SIZE * p + headers[p].offsetBytes, v)
  {
    hide PagesOk, Slots, RecordReads, RecordSpared, RoomFor;
    var q, i := at.page, at.headerKeyId;
    ReadsInside(headers, arena, vals, at);
    EndBound(headers, Slots(arena, |headers|), vals, p);
    CellBound(headers, Slots(arena, |headers|), vals, q, i);
    RoomIs(headers[p], |v|);
    NoOverlap(p, headers[p].offsetBytes, |v|, q, headers[q].offsets[i], |vals[q][i]|);
    ApartSpared(headers, arena, vals, at, PAGE_SIZE * p + headers[p].offsetBytes, v);
  }

  lemma NoOverlap(p: nat, from: nat, size: nat, q: nat, at: nat, length: nat)
    requires from + size <= PAGE_SIZE && at + length + 2 <= PAGE_SIZE
    requires (q == p ==> at + length + 2 <= from) && (q == p + 1 ==> at >= 2)
    ensures var a, b := PAGE_SIZE * p + from, PAGE_SIZE * q + at;
      b + length + 2 <= a || a + size + 2 <= b
  {
  }

  lemma RoomIs(h: Header, size: nat)
    requires h.offsetBytes <= PAGE_SIZE && RoomFor(h, size)
    ensures h.offsetBytes + size <= PAGE_SIZE
  {
  }

  lemma ReadsInside(headers: seq<Header>, arena: Data, vals: seq<seq<Str>>, at: Meta)
    requires RecordReads(headers, arena, vals, at)
    ensures Placed(headers, vals, at)
  {
  }

  lemma ApartSpared(headers: seq<Header>, arena: Data, vals: seq<seq<Str>>, at: Meta, a: nat, v: Str)
    requires RecordReads(headers, arena, vals, at) && a + |v| + 2 <= |arena|
    requires var b, n := Address(headers, at), |vals[at.page][at.headerKeyId]| + 2; b + n <= a || a + |v| + 2 <= b
    ensures RecordSpared(headers, arena, vals, at, a, v)
  {
    hide Cell;
  }

  // A record that ends one byte behind its page loses its last byte to the next
  // value written at the next page's start, unless the value's size has that
  // byte in its low one.
  lemma TailKeptIff(arena: Data, p: nat, at: nat, v: Str, w: Str)
    requires v != [] && Holds(arena, at, v) && at + |v| + 2 == PAGE_SIZE * p + 1
    requires PAGE_SIZE * p + |w| + 2 <= |arena|
    ensures Holds(Written(arena, PAGE_SIZE * p, w), at, v) <==> v[|v| - 1] == |w| % 256
  {
    hide Written;
    SurvivesIff(arena, at, v, PAGE_SIZE * p, w);
    var k := PAGE_SIZE * p;
    assert arena[at..at + 2 + |v|][|v| + 1] == arena[k];
    assert Cell(v)[|v| + 1] == v[|v| - 1];
    assert Cell(w)[0] == |w| % 256;
  }

  // A record that ends one byte behind its page, over a page without values:
  // compacting that page clears the byte, which the record survives only if it
  // was zero.
  lemma TailClearedIff(p: nat, at: nat, v: Str)
    requires v != [] && at + |v| + 2 == PAGE_SIZE * p + 1
    ensures KeptBy(p, [], [], at, v) <==> v[|v| - 1] == 0
  {
    hide Cell, Final;
    NothingMoved(0);
    var last := |v| + 1;
    assert Cell(v)[last] == v[|v| - 1] by {
      LastOfCell(v);
    }
    forall k: nat | k < |v| + 2
      ensures Over(Put(p, [], [], at + k), Cell(v)[k]) == if k == last then 0 else Cell(v)[k]
    {
    }
  }

  lemma LastOfCell(v: Str)
    requires v != []
    ensures Cell(v)[|v| + 1] == v[|v| - 1]
  {
  }

  lemma NothingMoved(x: nat)
    requires x < PAGE_SIZE
    ensures Final([], [], PAGE_SIZE, x) == Some(0)
  {
  }

  // Two pages. The first ends with two bytes free, so a value of two bytes is
  // let in; its bytes become the size of the value that begins the second page.
  lemma NeighbourIsHit(first: Str)
    requires |first| == 4092
    ensures var arena := Cell(first) + [0, 0] + Cell([9]) + Zeros(4093);
      var headers := [Header(4094, 0, [0], [0], DIRTY), Header(3, 0, [0], [1], DIRTY)];
      var metas := map[0 := Meta(0, 0), 1 := Meta(1, 0)];
      var vals: seq<seq<Str>> := [[first], [[9]]];
      |arena| == 2 * PAGE_SIZE && AllRead(headers, arena, metas, vals)
      && Explains(headers, 2, 2, Kept(0)) && Start(headers, 0) == 4094
      && !RecordReads(headers, Written(arena, 4094, [7, 7]), vals, metas[1])
  {
    hide Zeros;
    var nine: Str := [9];
    var arena := Cell(first) + [0, 0] + Cell(nine) + Zeros(4093);
    var headers := [Header(4094, 0, [0], [0], DIRTY), Header(3, 0, [0], [1], DIRTY)];
    var metas := map[0 := Meta(0, 0), 1 := Meta(1, 0)];
    var vals: seq<seq<Str>> := [[first], [nine]];
    assert arena[0..4094] == Cell(first);
    assert arena[4096..4099] == Cell(nine);
    assert Holds(arena, 4096, nine);
    assert RecordReads(headers, arena, vals, metas[0]) && RecordReads(headers, arena, vals, metas[1]);
    SurvivesIff(arena, 4096, nine, 4094, [7, 7]);
    assert arena[4096] == arena[4096..4099][0] == 1;
    assert Cell([7, 7])[2] == 7;
  }

  lemma EvenHeads(headers: seq<Header>, vals: seq<seq<Str>>)
    requires Even(headers, vals)
    ensures EvenHeaders(headers)
  {
    forall q | 0 <= q < |headers| ensures |headers[q].owners| == |headers[q].offsets| {
      assert EvenPage(headers[q], vals[q]);
    }
  }

  lemma EvenPushed(headers: seq<Header>, vals: seq<seq<Str>>, p: nat, v: Str, m: nat)
    requires Even(headers, vals) && p < |headers|
    ensures Even(headers[p := Pushed(headers[p], m, |v|)], vals[p := vals[p] + [v]])
  {
    var headers', vals' := headers[p := Pushed(headers[p], m, |v|)], vals[p := vals[p] + [v]];
    forall q | 0 <= q < |headers'| ensures EvenPage(headers'[q], vals'[q]) {
      assert EvenPage(headers[q], vals[q]);
    }
  }

  lemma EvenDropped(headers: seq<Header>, vals: seq<seq<Str>>, p: nat, i: nat, size: nat)
    requires Even(headers, vals) && p < |headers| && i < |headers[p].offsets| == |headers[p].owners| == |vals[p]|
    ensures Even(headers[p := Dropped(headers[p], i, size)], vals[p := Without(vals[p], i)])
  {
    var headers', vals' := headers[p := Dropped(headers[p], i, size)], vals[p := Without(vals[p], i)];
    forall q | 0 <= q < |headers'| ensures EvenPage(headers'[q], vals'[q]) {
      assert EvenPage(headers[q], vals[q]);
    }
  }

  lemma EvenCompacted(headers: seq<Header>, vals: seq<seq<Str>>, p: nat, h: Header)
    requires Even(headers, vals) && p < |headers| && EvenPage(h, vals[p])
    ensures Even(headers[p := h], vals)
  {
    forall q | 0 <= q < |headers| ensures EvenPage(headers[p := h][q], vals[q]) {
      assert EvenPage(headers[q], vals[q]);
    }
  }

  // What the removal of a value does to the reading of the others: nothing.
  lemma DropReads(headers: seq<Header>, arena: Data, metas: map<nat, Meta>, vals: seq<seq<Str>>, m: nat, size: nat)
    requires Even(headers, vals) && Linked(headers, metas) && m in metas && Placed(headers, vals, metas[m])
    requires LeadsTo(headers, metas, m) && EvenHeaders(headers)
    ensures var p, i := metas[m].page, metas[m].headerKeyId;
      var h := Dropped(headers[p], i, size);
      AllRead(headers, arena, metas, vals) ==>
        AllRead(headers[p := h], arena, Recounted(metas, h.owners[i..]) - {m}, vals[p := Without(vals[p], i)])
  {
    hide Holds;
    var p, i := metas[m].page, metas[m].headerKeyId;
    var h := Dropped(headers[p], i, size);
    var headers', vals' := headers[p := h], vals[p := Without(vals[p], i)];
    var metas' := Recounted(metas, h.owners[i..]) - {m};
    if AllRead(headers, arena, metas, vals) {
      forall x | x in metas' ensures RecordReads(headers', arena, vals', metas'[x]) {
        KeyMoved(headers, metas, m, x);
        LinkedPlaced(headers, metas, vals, x);
        assert RecordReads(headers, arena, vals, metas[x]);
        assert metas'[x] == if Behind(metas[x], metas[m]) then Lowered(metas[x]) else metas[x];
      }
    }
  }

  lemma DropNeat(headers: seq<Header>, slots: seq<Data>, vals: seq<seq<Str>>, p: nat, i: nat)
    requires PagesOk(headers, slots, vals) && p < |headers|
    requires i < |headers[p].offsets| == |headers[p].owners| == |vals[p]|
    ensures PagesOk(headers[p := Dropped(headers[p], i, |vals[p][i]|)], slots, vals[p := Without(vals[p], i)])
  {
    hide PageOk;
    assert PageOk(headers[p], slots[p], vals[p]);
    DropOk(headers[p], slots[p], vals[p], i);
  }

  lemma SizeIs(headers: seq<Header>, arena: Data, metas: map<nat, Meta>, vals: seq<seq<Str>>, m: nat)
    requires m in metas && RecordReads(headers, arena, vals, metas[m])
    ensures var at := metas[m]; var a := PAGE_SIZE * at.page + headers[at.page].offsets[at.headerKeyId];
      a + 2 <= |arena| && Read16(arena, a) == |vals[at.page][at.headerKeyId]|
  {
    var at := metas[m];
    ReadStored(arena, Address(headers, at), vals[at.page][at.headerKeyId]);
  }

  // No slot but page p's is different.
  ghost predicate SlotAlone(was: Data, arena: Data, n: nat, p: nat)
    requires PAGE_SIZE * n <= |was| && PAGE_SIZE * n <= |arena|
  {
    forall q :: 0 <= q < n && q != p ==> Slots(arena, n)[q] == Slots(was, n)[q]
  }

  // The slot is compacted as a page of its own.
  ghost predicate InOwnSlot(was: Data, h: Header, arena: Data, h': Header, n: nat, p: nat)
    requires PAGE_SIZE * n <= |was| && PAGE_SIZE * n <= |arena| && p < n
  {
    var r := Compact(Slot(was, p), h.offsets);
    r.Done? && |r.data| == PAGE_SIZE && h' == HeaderAfter(h, r) && Slots(arena, n) == Slots(was, n)[p := r.data]
  }

  lemma CompactNeat(headers: seq<Header>, arena: Data, vals: seq<seq<Str>>, p: nat)
    requires PAGE_SIZE * |headers| <= |arena| && p < |headers| && PagesOk(headers, Slots(arena, |headers|), vals)
    ensures var r := CompactAt(arena, p, headers[p].offsets);
      SafeGaps(headers[p].offsets, vals[p]) <==> r.Done? && |r.offs| == |vals[p]| && AllPacked(r, vals[p])
    ensures SafeGaps(headers[p].offsets, vals[p]) || Tame(headers[p].offsets, vals[p], PAGE_SIZE) ==>
      var r := CompactAt(arena, p, headers[p].offsets);
      r.Done? && SlotAlone(arena, r.data, |headers|, p)
      && PagesOk(headers[p := HeaderAfter(headers[p], r)], Slots(r.data, |headers|), vals)
  {
    hide CompactAt, Compact, Cell, PackedAt, SafeGaps, AllPacked, Tame;
    var h, n := headers[p], |headers|;
    assert PageOk(h, Slots(arena, n)[p], vals[p]);
    CompactAtPacksIff(arena, p, h.offsets, vals[p]);
    if SafeGaps(h.offsets, vals[p]) {
      SafeTame(h, Slot(arena, p), vals[p]);
    }
    if Tame(h.offsets, vals[p], PAGE_SIZE) {
      TameOk(h, Slot(arena, p), vals[p]);
      CompactInSlot(arena, n, p, h.offsets);
    }
  }

  // ----- what is read after a compaction -----

  function HeaderAfter(h: Header, r: Outcome): Header
    requires r.Done?
  {
    h.(offsets := r.offs, offsetBytes := r.end, fragmentatedBytes := 0, state := DIRTY)
  }

  // No record of another page is hit: not one that hangs over into the page, nor
  // one behind it.
  ghost predicate OthersKept(headers: seq<Header>, metas: map<nat, Meta>, vals: seq<seq<Str>>, p: nat)
    requires p < |headers| == |vals| && |headers[p].offsets| == |vals[p]|
  {
    forall m :: m in metas && metas[m].page != p ==> OtherKept(headers, vals, p, metas[m])
  }

  ghost predicate OtherKept(headers: seq<Header>, vals: seq<seq<Str>>, p: nat, at: Meta)
    requires p < |headers| == |vals| && |headers[p].offsets| == |vals[p]|
  {
    Placed(headers, vals, at)
    && KeptBy(p, headers[p].offsets, vals[p], Address(headers, at), vals[at.page][at.headerKeyId])
  }

  ghost predicate OwnRead(headers: seq<Header>, arena: Data, vals: seq<seq<Str>>, p: nat)
    requires p < |vals|
  {
    forall i: nat :: i < |vals[p]| ==> RecordReads(headers, arena, vals, Meta(p, i))
  }

  ghost predicate OthersRead(headers: seq<Header>, arena: Data, metas: map<nat, Meta>, vals: seq<seq<Str>>, p: nat) {
    forall m :: m in metas && metas[m].page != p ==> RecordReads(headers, arena, vals, metas[m])
  }

  lemma ReadSplit(headers: seq<Header>, arena: Data, metas: map<nat, Meta>, vals: seq<seq<Str>>, p: nat)
    requires Even(headers, vals) && Linked(headers, metas) && p < |headers|
    ensures |vals| == |headers|
    ensures AllRead(headers, arena, metas, vals)
      <==> OwnRead(headers, arena, vals, p) && OthersRead(headers, arena, metas, vals, p)
  {
    hide RecordReads;
    assert EvenPage(headers[p], vals[p]);
    if AllRead(headers, arena, metas, vals) {
      forall i: nat | i < |vals[p]| ensures RecordReads(headers, arena, vals, Meta(p, i)) {
        assert OwnedBack(headers, metas, p, i);
      }
    }
    if OwnRead(headers, arena, vals, p) && OthersRead(headers, arena, metas, vals, p) {
      forall m | m in metas ensures RecordReads(headers, arena, vals, metas[m]) {
        assert LeadsTo(headers, metas, m);
        assert metas[m].page == p ==> metas[m] == Meta(p, metas[m].headerKeyId);
      }
    }
  }

  lemma OwnIsHeld(headers: seq<Header>, arena: Data, vals: seq<seq<Str>>, p: nat)
    requires Even(headers, vals) && p < |headers| && PAGE_SIZE * p <= |arena|
    ensures |vals| == |headers| && |headers[p].offsets| == |vals[p]|
    ensures OwnRead(headers, arena, vals, p) <==> AllHeld(arena[PAGE_SIZE * p..], headers[p].offsets, vals[p])
  {
    hide Holds;
    assert EvenPage(headers[p], vals[p]);
    forall i: nat | i < |vals[p]|
      ensures RecordReads(headers, arena, vals, Meta(p, i))
        <==> Holds(arena[PAGE_SIZE * p..], headers[p].offsets[i], vals[p][i])
    {
      HoldsFrom(arena, PAGE_SIZE * p, headers[p].offsets[i], vals[p][i]);
    }
  }

  // From records that all read right, a compaction ends and leaves them so
  // exactly when the page's own values survive it and no other is hit.
  lemma StoreReadsIff(headers: seq<Header>, arena: Data, metas: map<nat, Meta>, vals: seq<seq<Str>>, p: nat)
    requires Even(headers, vals) && Linked(headers, metas) && AllRead(headers, arena, metas, vals)
    requires PAGE_SIZE * |headers| <= |arena| && p < |headers|
    ensures |vals| == |headers| && |headers[p].offsets| == |vals[p]|
    ensures var r := CompactAt(arena, p, headers[p].offsets);
      r.Done? && AllRead(headers[p := HeaderAfter(headers[p], r)], r.data, metas, vals) <==>
        Survives(headers[p].offsets, vals[p], |arena| - PAGE_SIZE * p, PAGE_SIZE) && OthersKept(headers, metas, vals, p)
  {
    hide Swept, Survives, OthersKept, AllHeld, AllRead, Linked, Even, OwnRead, OthersRead;
    var base, offs := PAGE_SIZE * p, headers[p].offsets;
    ReadSplit(headers, arena, metas, vals, p);
    OwnIsHeld(headers, arena, vals, p);
    SweptReadsIff(arena[base..], offs, vals[p], PAGE_SIZE);
    var r := CompactAt(arena, p, offs);
    if r.Done? {
      var headers' := headers[p := HeaderAfter(headers[p], r)];
      LinkSameOwners(headers, headers', metas);
      EvenAfter(headers, vals, p, r);
      ReadSplit(headers', r.data, metas, vals, p);
      OwnIsHeld(headers', r.data, vals, p);
      assert r.data[base..] == Swept(arena[base..], offs, PAGE_SIZE).data;
      if Survives(offs, vals[p], |arena| - base, PAGE_SIZE) {
        OthersIff(headers, arena, metas, vals, p);
      }
    }
  }

  lemma EvenAfter(headers: seq<Header>, vals: seq<seq<Str>>, p: nat, r: Outcome)
    requires Even(headers, vals) && p < |headers| && r.Done? && |r.offs| == |headers[p].offsets|
    ensures Even(headers[p := HeaderAfter(headers[p], r)], vals)
  {
    assert EvenPage(headers[p], vals[p]);
    EvenCompacted(headers, vals, p, HeaderAfter(headers[p], r));
  }

  lemma OthersIff(headers: seq<Header>, arena: Data, metas: map<nat, Meta>, vals: seq<seq<Str>>, p: nat)
    requires Even(headers, vals) && Linked(headers, metas) && p < |headers| && PAGE_SIZE * |headers| <= |arena|
    requires OthersRead(headers, arena, metas, vals, p) && AllHeld(arena[PAGE_SIZE * p..], headers[p].offsets, vals[p])
    requires Survives(headers[p].offsets, vals[p], |arena| - PAGE_SIZE * p, PAGE_SIZE)
    requires CompactAt(arena, p, headers[p].offsets).Done?
    ensures var r := CompactAt(arena, p, headers[p].offsets);
      OthersRead(headers[p := HeaderAfter(headers[p], r)], r.data, metas, vals, p) <==> OthersKept(headers, metas, vals, p)
  {
    assert EvenPage(headers[p], vals[p]);
    hide CompactAt, AllHeld, AllMove, Legible, Holds, KeptBy, Linked, Even;
    var r := CompactAt(arena, p, headers[p].offsets);
    var headers' := headers[p := HeaderAfter(headers[p], r)];
    forall m | m in metas && metas[m].page != p
      ensures RecordReads(headers', r.data, vals, metas[m]) <==> OtherKept(headers, vals, p, metas[m])
    {
      LinkedPlaced(headers, metas, vals, m);
      var at := metas[m];
      assert RecordReads(headers, arena, vals, at);
      KeptIff(arena, p, headers[p].offsets, vals[p], Address(headers, at), vals[at.page][at.headerKeyId]);
    }
  }

  predicate OneTooHigh(owners: seq<nat>, metas: map<nat, Meta>, p: nat, i: nat)
    requires i < |owners|
  {
    owners[i] in metas && metas[owners[i]] == Meta(p, i + 1)
  }

  function Recounted(metas: map<nat, Meta>, moved: seq<nat>): map<nat, Meta> {
    map x | x in metas :: if x in moved then Lowered(metas[x]) else metas[x]
  }

  function Lowered(at: Meta): Meta {
    if at.headerKeyId > 0 then at.(headerKeyId := at.headerKeyId - 1) else at
  }

  lemma SameLength(h: Header, data: Data, vs: seq<Str>)
    requires PageOk(h, data, vs)
    ensures |h.offsets| == |h.owners| == |vs| && |data| == PAGE_SIZE
  {
  }

  lemma LinkPushed(headers: seq<Header>, metas: map<nat, Meta>, p: nat, m: nat, size: nat)
    requires Linked(headers, metas) && p < |headers| && m !in metas
    ensures Linked(headers[p := Pushed(headers[p], m, size)], metas[m := Meta(p, |headers[p].owners|)])
  {
    var headers', metas' := headers[p := Pushed(headers[p], m, size)], metas[m := Meta(p, |headers[p].owners|)];
    forall x | x in metas' ensures LeadsTo(headers', metas', x) {
      if x != m {
        assert LeadsTo(headers, metas, x);
      }
    }
    forall q: nat, i: nat | q < |headers'| && i < |headers'[q].owners|
      ensures OwnedBack(headers', metas', q, i)
    {
      if !(q == p && i == |headers[p].owners|) {
        assert OwnedBack(headers, metas, q, i);
      }
    }
  }

  lemma LinkSameOwners(headers: seq<Header>, headers': seq<Header>, metas: map<nat, Meta>)
    requires Linked(headers, metas) && |headers'| == |headers|
    requires forall q :: 0 <= q < |headers| ==> headers'[q].owners == headers[q].owners
    ensures Linked(headers', metas)
  {
    forall x | x in metas ensures LeadsTo(headers', metas, x) {
      assert LeadsTo(headers, metas, x);
    }
    forall q: nat, i: nat | q < |headers'| && i < |headers'[q].owners|
      ensures OwnedBack(headers', metas, q, i)
    {
      assert OwnedBack(headers, metas, q, i);
    }
  }

  ghost predicate EvenHeaders(headers: seq<Header>) {
    forall q :: 0 <= q < |headers| ==> |headers[q].owners| == |headers[q].offsets|
  }

  // The keys moved by a removal are those behind the one that m leads to.
  lemma KeyMoved(headers: seq<Header>, metas: map<nat, Meta>, m: nat, x: nat)
    requires Linked(headers, metas) && m in metas && LeadsTo(headers, metas, m) && x in metas
    ensures x in Without(headers[metas[m].page].owners, metas[m].headerKeyId)[metas[m].headerKeyId..]
      <==> Behind(metas[x], metas[m])
    ensures x != m ==> metas[x] != metas[m]
  {
    var p, i := metas[m].page, metas[m].headerKeyId;
    var owners := headers[p].owners;
    var moved := Without(owners, i)[i..];
    assert moved == owners[i + 1..];
    assert LeadsTo(headers, metas, x);
    if x in moved {
      var k :| 0 <= k < |moved| && moved[k] == x;
      assert OwnedBack(headers, metas, p, i + 1 + k);
    }
    if Behind(metas[x], metas[m]) {
      assert moved[metas[x].headerKeyId - i - 1] == x;
    }
  }

  lemma KeysTooHigh(headers: seq<Header>, metas: map<nat, Meta>, m: nat)
    requires Linked(headers, metas) && m in metas && LeadsTo(headers, metas, m)
    ensures var owners := Without(headers[metas[m].page].owners, metas[m].headerKeyId);
      forall j: nat :: metas[m].headerKeyId <= j < |owners| ==> OneTooHigh(owners, metas, metas[m].page, j)
  {
    var p, i := metas[m].page, metas[m].headerKeyId;
    var owners := Without(headers[p].owners, i);
    forall j: nat | i <= j < |owners| ensures OneTooHigh(owners, metas, p, j) {
      assert OwnedBack(headers, metas, p, j + 1);
    }
  }

  // After a removal and the recount, every remaining key is found again.
  lemma LinkDropped(headers: seq<Header>, metas: map<nat, Meta>, m: nat, size: nat)
    requires EvenHeaders(headers) && Linked(headers, metas) && m in metas && LeadsTo(headers, metas, m)
    ensures var h := Dropped(headers[metas[m].page], metas[m].headerKeyId, size);
      Linked(headers[metas[m].page := h], Recounted(metas, h.owners[metas[m].headerKeyId..]) - {m})
  {
    var p, i := metas[m].page, metas[m].headerKeyId;
    var h := Dropped(headers[p], i, size);
    var headers', metas' := headers[p := h], Recounted(metas, h.owners[i..]) - {m};
    forall x | x in metas' ensures LeadsTo(headers', metas', x) {
      KeyMoved(headers, metas, m, x);
      assert LeadsTo(headers, metas, x);
    }
    forall q: nat, j: nat | q < |headers'| && j < |headers'[q].owners|
      ensures OwnedBack(headers', metas', q, j)
    {
      var k := if q == p && j >= i then j + 1 else j;
      assert OwnedBack(headers, metas, q, k);
      KeyMoved(headers, metas, m, headers[q].owners[k]);
    }
  }

  lemma ViewRecounted(headers: seq<Header>, metas: map<nat, Meta>, vals: seq<seq<Str>>, m: nat)
    requires InBounds(metas, vals) && Linked(headers, metas) && m in metas
    requires LeadsTo(headers, metas, m) && HasValue(metas, vals, m)
    ensures var p, i := metas[m].page, metas[m].headerKeyId;
      var metas' := Recounted(metas, Without(headers[p].owners, i)[i..]) - {m};
      InBounds(metas', vals[p := Without(vals[p], i)])
      && View(metas', vals[p := Without(vals[p], i)]) == View(metas, vals) - {m}
  {
    hide View, InBounds;
    var p, i := metas[m].page, metas[m].headerKeyId;
    var metas' := Recounted(metas, Without(headers[p].owners, i)[i..]) - {m};
    forall x | x in metas'
      ensures metas[x] != metas[m]
      ensures metas'[x] == if Behind(metas[x], metas[m]) then Lowered(metas[x]) else metas[x]
    {
      KeyMoved(headers, metas, m, x);
    }
    ViewDropped(metas, vals, m, metas');
  }
}
