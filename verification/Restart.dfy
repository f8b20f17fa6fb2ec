/** Snapshot and restart together: the value file of whole pages, which pages a
    snapshot writes, and what a restart finds. */
module Restart {
  import opened Arena
  import opened Bytes
  import opened Compacted
  import opened Compaction
  import opened Options
  import opened Pages
  import opened PageStore
  import S = Snapshot

  // ----- the value file -----

  ghost predicate Whole(pages: seq<Data>) {
    forall i :: 0 <= i < |pages| ==> |pages[i]| == PAGE_SIZE
  }

  function Flat(pages: seq<Data>): seq<Byte> {
    if pages == [] then [] else Flat(pages[..|pages| - 1]) + pages[|pages| - 1]
  }

  lemma {:induction false} FlatLength(pages: seq<Data>)
    requires Whole(pages)
    ensures |Flat(pages)| == PAGE_SIZE * |pages|
  {
    if pages != [] {
      FlatLength(pages[..|pages| - 1]);
    }
  }

  lemma {:induction false} FlatAt(pages: seq<Data>, i: nat)
    requires Whole(pages) && i < |pages|
    ensures |Flat(pages)| == PAGE_SIZE * |pages|
    ensures Flat(pages)[PAGE_SIZE * i..PAGE_SIZE * i + PAGE_SIZE] == pages[i]
  {
    FlatLength(pages);
    var front := pages[..|pages| - 1];
    FlatLength(front);
    if i < |pages| - 1 {
      FlatAt(front, i);
      assert Flat(pages)[PAGE_SIZE * i..PAGE_SIZE * i + PAGE_SIZE] == Flat(front)[PAGE_SIZE * i..PAGE_SIZE * i + PAGE_SIZE];
    }
  }

  lemma {:induction false} FlatSet(pages: seq<Data>, i: nat, data: Data)
    requires Whole(pages) && i < |pages| && |data| == PAGE_SIZE
    ensures |Flat(pages)| == PAGE_SIZE * |pages|
    ensures Flat(pages[i := data]) == Flat(pages)[..PAGE_SIZE * i] + data + Flat(pages)[PAGE_SIZE * (i + 1)..]
  {
    FlatLength(pages);
    var n := |pages| - 1;
    var front := pages[..n];
    FlatLength(front);
    if i < n {
      FlatSet(front, i, data);
      assert pages[i := data][..n] == front[i := data];
      assert Flat(pages) == Flat(front) + pages[n];
      assert Flat(pages)[..PAGE_SIZE * i] == Flat(front)[..PAGE_SIZE * i];
      assert Flat(pages)[PAGE_SIZE * (i + 1)..] == Flat(front)[PAGE_SIZE * (i + 1)..] + pages[n];
    } else {
      assert pages[i := data][..n] == front;
      assert Flat(pages)[..PAGE_SIZE * i] == Flat(front);
      assert Flat(pages)[PAGE_SIZE * (i + 1)..] == [];
    }
  }

  function FileWith(pages: seq<Data>, p: nat, data: Data): seq<Data> {
    if p < |pages| then pages[p := data] else pages + [data]
  }

  class ValueFile {
    const vfd: File
    ghost var pages: seq<Data>

    // Eight bytes for an LSN, then the pages.
    ghost predicate Valid()
      reads this, vfd
    {
      && Whole(pages)
      && (if pages == [] then |vfd.bytes| <= 8 else |vfd.bytes| >= 8 && vfd.bytes[8..] == Flat(pages))
    }

    constructor ()
      ensures Valid() && pages == [] && fresh(vfd)
    {
      vfd := new File([]);
      pages := [];
    }

    // disk_dump_page, for a page of the file or the one behind its last.
    method DumpPage(p: nat, data: Data)
      requires Valid() && p <= |pages| && |data| == PAGE_SIZE
      modifies this, vfd
      ensures Valid() && pages == FileWith(old(pages), p, data)
    {
      hide Flat, Zeros, Whole;
      vfd.SeekSet(8 + p * PAGE_SIZE);
      WholeLength(pages);
      ghost var before := vfd.bytes;
      vfd.Write(data);
      if p < |pages| {
        FlatSet(pages, p, data);
        assert vfd.bytes[8..] == before[8..][..PAGE_SIZE * p] + data + before[8..][PAGE_SIZE * (p + 1)..];
      } else {
        FlatAppend(pages, data);
        if pages == [] {
          assert vfd.bytes[8..] == data;
        } else {
          assert vfd.bytes[8..] == before[8..] + data;
        }
      }
      WholeMore(pages, p, data);
      pages := FileWith(pages, p, data);
    }

    // disk_upload_page
    method UploadPage(p: nat) returns (data: Data)
      requires Valid() && p < |pages|
      modifies vfd`pos
      ensures data == pages[p]
    {
      hide Flat;
      FlatAt(pages, p);
      vfd.SeekSet(8 + p * PAGE_SIZE);
      data := vfd.Read(PAGE_SIZE);
      assert data == vfd.bytes[8..][PAGE_SIZE * p..PAGE_SIZE * p + PAGE_SIZE];
    }

    // destroy_disk: the LSN goes in front.
    method Close(lsn: nat)
      requires Valid()
      modifies vfd
      ensures Valid() && |vfd.bytes| >= 8 && vfd.bytes[..8] == Le(lsn, 8)
    {
      hide Flat;
      vfd.SeekSet(0);
      vfd.Write(Le(lsn, 8));
      assert vfd.bytes[..8] == Le(lsn, 8);
    }

    // init_disk: how many pages there are to load.
    method PageCount() returns (n: nat)
      requires Valid()
      ensures n == |pages|
    {
      FlatLength(pages);
      n := if |vfd.bytes| < 8 then 0 else (|vfd.bytes| - 8) / PAGE_SIZE;
      ByPageSize(|vfd.bytes|, |pages|);
    }
  }

  lemma ByPageSize(length: nat, n: nat)
    ensures length == 8 + PAGE_SIZE * n ==> (length - 8) / PAGE_SIZE == n
  {
  }

  lemma WholeLength(pages: seq<Data>)
    requires Whole(pages)
    ensures |Flat(pages)| == PAGE_SIZE * |pages|
  {
    FlatLength(pages);
  }

  lemma WholeMore(pages: seq<Data>, p: nat, data: Data)
    requires Whole(pages) && p <= |pages| && |data| == PAGE_SIZE
    ensures Whole(FileWith(pages, p, data))
  {
  }

  lemma FlatAppend(pages: seq<Data>, data: Data)
    ensures Flat(pages + [data]) == Flat(pages) + data && (pages == [] ==> Flat(pages + [data]) == data)
  {
    assert (pages + [data])[..|pages|] == pages;
  }

  // ----- which pages a snapshot has to write -----

  // Every clean page lies in the value file as it is in memory.
  ghost predicate InStep(headers: seq<Header>, arena: seq<Data>, pages: seq<Data>) {
    && |pages| <= |headers| == |arena|
    && forall p :: 0 <= p < |headers| ==> PageInStep(headers[p], arena[p], pages, p)
  }

  ghost predicate PageInStep(h: Header, data: Data, pages: seq<Data>, p: nat) {
    h.state == CLEAN ==> p < |pages| && pages[p] == data
  }

  // Removing a value marks its page.
  lemma UnsetInStep(headers: seq<Header>, arena: seq<Data>, pages: seq<Data>, p: nat, i: nat, size: nat)
    requires InStep(headers, arena, pages) && p < |headers|
    requires i < |headers[p].offsets| == |headers[p].owners|
    ensures InStep(headers[p := Dropped(headers[p], i, size)], arena, pages)
  {
    forall q | 0 <= q < |headers|
      ensures PageInStep(headers[p := Dropped(headers[p], i, size)][q], arena[q], pages, q)
    {
      assert PageInStep(headers[q], arena[q], pages, q);
    }
  }

  // Storing a value does not mark its page: the value file stays in step
  // exactly when the page was marked already, or its bytes stay what they are;
  // over the zeros behind the values they never do.
  lemma SetInStepIff(headers: seq<Header>, arena: seq<Data>, pages: seq<Data>, p: nat, m: nat, v: Str)
    requires InStep(headers, arena, pages) && p < |headers|
    requires headers[p].offsetBytes + |v| + 2 <= |arena[p]|
    ensures var data := Written(arena[p], headers[p].offsetBytes, v);
      InStep(headers[p := Pushed(headers[p], m, |v|)], arena[p := data], pages)
      <==> headers[p].state == DIRTY || data == arena[p]
    ensures v != [] && Blank(arena[p], headers[p].offsetBytes) ==>
      Written(arena[p], headers[p].offsetBytes, v) != arena[p]
  {
    hide Written;
    var at := headers[p].offsetBytes;
    var headers', arena' := headers[p := Pushed(headers[p], m, |v|)], arena[p := Written(arena[p], at, v)];
    if v != [] && Blank(arena[p], at) {
      WrittenDiffers(arena[p], at, v);
    }
    assert PageInStep(headers[p], arena[p], pages, p);
    if headers[p].state == DIRTY || arena'[p] == arena[p] {
      forall q | 0 <= q < |headers| ensures PageInStep(headers'[q], arena'[q], pages, q) {
        assert PageInStep(headers[q], arena[q], pages, q);
      }
    } else {
      assert !PageInStep(headers'[p], arena'[p], pages, p);
    }
  }

  lemma NewPageInStep(headers: seq<Header>, arena: seq<Data>, pages: seq<Data>, data: Data)
    requires InStep(headers, arena, pages)
    ensures InStep(headers + [NEW_HEADER], arena + [data], pages)
  {
    forall p | 0 <= p < |headers| ensures PageInStep((headers + [NEW_HEADER])[p], (arena + [data])[p], pages, p) {
      assert PageInStep(headers[p], arena[p], pages, p);
    }
  }

  // A value stored on a page made for it: that page is marked from the start.
  lemma SetFreshInStep(headers: seq<Header>, arena: seq<Data>, pages: seq<Data>, data: Data, m: nat, v: Str)
    requires InStep(headers, arena, pages) && |v| + 2 <= |data|
    ensures InStep(headers + [Pushed(NEW_HEADER, m, |v|)], arena + [Written(data, 0, v)], pages)
  {
    hide Written;
    var headers', arena' := headers + [NEW_HEADER], arena + [data];
    NewPageInStep(headers, arena, pages, data);
    SetInStepIff(headers', arena', pages, |headers|, m, v);
    assert headers'[|headers| := Pushed(NEW_HEADER, m, |v|)] == headers + [Pushed(NEW_HEADER, m, |v|)];
    assert arena'[|headers| := Written(data, 0, v)] == arena + [Written(data, 0, v)];
  }

  // Zeros behind the values, as on a new page and after a compaction.
  ghost predicate Blank(data: Data, from: nat) {
    forall i :: from <= i < |data| ==> data[i] == 0
  }

  lemma WrittenDiffers(data: Data, at: nat, v: Str)
    requires at + |v| + 2 <= |data| && v != [] && Blank(data, at)
    ensures Written(data, at, v) != data
  {
    var r := Written(data, at, v);
    var low, high := |v| % 256, |v| / 256 % 256;
    assert Le(|v|, 2) == [low, high];
    assert r[at] == low && r[at + 1] == high;
    assert low != 0 || high != 0;
  }

  // ----- the snapshot -----

  // Every clean page was written some time.
  ghost predicate Dumped(headers: seq<Header>, pages: seq<Data>) {
    |pages| <= |headers| && forall p :: 0 <= p < |headers| && headers[p].state == CLEAN ==> p < |pages|
  }

  // The compaction of every marked page stays inside the page.
  ghost predicate Confined(headers: seq<Header>, slots: seq<Data>) {
    |headers| == |slots| && forall p :: 0 <= p < |headers| ==> PageConfined(headers[p], slots[p])
  }

  predicate PageConfined(h: Header, slot: Data) {
    h.state == DIRTY ==> Compact(slot, h.offsets).Done?
  }

  // Pages and value file as a snapshot found them, and as they are when it has
  // come to page n: the marked pages before n are compacted and written, the
  // rest is as found.
  ghost predicate SavedUpTo(headers: seq<Header>, slots: seq<Data>, dumped: seq<Data>,
                            headers': seq<Header>, slots': seq<Data>, pages: seq<Data>, n: nat) {
    && |headers| == |slots| == |headers'| == |slots'| && |dumped| <= |pages| <= |headers| && n <= |headers|
    && forall p :: 0 <= p < |headers| ==>
         PageSaved(headers[p], slots[p], dumped, headers'[p], slots'[p], pages, p, n)
  }

  ghost predicate PageSaved(h: Header, slot: Data, dumped: seq<Data>,
                            h': Header, slot': Data, pages: seq<Data>, p: nat, n: nat)
    requires |dumped| <= |pages|
  {
    if p < n && h.state == DIRTY then
      var r := Compact(slot, h.offsets);
      r.Done? && h' == HeaderAfter(h, r).(state := CLEAN) && slot' == r.data && p < |pages| && pages[p] == slot'
    else h' == h && slot' == slot && (p < |dumped| ==> pages[p] == dumped[p])
  }

  ghost predicate Saved(headers: seq<Header>, slots: seq<Data>, dumped: seq<Data>,
                        headers': seq<Header>, slots': seq<Data>, pages: seq<Data>) {
    SavedUpTo(headers, slots, dumped, headers', slots', pages, |headers|) && |pages| == |headers|
  }

  // Afterwards the value file holds every page exactly when every clean page was
  // in step.
  lemma SavedInStepIff(headers: seq<Header>, slots: seq<Data>, dumped: seq<Data>,
                       headers': seq<Header>, slots': seq<Data>, pages: seq<Data>)
    requires Saved(headers, slots, dumped, headers', slots', pages) && Dumped(headers, dumped)
    ensures pages == slots' <==> InStep(headers, slots, dumped)
  {
    hide Compact;
    forall p | 0 <= p < |headers| ensures pages[p] == slots'[p] <==> PageInStep(headers[p], slots[p], dumped, p) {
      assert PageSaved(headers[p], slots[p], dumped, headers'[p], slots'[p], pages, p, |headers|);
    }
    if pages != slots' {
      var p: nat :| p < |pages| && pages[p] != slots'[p];
      assert !PageInStep(headers[p], slots[p], dumped, p);
    }
  }

  // Afterwards every record reads right exactly when the values of every marked
  // page survive its compaction.
  lemma SavedReadsIff(headers: seq<Header>, slots: seq<Data>, dumped: seq<Data>, headers': seq<Header>, arena': Data,
                      pages: seq<Data>, metas: map<nat, Meta>, vals: seq<seq<Str>>)
    requires PagesOk(headers, slots, vals) && Even(headers', vals) && Linked(headers', metas)
    requires PAGE_SIZE * |headers'| <= |arena'|
    requires Saved(headers, slots, dumped, headers', Slots(arena', |headers'|), pages)
    ensures AllRead(headers', arena', metas, vals) <==> AllSurvive(headers, vals)
  {
    hide PageOk, Compact, RecordReads, Survives, Slots, Linked, Even, Slot, AllRead, OwnRead;
    ReadByPage(headers', arena', metas, vals);
    forall q: nat | q < |headers|
      ensures OwnRead(headers', arena', vals, q) <==> PageSurvives(headers[q], vals[q])
    {
      assert PageSaved(headers[q], slots[q], dumped, headers'[q], Slots(arena', |headers'|)[q], pages, q, |headers|);
      PageReadsIff(headers[q], slots[q], headers', arena', vals, q);
    }
  }

  ghost predicate AllSurvive(headers: seq<Header>, vals: seq<seq<Str>>) {
    |headers| == |vals| && forall q: nat :: q < |headers| ==> PageSurvives(headers[q], vals[q])
  }

  ghost predicate PageSurvives(h: Header, vals: seq<Str>) {
    h.state == DIRTY ==> |h.offsets| == |vals| && Survives(h.offsets, vals, PAGE_SIZE, PAGE_SIZE)
  }

  // Tame gaps, safe ones for one, keep all pages in order.
  ghost predicate TameWhereDirty(headers: seq<Header>, vals: seq<seq<Str>>) {
    |headers| == |vals| && forall p :: 0 <= p < |headers| ==> TameIfDirty(headers[p], vals[p])
  }

  ghost predicate TameIfDirty(h: Header, vals: seq<Str>) {
    |h.offsets| == |vals| && (h.state == DIRTY ==> SafeGaps(h.offsets, vals) || Tame(h.offsets, vals, PAGE_SIZE))
  }

  // And they keep every compaction inside its page.
  lemma TameConfined(headers: seq<Header>, slots: seq<Data>, vals: seq<seq<Str>>)
    requires PagesOk(headers, slots, vals) && TameWhereDirty(headers, vals)
    ensures Confined(headers, slots)
  {
    hide Compact, PageOk, SafeGaps, Tame;
    forall q | 0 <= q < |headers| ensures PageConfined(headers[q], slots[q]) {
      assert TameIfDirty(headers[q], vals[q]);
      if headers[q].state == DIRTY {
        if SafeGaps(headers[q].offsets, vals[q]) {
          SafeTame(headers[q], slots[q], vals[q]);
        }
        TameOk(headers[q], slots[q], vals[q]);
      }
    }
  }

  lemma SavedNeat(headers: seq<Header>, slots: seq<Data>, dumped: seq<Data>,
                  headers': seq<Header>, slots': seq<Data>, pages: seq<Data>, vals: seq<seq<Str>>)
    requires Saved(headers, slots, dumped, headers', slots', pages)
    requires PagesOk(headers, slots, vals) && TameWhereDirty(headers, vals)
    ensures PagesOk(headers', slots', vals)
  {
    hide Compact, PageOk, SafeGaps, Tame;
    forall q | 0 <= q < |headers| ensures PageOk(headers'[q], slots'[q], vals[q]) {
      assert PageSaved(headers[q], slots[q], dumped, headers'[q], slots'[q], pages, q, |headers|);
      assert TameIfDirty(headers[q], vals[q]);
      if headers[q].state == DIRTY {
        if SafeGaps(headers[q].offsets, vals[q]) {
          SafeTame(headers[q], slots[q], vals[q]);
        }
        TameOk(headers[q], slots[q], vals[q]);
        StateAside(HeaderAfter(headers[q], Compact(slots[q], headers[q].offsets)), slots'[q], vals[q]);
      }
    }
  }

  lemma StateAside(h: Header, data: Data, vals: seq<Str>)
    requires PageOk(h, data, vals)
    ensures PageOk(h.(state := CLEAN), data, vals)
  {
    hide Stored;
  }

  lemma ReadByPage(headers: seq<Header>, arena: Data, metas: map<nat, Meta>, vals: seq<seq<Str>>)
    requires Even(headers, vals) && Linked(headers, metas)
    ensures |vals| == |headers|
    ensures AllRead(headers, arena, metas, vals)
      <==> forall q: nat :: q < |headers| ==> OwnRead(headers, arena, vals, q)
  {
    hide RecordReads, Linked;
    if AllRead(headers, arena, metas, vals) {
      forall q: nat | q < |headers| ensures OwnRead(headers, arena, vals, q) {
        ReadSplit(headers, arena, metas, vals, q);
      }
    }
    if forall q: nat :: q < |headers| ==> OwnRead(headers, arena, vals, q) {
      forall m | m in metas ensures RecordReads(headers, arena, vals, metas[m]) {
        LinkedPlaced(headers, metas, vals, m);
        assert OwnRead(headers, arena, vals, metas[m].page);
        assert metas[m] == Meta(metas[m].page, metas[m].headerKeyId);
      }
    }
  }

  // A page in order, left alone or compacted in its slot.
  lemma PageReadsIff(h: Header, slot: Data, headers': seq<Header>, arena': Data, vals: seq<seq<Str>>, q: nat)
    requires q < |headers'| == |vals| && PAGE_SIZE * |headers'| <= |arena'| && PageOk(h, slot, vals[q])
    requires Even(headers', vals)
    requires if h.state == DIRTY then
        var r := Compact(slot, h.offsets);
        r.Done? && headers'[q] == HeaderAfter(h, r).(state := CLEAN) && Slot(arena', q) == r.data
      else headers'[q] == h && Slot(arena', q) == slot
    ensures OwnRead(headers', arena', vals, q) <==> PageSurvives(h, vals[q])
  {
    hide Compact, Survives, Slot, Holds, Even, Slack;
    OwnIsHeld(headers', arena', vals, q);
    var offs, here := headers'[q].offsets, arena'[PAGE_SIZE * q..];
    assert here[..PAGE_SIZE] == Slot(arena', q) by {
      SlotIs(arena', q);
    }
    if h.state == DIRTY {
      CompactHeldIff(here, slot, h.offsets, vals[q]);
    } else {
      forall i: nat | i < |vals[q]| ensures Holds(here, offs[i], vals[q][i]) {
        HoldsMore(slot, here, offs[i], vals[q][i]);
      }
    }
  }

  lemma SlotIs(arena: Data, q: nat)
    requires PAGE_SIZE * q + PAGE_SIZE <= |arena|
    ensures arena[PAGE_SIZE * q..][..PAGE_SIZE] == Slot(arena, q)
  {
  }

  // The pages' own slots in the arena.
  ghost function SlotsOf(store: Store): seq<Data>
    requires store.Valid()
    reads store
  {
    Slots(store.arena, |store.headers|)
  }

  // The page loop of snapshot: dirty pages are compacted, written, and clean.
  // What that does to the values is stated below.
  method SavePages(store: Store, file: ValueFile)
    requires store.Valid() && file.Valid() && Dumped(store.headers, file.pages)
    requires Confined(store.headers, SlotsOf(store))
    modifies store, file, file.vfd
    ensures store.Valid() && store.Contents() == old(store.Contents())
    ensures store.metas == old(store.metas) && store.vals == old(store.vals)
    ensures file.Valid()
    ensures Saved(old(store.headers), old(SlotsOf(store)), old(file.pages), store.headers, SlotsOf(store), file.pages)
    ensures file.pages == SlotsOf(store) <==> old(InStep(store.headers, SlotsOf(store), file.pages))
    ensures old(store.Neat()) ==> (store.Sound() <==> AllSurvive(old(store.headers), store.vals))
    ensures old(store.Neat()) && TameWhereDirty(old(store.headers), store.vals) ==> store.Neat()
  {
    hide PagesOk, Linked, Even, View, Flat, Whole, Slots, InStep, SavedUpTo, Compact, AllRead, AllSurvive, TameWhereDirty;
    ghost var headers, slots, dumped := store.headers, SlotsOf(store), file.pages;
    var p: nat := 0;
    ghost var n := |store.headers|;
    NothingSaved(headers, slots, dumped);
    while p < |store.headers|
      invariant p <= n == |store.headers|
      invariant store.Valid() && store.Contents() == old(store.Contents())
      invariant store.metas == old(store.metas) && store.vals == old(store.vals)
      invariant file.Valid() && p <= |file.pages|
      invariant SavedUpTo(headers, slots, dumped, store.headers, SlotsOf(store), file.pages, p)
    {
      ghost var headers', slots', pages := store.headers, SlotsOf(store), file.pages;
      StillThere(headers, slots, dumped, headers', slots', pages, p);
      if store.headers[p].state == DIRTY {
        SavePage(store, file, p);
        SavedMore(headers, slots, dumped, headers', slots', pages, p);
      } else {
        SavedClean(headers, slots, dumped, headers', slots', pages, p);
      }
      p := p + 1;
    }
    SavedSizes(headers, slots, dumped, store.headers, SlotsOf(store), file.pages, n);
    SavedInStepIff(headers, slots, dumped, store.headers, SlotsOf(store), file.pages);
    if old(store.Neat()) {
      SavedReadsIff(headers, slots, dumped, store.headers, store.arena, file.pages, store.metas, store.vals);
      if TameWhereDirty(headers, store.vals) {
        SavedNeat(headers, slots, dumped, store.headers, SlotsOf(store), file.pages, store.vals);
      }
    }
  }

  lemma NothingSaved(headers: seq<Header>, slots: seq<Data>, dumped: seq<Data>)
    requires |dumped| <= |headers| == |slots|
    ensures SavedUpTo(headers, slots, dumped, headers, slots, dumped, 0)
  {
  }

  lemma StillThere(headers: seq<Header>, slots: seq<Data>, dumped: seq<Data>,
                   headers': seq<Header>, slots': seq<Data>, pages: seq<Data>, p: nat)
    requires SavedUpTo(headers, slots, dumped, headers', slots', pages, p) && p < |headers|
    requires Confined(headers, slots) && Dumped(headers, dumped)
    ensures headers'[p] == headers[p] && slots'[p] == slots[p] && PageConfined(headers'[p], slots'[p])
    ensures headers[p].state == CLEAN ==> p < |pages|
  {
    hide Compact;
    assert PageSaved(headers[p], slots[p], dumped, headers'[p], slots'[p], pages, p, p);
  }

  lemma SavedClean(headers: seq<Header>, slots: seq<Data>, dumped: seq<Data>,
                   headers': seq<Header>, slots': seq<Data>, pages: seq<Data>, p: nat)
    requires SavedUpTo(headers, slots, dumped, headers', slots', pages, p) && p < |headers|
    requires headers[p].state == CLEAN
    ensures SavedUpTo(headers, slots, dumped, headers', slots', pages, p + 1)
  {
    hide Compact;
    forall q | 0 <= q < |headers|
      ensures PageSaved(headers[q], slots[q], dumped, headers'[q], slots'[q], pages, q, p + 1)
    {
      assert PageSaved(headers[q], slots[q], dumped, headers'[q], slots'[q], pages, q, p);
    }
  }

  lemma SavedMore(headers: seq<Header>, slots: seq<Data>, dumped: seq<Data>,
                  headers': seq<Header>, slots': seq<Data>, pages: seq<Data>, p: nat)
    requires SavedUpTo(headers, slots, dumped, headers', slots', pages, p) && p < |headers| && p <= |pages|
    requires headers[p].state == DIRTY && Compact(slots[p], headers[p].offsets).Done?
    ensures var r := Compact(slots[p], headers[p].offsets);
      SavedUpTo(headers, slots, dumped, headers'[p := HeaderAfter(headers[p], r).(state := CLEAN)], slots'[p := r.data],
                FileWith(pages, p, r.data), p + 1)
  {
    hide Compact;
    var r := Compact(slots[p], headers[p].offsets);
    var h', pages' := HeaderAfter(headers[p], r).(state := CLEAN), FileWith(pages, p, r.data);
    forall q | 0 <= q < |headers|
      ensures PageSaved(headers[q], slots[q], dumped, headers'[p := h'][q], slots'[p := r.data][q], pages', q, p + 1)
    {
      assert PageSaved(headers[q], slots[q], dumped, headers'[q], slots'[q], pages, q, p);
    }
  }

  lemma SavedSizes(headers: seq<Header>, slots: seq<Data>, dumped: seq<Data>,
                   headers': seq<Header>, slots': seq<Data>, pages: seq<Data>, n: nat)
    requires SavedUpTo(headers, slots, dumped, headers', slots', pages, n)
    ensures |pages| <= |headers| == |headers'| == |slots'|
  {
  }

  method SavePage(store: Store, file: ValueFile, p: nat)
    requires store.Valid() && file.Valid() && p < |store.headers| && p <= |file.pages|
    requires Compact(SlotsOf(store)[p], store.headers[p].offsets).Done?
    modifies store, file, file.vfd
    ensures store.Valid() && store.Contents() == old(store.Contents())
    ensures store.metas == old(store.metas) && store.vals == old(store.vals) && file.Valid()
    ensures var r := Compact(old(SlotsOf(store))[p], old(store.headers)[p].offsets);
      && r.Done? && SlotsOf(store) == old(SlotsOf(store))[p := r.data]
      && store.headers == old(store.headers)[p := HeaderAfter(old(store.headers)[p], r).(state := CLEAN)]
      && file.pages == FileWith(old(file.pages), p, r.data)
  {
    hide Linked, View, SafeGaps, Flat, Whole, PageOk, Even, CompactAt, Slots, Slot, Compact;
    ghost var r := Compact(SlotsOf(store)[p], store.headers[p].offsets);
    var ok := store.Defragmentate(p);
    file.DumpPage(p, Slot(store.arena, p));
    CleanKeeps(store.headers, store.metas, store.vals, p);
    store.headers := store.headers[p := store.headers[p].(state := CLEAN)];
  }

  lemma CleanKeeps(headers: seq<Header>, metas: map<nat, Meta>, vals: seq<seq<Str>>, p: nat)
    requires Even(headers, vals) && Linked(headers, metas) && p < |headers|
    ensures var headers' := headers[p := headers[p].(state := CLEAN)]; Linked(headers', metas) && Even(headers', vals)
  {
    var h := headers[p].(state := CLEAN);
    assert EvenPage(headers[p], vals[p]);
    EvenCompacted(headers, vals, p, h);
    LinkSameOwners(headers, headers[p := h], metas);
  }

  // ----- what the key file says of the store -----

  // The key string a meta record points to.
  type Names = map<nat, Str>

  function RecOf(h: Header, metas: map<nat, Meta>, names: Names, i: nat): S.KeyRec
    requires i < |h.offsets| && i < |h.owners|
  {
    var m := h.owners[i];
    S.KeyRec(if m in metas then metas[m].page else 0, h.offsets[i], if m in names then names[m] else [])
  }

  function RecsOf(h: Header, metas: map<nat, Meta>, names: Names, n: nat): (r: seq<S.KeyRec>)
    requires n <= |h.offsets| && n <= |h.owners|
    ensures |r| == n && forall i :: 0 <= i < n ==> r[i] == RecOf(h, metas, names, i)
  {
    if n == 0 then [] else RecsOf(h, metas, names, n - 1) + [RecOf(h, metas, names, n - 1)]
  }

  function HeadOf(h: Header, metas: map<nat, Meta>, names: Names): S.Head {
    S.Head(h.offsetBytes, if |h.offsets| <= |h.owners| then RecsOf(h, metas, names, |h.offsets|) else [])
  }

  function HeadsOf(headers: seq<Header>, metas: map<nat, Meta>, names: Names): (r: seq<S.Head>)
    ensures |r| == |headers| && forall p :: 0 <= p < |headers| ==> r[p] == HeadOf(headers[p], metas, names)
  {
    if headers == [] then [] else
    HeadsOf(headers[..|headers| - 1], metas, names) + [HeadOf(headers[|headers| - 1], metas, names)]
  }

  lemma {:induction false} PackedCount(vals: seq<Str>, n: nat)
    requires n <= |vals|
    ensures PackedAt(vals, n) >= 2 * n
  {
    if n > 0 {
      PackedCount(vals, n - 1);
    }
  }

  // The counts and offsets of the page fit the widths of the key file.
  ghost predicate Narrow(h: Header) {
    && |h.offsets| == |h.owners| < 0x1_0000 && h.offsetBytes < 0x1_0000
    && forall i :: 0 <= i < |h.offsets| ==> h.offsets[i] < 0x1_0000
  }

  ghost predicate AllNarrow(headers: seq<Header>) {
    forall p :: 0 <= p < |headers| ==> Narrow(headers[p])
  }

  lemma PageNarrow(h: Header, data: Data, vals: seq<Str>)
    requires PageOk(h, data, vals)
    ensures Narrow(h)
  {
    hide Cell;
    PackedCount(vals, |vals|);
    forall i | 0 <= i < |h.offsets| ensures h.offsets[i] < 0x1_0000 {
      HeldWithin(data, h.offsets[i], vals[i]);
    }
  }

  // Such a page is written as it is, and its keys name it.
  lemma HeadSound(headers: seq<Header>, metas: map<nat, Meta>, names: Names, p: nat)
    requires Linked(headers, metas) && p < |headers| < 0x1_0000_0000_0000_0000 && Narrow(headers[p])
    ensures S.HeadFits(HeadOf(headers[p], metas, names)) && S.Sound(HeadOf(headers[p], metas, names), p)
  {
    hide Linked, RecsOf;
    var h := headers[p];
    var head := HeadOf(h, metas, names);
    assert head.keys == RecsOf(h, metas, names, |h.offsets|);
    forall i | 0 <= i < |head.keys| ensures S.RecFits(head.keys[i]) && head.keys[i].page == p {
      assert head.keys[i] == RecOf(h, metas, names, i);
      Owned(headers, metas, p, i);
    }
  }

  lemma Owned(headers: seq<Header>, metas: map<nat, Meta>, p: nat, i: nat)
    requires Linked(headers, metas) && p < |headers| && i < |headers[p].owners|
    ensures headers[p].owners[i] in metas && metas[headers[p].owners[i]] == Meta(p, i)
  {
    assert OwnedBack(headers, metas, p, i);
  }

  // A head says of its page how far it is in use, and of every key which page it
  // is on, where its value is and which key it is.
  ghost predicate TellsOf(heads: seq<S.Head>, headers: seq<Header>, names: Names) {
    |heads| == |headers| && forall p: nat :: p < |heads| ==> HeadTells(heads[p], headers[p], names, p)
  }

  ghost predicate HeadTells(head: S.Head, h: Header, names: Names, p: nat) {
    && head.offsetBytes == h.offsetBytes && |head.keys| == |h.offsets| == |h.owners|
    && forall i :: 0 <= i < |head.keys| ==>
         head.keys[i].page == p && head.keys[i].offset == h.offsets[i]
         && (h.owners[i] in names ==> head.keys[i].key == names[h.owners[i]])
  }

  lemma HeadsTell(headers: seq<Header>, metas: map<nat, Meta>, names: Names)
    requires AllNarrow(headers) && Linked(headers, metas)
    ensures TellsOf(HeadsOf(headers, metas, names), headers, names)
  {
    hide Linked, RecsOf, HeadsOf;
    var heads := HeadsOf(headers, metas, names);
    forall p: nat | p < |heads| ensures HeadTells(heads[p], headers[p], names, p) {
      var h := headers[p];
      assert Narrow(h) && heads[p] == HeadOf(h, metas, names);
      forall i | 0 <= i < |heads[p].keys| ensures heads[p].keys[i] == RecOf(h, metas, names, i) && heads[p].keys[i].page == p {
        assert heads[p].keys == RecsOf(h, metas, names, |h.offsets|);
        Owned(headers, metas, p, i);
      }
    }
  }

  // A restart after a snapshot: the load loop rebuilds every page's keys and
  // offsets.
  lemma PagesLoadBack(headers: seq<Header>, metas: map<nat, Meta>, names: Names)
    requires AllNarrow(headers) && Linked(headers, metas) && |headers| < 0x1_0000_0000_0000_0000
    ensures var heads := HeadsOf(headers, metas, names);
      S.AllSound(heads, 0) && S.AllFit(heads) && S.Load(S.HeadsBytes(heads), 0, |headers|) == Some(heads)
  {
    hide Narrow, Linked, RecsOf, S.Load, S.HeadsBytes, S.HeadFits, S.Sound, HeadOf;
    var heads := HeadsOf(headers, metas, names);
    forall p | 0 <= p < |heads| ensures S.HeadFits(heads[p]) && S.Sound(heads[p], 0 + p) {
      HeadSound(headers, metas, names, p);
    }
    S.LoadDumpIff(heads, 0, |headers|);
  }

  // In the loaded pages the place of a meta record holds its key, and the page
  // uploaded from the value file holds its value there.
  ghost predicate LeadsBack(heads: seq<S.Head>, pages: seq<Data>, at: Meta, key: Str, value: Str) {
    && at.page < |heads| == |pages| && at.headerKeyId < |heads[at.page].keys|
    && heads[at.page].keys[at.headerKeyId].key == key
    && Holds(pages[at.page], heads[at.page].keys[at.headerKeyId].offset, value)
  }

  ghost predicate InPages(headers: seq<Header>, pages: seq<Data>, vals: seq<seq<Str>>, at: Meta) {
    Placed(headers, vals, at) && at.page < |pages|
    && Holds(pages[at.page], headers[at.page].offsets[at.headerKeyId], vals[at.page][at.headerKeyId])
  }

  // A key leads back to its value exactly when the page in the file has it.
  lemma LeadsBackIff(headers: seq<Header>, pages: seq<Data>, vals: seq<seq<Str>>, metas: map<nat, Meta>, names: Names, m: nat)
    requires Even(headers, vals) && Linked(headers, metas) && InBounds(metas, vals) && |pages| == |headers|
    requires m in metas && metas.Keys <= names.Keys
    ensures m in View(metas, vals)
    ensures LeadsBack(HeadsOf(headers, metas, names), pages, metas[m], names[m], View(metas, vals)[m])
      <==> InPages(headers, pages, vals, metas[m])
  {
    hide RecsOf, HeadsOf, Holds;
    LinkedPlaced(headers, metas, vals, m);
    assert LeadsTo(headers, metas, m) && HasValue(metas, vals, m);
    var p, i := metas[m].page, metas[m].headerKeyId;
    assert EvenPage(headers[p], vals[p]);
    ViewAt(metas, vals, m);
    assert HeadsOf(headers, metas, names)[p] == HeadOf(headers[p], metas, names);
    assert RecsOf(headers[p], metas, names, |headers[p].offsets|)[i] == RecOf(headers[p], metas, names, i);
  }

  ghost predicate AllLeadBack(headers: seq<Header>, pages: seq<Data>, vals: seq<seq<Str>>, metas: map<nat, Meta>, names: Names)
    requires InBounds(metas, vals) && metas.Keys <= names.Keys
  {
    ViewKeys(metas, vals);
    forall m :: m in metas ==> LeadsBack(HeadsOf(headers, metas, names), pages, metas[m], names[m], View(metas, vals)[m])
  }

  ghost predicate AllInPages(headers: seq<Header>, pages: seq<Data>, vals: seq<seq<Str>>) {
    |headers| == |pages| == |vals| && forall q: nat :: q < |headers| ==> AllHeld(pages[q], headers[q].offsets, vals[q])
  }

  // All do exactly when every page of the file has its values where they should
  // be.
  lemma AllLeadBackIff(headers: seq<Header>, pages: seq<Data>, vals: seq<seq<Str>>, metas: map<nat, Meta>, names: Names)
    requires Even(headers, vals) && Linked(headers, metas) && InBounds(metas, vals) && |pages| == |headers|
    requires metas.Keys <= names.Keys
    ensures AllLeadBack(headers, pages, vals, metas, names) <==> AllInPages(headers, pages, vals)
  {
    hide InPages, HeadsOf, LeadsBack, View, Linked, Even;
    forall m | m in metas
      ensures m in View(metas, vals)
      ensures LeadsBack(HeadsOf(headers, metas, names), pages, metas[m], names[m], View(metas, vals)[m])
        <==> InPages(headers, pages, vals, metas[m])
    {
      LeadsBackIff(headers, pages, vals, metas, names, m);
    }
    if forall m :: m in metas ==> InPages(headers, pages, vals, metas[m]) {
      PagesFromKeys(headers, pages, vals, metas);
    }
    if AllInPages(headers, pages, vals) {
      forall m | m in metas ensures InPages(headers, pages, vals, metas[m]) {
        KeyFromPages(headers, pages, vals, metas, m);
      }
    }
  }

  lemma PagesFromKeys(headers: seq<Header>, pages: seq<Data>, vals: seq<seq<Str>>, metas: map<nat, Meta>)
    requires Even(headers, vals) && Linked(headers, metas) && |pages| == |headers|
    requires forall m :: m in metas ==> InPages(headers, pages, vals, metas[m])
    ensures AllInPages(headers, pages, vals)
  {
    hide Holds;
    forall q: nat | q < |headers| ensures AllHeld(pages[q], headers[q].offsets, vals[q]) {
      assert EvenPage(headers[q], vals[q]);
      forall i: nat | i < |vals[q]| ensures Holds(pages[q], headers[q].offsets[i], vals[q][i]) {
        assert OwnedBack(headers, metas, q, i);
        assert InPages(headers, pages, vals, metas[headers[q].owners[i]]);
      }
    }
  }

  lemma KeyFromPages(headers: seq<Header>, pages: seq<Data>, vals: seq<seq<Str>>, metas: map<nat, Meta>, m: nat)
    requires Even(headers, vals) && Linked(headers, metas) && AllInPages(headers, pages, vals) && m in metas
    ensures InPages(headers, pages, vals, metas[m])
  {
    hide Holds;
    LinkedPlaced(headers, metas, vals, m);
    assert AllHeld(pages[metas[m].page], headers[metas[m].page].offsets, vals[metas[m].page]);
  }

  // From pages in order, all of them in the file, every key leads to the value
  // its meta record stood for.
  lemma RestartGivesBack(headers: seq<Header>, pages: seq<Data>, vals: seq<seq<Str>>, metas: map<nat, Meta>, names: Names)
    requires PagesOk(headers, pages, vals) && Linked(headers, metas) && InBounds(metas, vals)
    requires |headers| < 0x1_0000_0000_0000_0000 && metas.Keys <= names.Keys
    ensures var heads := HeadsOf(headers, metas, names); S.Load(S.HeadsBytes(heads), 0, |pages|) == Some(heads)
    ensures AllLeadBack(headers, pages, vals, metas, names)
  {
    hide PageOk, Linked, InBounds, AllLeadBack, Even, S.Load, S.HeadsBytes, HeadsOf;
    PagesEven(headers, pages, vals);
    forall p: nat | p < |headers| ensures Narrow(headers[p]) && AllHeld(pages[p], headers[p].offsets, vals[p]) {
      PageNarrow(headers[p], pages[p], vals[p]);
      PageHeld(headers[p], pages[p], vals[p]);
    }
    PagesLoadBack(headers, metas, names);
    AllLeadBackIff(headers, pages, vals, metas, names);
  }

  lemma PageHeld(h: Header, data: Data, vals: seq<Str>)
    requires PageOk(h, data, vals)
    ensures AllHeld(data, h.offsets, vals)
  {
  }

  // The reloaded page, its fragmentation counted from zero again, is a proper
  // page with the same values.
  lemma ReloadedPageOk(h: Header, data: Data, vals: seq<Str>, owners: seq<nat>)
    requires PageOk(h, data, vals) && |owners| == |vals|
    ensures PageOk(Header(h.offsetBytes, 0, h.offsets, owners, CLEAN), data, vals)
  {
  }
}
