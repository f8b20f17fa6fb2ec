/** A snapshot, the end of the session and the next start, put together: which
    keys still have their values. */
module Cycle {
  import opened Arena
  import opened Bytes
  import opened Compacted
  import opened Compaction
  import opened Options
  import opened Pages
  import opened PageStore
  import opened Restart
  import S = Snapshot

  // A marked page's values survive its compaction; those of any other are in
  // the page as it was last written, which need not be the page as it is.
  ghost predicate ComesBack(h: Header, dumped: seq<Data>, vals: seq<Str>, q: nat) {
    |h.offsets| == |vals|
    && if h.state == DIRTY then Survives(h.offsets, vals, PAGE_SIZE, PAGE_SIZE)
       else q < |dumped| && AllHeld(dumped[q], h.offsets, vals)
  }

  ghost predicate AllComeBack(headers: seq<Header>, dumped: seq<Data>, vals: seq<seq<Str>>) {
    |headers| == |vals| && forall q: nat :: q < |headers| ==> ComesBack(headers[q], dumped, vals[q], q)
  }

  lemma FileIff(headers: seq<Header>, slots: seq<Data>, dumped: seq<Data>,
                headers': seq<Header>, slots': seq<Data>, pages: seq<Data>, vals: seq<seq<Str>>)
    requires PagesOk(headers, slots, vals) && Saved(headers, slots, dumped, headers', slots', pages) && Dumped(headers, dumped)
    ensures AllInPages(headers', pages, vals) <==> AllComeBack(headers, dumped, vals)
  {
    hide PageOk, Compact, Survives, AllHeld;
    forall q: nat | q < |headers|
      ensures AllHeld(pages[q], headers'[q].offsets, vals[q]) <==> ComesBack(headers[q], dumped, vals[q], q)
    {
      assert PageSaved(headers[q], slots[q], dumped, headers'[q], slots'[q], pages, q, |headers|);
      PageHeld(headers[q], slots[q], vals[q]);
      HeldSizes(slots[q], headers[q], vals[q]);
      if headers[q].state == DIRTY {
        CompactReadsIff(slots[q], headers[q].offsets, vals[q]);
      }
    }
  }

  lemma HeldSizes(data: Data, h: Header, vals: seq<Str>)
    requires PageOk(h, data, vals)
    ensures |h.offsets| == |vals| && |data| == PAGE_SIZE
  {
  }

  lemma FileNarrow(headers: seq<Header>, slots: seq<Data>, dumped: seq<Data>,
                   headers': seq<Header>, slots': seq<Data>, pages: seq<Data>, vals: seq<seq<Str>>)
    requires PagesOk(headers, slots, vals) && Saved(headers, slots, dumped, headers', slots', pages)
    ensures AllNarrow(headers')
  {
    hide PageOk, Compact;
    forall q | 0 <= q < |headers| ensures Narrow(headers'[q]) {
      assert PageSaved(headers[q], slots[q], dumped, headers'[q], slots'[q], pages, q, |headers|);
      PageNarrow(headers[q], slots[q], vals[q]);
      HeldSizes(slots[q], headers[q], vals[q]);
      if headers[q].state == DIRTY {
        CompactNarrow(slots[q], headers[q].offsets);
      }
    }
  }

  lemma CompactNarrow(data: Data, offs: seq<nat>)
    requires Compact(data, offs).Done? && |data| == PAGE_SIZE
    ensures var r := Compact(data, offs);
      |r.offs| == |offs| && r.end <= PAGE_SIZE && forall i :: 0 <= i < |offs| ==> r.offs[i] <= PAGE_SIZE
  {
    hide Slide, Zeros;
    SlideInside(data, offs, 0, 0);
    SlideBelow(data, offs, 0, 0);
  }

  // The snapshot of pages in order, the key file and the end of the session, and
  // the next start, which reads the key file and takes the pages from the value
  // file. Every key leads back to its value exactly when every marked page
  // survives its compaction and every other has its values in the file; the
  // start's own check passes exactly when as many keys are found as were dumped
  // in the whole session, as far as that was counted.
  method SnapshotAndStart(store: Store, file: ValueFile, disk: S.Disk, names: Names, lsn: nat)
    returns (heads: Option<seq<S.Head>>, passes: bool)
    requires store.Valid() && store.Neat() && file.Valid() && disk.Valid() && file.vfd != disk.kfd
    requires Dumped(store.headers, file.pages) && Confined(store.headers, SlotsOf(store))
    requires store.metas.Keys <= names.Keys && |store.headers| < 0x1_0000_0000_0000_0000
    modifies store, file, file.vfd, disk, disk.kfd
    ensures store.Valid() && file.Valid() && store.Contents() == old(store.Contents())
    ensures heads == Some(HeadsOf(store.headers, store.metas, names)) && TellsOf(heads.value, store.headers, names)
    ensures InBounds(store.metas, store.vals) && store.metas.Keys <= names.Keys
    ensures AllLeadBack(store.headers, file.pages, store.vals, store.metas, names)
      <==> AllComeBack(old(store.headers), old(file.pages), store.vals)
    ensures passes <==> S.Total(heads.value) >= S.Totals(disk.dumps) % 0x1_0000_0000_0000_0000
  {
    hide PagesOk, Linked, Even, InBounds, Saved, Confined, Dumped, AllLeadBack, AllComeBack, AllInPages, AllNarrow,
      S.Load, S.HeadsBytes, S.AllSound, S.AllFit, S.Total, S.Totals, HeadsOf, Le, LeValue, Slots, Flat, Whole, TellsOf;
    ghost var headers, slots, dumped := store.headers, SlotsOf(store), file.pages;
    SavePages(store, file);
    FileIff(headers, slots, dumped, store.headers, SlotsOf(store), file.pages, store.vals);
    FileNarrow(headers, slots, dumped, store.headers, SlotsOf(store), file.pages, store.vals);
    LinkedInBounds(store.headers, store.metas, store.vals);
    SavedCount(headers, slots, dumped, store.headers, SlotsOf(store), file.pages);
    AllLeadBackIff(store.headers, file.pages, store.vals, store.metas, names);
    PagesLoadBack(store.headers, store.metas, names);
    HeadsTell(store.headers, store.metas, names);
    var now := HeadsOf(store.headers, store.metas, names);
    var bytes := disk.DumpKeys(now);
    disk.Close();
    S.SessionStarts(disk.dumps);
    CountOf(store.headers, store.metas, names);
    file.Close(lsn);
    var pages := file.PageCount();
    heads, passes := S.Start(disk.kfd, pages);
  }

  lemma SavedCount(headers: seq<Header>, slots: seq<Data>, dumped: seq<Data>,
                   headers': seq<Header>, slots': seq<Data>, pages: seq<Data>)
    requires Saved(headers, slots, dumped, headers', slots', pages)
    ensures |headers'| == |headers| == |pages|
  {
  }

  lemma CountOf(headers: seq<Header>, metas: map<nat, Meta>, names: Names)
    ensures |HeadsOf(headers, metas, names)| == |headers|
  {
  }
}
