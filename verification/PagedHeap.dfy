/** The priority heap: entries live in pages reached through a growable table of
    page pointers; pages are mapped and released one at a time. */
module PagedHeap {
  import opened HeapOrder

  // Bytes of a table slot and of an entry.
  const POINTER_BYTES: nat := 8
  const ENTRY_BYTES: nat := 16

  function PagesFor(entries: nat, perPage: nat): nat
    requires perPage > 0
  {
    entries / perPage + (if entries % perPage > 0 then 1 else 0)
  }

  lemma PagesForBounds(entries: nat, perPage: nat)
    requires perPage > 0
    ensures entries <= PagesFor(entries, perPage) * perPage
    ensures entries > 0 ==> (PagesFor(entries, perPage) - 1) * perPage < entries
  {
    var q := entries / perPage;
    assert entries == q * perPage + entries % perPage;
    assert (q + 1) * perPage == q * perPage + perPage;
    assert (q - 1) * perPage == q * perPage - perPage;
  }

  lemma PagesForUnique(entries: nat, perPage: nat, pages: nat)
    requires perPage > 0 && entries <= pages * perPage && entries > (pages - 1) * perPage
    ensures PagesFor(entries, perPage) == pages
  {
    PagesForBounds(entries, perPage);
    var p := PagesFor(entries, perPage);
    if p < pages {
      MulLe(p, pages - 1, perPage);
    } else if pages < p {
      MulLe(pages, p - 1, perPage);
    }
  }

  lemma MulLe(a: int, b: int, c: nat)
    requires a <= b
    ensures a * c <= b * c
  {
    assert (b - a) * c >= 0;
  }

  lemma PagesForStep(entries: nat, perPage: nat)
    requires perPage > 0
    ensures PagesFor(entries, perPage) <= PagesFor(entries + 1, perPage) <= PagesFor(entries, perPage) + 1
  {
    var p := PagesFor(entries, perPage);
    PagesForBounds(entries, perPage);
    MulLe(p, p + 1, perPage);
    assert (p + 1) * perPage == p * perPage + perPage;
    if entries + 1 <= p * perPage {
      if entries > 0 {
        PagesForUnique(entries + 1, perPage, p);
      }
    } else {
      PagesForUnique(entries + 1, perPage, p + 1);
    }
  }

  lemma PagesForFull(entries: nat, perPage: nat, pages: nat)
    requires perPage > 0 && pages > 0 && entries == pages * perPage
    ensures PagesFor(entries, perPage) == pages
  {
    assert (pages - 1) * perPage == pages * perPage - perPage;
    PagesForUnique(entries, perPage, pages);
  }

  lemma IndexInPages(i: nat, perPage: nat, pages: nat)
    requires perPage > 0 && i < pages * perPage
    ensures i / perPage < pages && i % perPage < perPage
    ensures i == (i / perPage) * perPage + i % perPage
  {
    var q := i / perPage;
    assert i == q * perPage + i % perPage;
    if q >= pages {
      MulLe(pages, q, perPage);
    }
  }

  lemma TableFits(pages: nat, perPage: nat)
    requires perPage > 0
    ensures var bytes := perPage * ENTRY_BYTES;
      var slots := (POINTER_BYTES * pages / bytes + 1) * bytes / POINTER_BYTES;
      slots * POINTER_BYTES == (POINTER_BYTES * pages / bytes + 1) * bytes && pages <= slots
  {
    var bytes := perPage * ENTRY_BYTES;
    var q := POINTER_BYTES * pages / bytes;
    assert POINTER_BYTES * pages == q * bytes + POINTER_BYTES * pages % bytes;
    TableDivides(q + 1, perPage);
    assert (q + 1) * bytes == q * bytes + bytes;
  }

  lemma TableDivides(tablePages: nat, perPage: nat)
    ensures var total := tablePages * (perPage * ENTRY_BYTES);
      total / POINTER_BYTES * POINTER_BYTES == total
  {
    var total := tablePages * (perPage * ENTRY_BYTES);
    assert total == POINTER_BYTES * (2 * (tablePages * perPage));
  }

  class Heap<K(0, !new), V(0)> {
    const pageBytes: nat
    const entriesPerPage: nat
    const compare: (K, K) -> int
    var activeEntries: nat
    var minimumPages: nat
    var allocatedPages: nat
    var mapPages: nat
    var mappingTable: array<array?<Entry<K, V>>>

    // The mapped pages, and all their slots in index order.
    ghost var pages: seq<array<Entry<K, V>>>
    ghost var slots: seq<Entry<K, V>>

    ghost function Repr(): set<object>
      reads this
    {
      {this, mappingTable} + set p | p in pages
    }

    // Every index below the capacity resolves to its own cell of a mapped page.
    ghost predicate Mapped()
      reads this, mappingTable, pages
    {
      Spread() && minimumPages <= allocatedPages
    }

    ghost predicate Spread()
      reads this, mappingTable, pages
    {
      && entriesPerPage > 0 && pageBytes == entriesPerPage * ENTRY_BYTES
      && minimumPages >= 1
      && allocatedPages <= mappingTable.Length
      && mappingTable.Length * POINTER_BYTES == mapPages * pageBytes
      && |pages| == allocatedPages
      && |slots| == allocatedPages * entriesPerPage
      && activeEntries <= |slots|
      && (forall p :: 0 <= p < |pages| ==> PageMapped(p))
      && (forall p, q :: 0 <= p < q < |pages| ==> pages[p] != pages[q])
      && (forall p :: p in pages ==> p as object != this && p as object != mappingTable)
    }

    ghost predicate PageMapped(p: nat)
      requires p < |pages|
      reads this, mappingTable, pages
    {
      && p < mappingTable.Length
      && mappingTable[p] == pages[p]
      && pages[p].Length == entriesPerPage
      && (p + 1) * entriesPerPage <= |slots|
      && pages[p][..] == slots[p * entriesPerPage..(p + 1) * entriesPerPage]
    }

    // The entries of the heap, as one flat sequence.
    ghost function Flat(): seq<Entry<K, V>>
      requires activeEntries <= |slots|
      reads this
    {
      slots[..activeEntries]
    }

    ghost predicate Valid()
      reads this, mappingTable, pages
    {
      && Mapped()
      && Ordered(compare, Flat())
      && SpareAtMostOne(activeEntries)
    }

    // Beyond the minimum, at most one mapped page is empty.
    predicate SpareAtMostOne(entries: nat)
      requires entriesPerPage > 0
      reads this
    {
      allocatedPages <= minimumPages || allocatedPages <= PagesFor(entries, entriesPerPage) + 1
    }

    // Maps one more page behind the last one.
    method AddPage()
      requires Spread() && allocatedPages < mappingTable.Length
      modifies this, mappingTable
      ensures Spread() && allocatedPages == old(allocatedPages) + 1
      ensures mappingTable == old(mappingTable) && mapPages == old(mapPages)
      ensures activeEntries == old(activeEntries) && minimumPages == old(minimumPages)
      ensures |slots| == old(|slots|) + entriesPerPage && old(slots) <= slots
      ensures |pages| == old(|pages|) + 1 && old(pages) <= pages && fresh(pages[old(|pages|)])
    {
      var page := new Entry<K, V>[entriesPerPage];
      mappingTable[allocatedPages] := page;
      pages := pages + [page];
      slots := slots + page[..];
      allocatedPages := allocatedPages + 1;
      forall p | 0 <= p < |pages| ensures PageMapped(p) {
        if p < |pages| - 1 {
          assert old(PageMapped(p));
        }
      }
    }

    // GET_ENTRY: from an index to its page and its place in the page.
    function GetEntry(index: nat): (e: Entry<K, V>)
      requires Mapped() && index < |slots|
      reads this, mappingTable, pages
      ensures e == slots[index]
    {
      IndexInPages(index, entriesPerPage, allocatedPages);
      assert PageMapped(index / entriesPerPage);
      var page := mappingTable[index / entriesPerPage];
      assert page[..][index % entriesPerPage] == page[index % entriesPerPage];
      page[index % entriesPerPage]
    }

    method SetEntry(index: nat, e: Entry<K, V>)
      requires Mapped() && index < |slots|
      modifies this`slots, pages
      ensures Mapped() && slots == old(slots)[index := e]
    {
      IndexInPages(index, entriesPerPage, allocatedPages);
      var k := index / entriesPerPage;
      assert PageMapped(k);
      var page := mappingTable[k];
      page[index % entriesPerPage] := e;
      slots := slots[index := e];
      forall p | 0 <= p < |pages| ensures PageMapped(p) {
        assert old(PageMapped(p));
        if p < k {
          MulLe(p + 1, k, entriesPerPage);
        } else if p > k {
          MulLe(k + 1, p, entriesPerPage);
        }
      }
    }

    // heap_create: bytes is what the system reports, a multiple of the
    // entry size.
    constructor (initial: int, bytes: nat, cmp: (K, K) -> int)
      requires bytes > 0 && bytes % ENTRY_BYTES == 0
      ensures Valid() && fresh(Repr()) && Flat() == []
      ensures compare == cmp && pageBytes == bytes
      ensures allocatedPages == minimumPages
      ensures minimumPages == PagesFor(if initial <= 0 then entriesPerPage else initial, entriesPerPage)
    {
      var perPage := bytes / ENTRY_BYTES;
      var size := if initial <= 0 then perPage else initial;
      var minimum := PagesFor(size, perPage);
      PagesForBounds(size, perPage);
      var tablePages := POINTER_BYTES * minimum / bytes + 1;
      var tableSlots := tablePages * bytes / POINTER_BYTES;
      TableFits(minimum, perPage);
      var table := new array?<Entry<K, V>>[tableSlots](_ => null);
      pageBytes, entriesPerPage, compare := bytes, perPage, cmp;
      activeEntries, minimumPages, allocatedPages, mapPages := 0, minimum, 0, tablePages;
      mappingTable := table;
      pages, slots := [], [];
      new;
      while allocatedPages < minimum
        invariant Spread() && allocatedPages <= minimum <= mappingTable.Length
        invariant fresh(Repr()) && activeEntries == 0 && minimumPages == minimum
        invariant mapPages == tablePages && mappingTable == table
      {
        AddPage();
      }
    }

    method Min() returns (found: bool, key: K, value: V)
      requires Valid() && TotalPreorder(compare)
      ensures found <==> Flat() != []
      ensures found ==> Entry(key, value) == Flat()[0]
      ensures found ==> forall e :: e in Flat() ==> Le(compare, Entry(key, value), e)
    {
      key, value := *, *;
      found := activeEntries != 0;
      if found {
        var root := GetEntry(0);
        key, value := root.key, root.value;
        MinRemovedIsHeap(compare, Flat());
      }
    }

    // Grows the page table by one page when the pages fill it.
    method GrowTable()
      requires Mapped() && allocatedPages == mappingTable.Length
      modifies this
      ensures Mapped() && allocatedPages < mappingTable.Length && fresh(mappingTable)
      ensures pages == old(pages) && slots == old(slots)
      ensures activeEntries == old(activeEntries) && minimumPages == old(minimumPages)
      ensures mapPages == old(mapPages) + 1 && allocatedPages == old(allocatedPages)
    {
      var newSlots := (mapPages + 1) * pageBytes / POINTER_BYTES;
      TableDivides(mapPages + 1, entriesPerPage);
      assert (mapPages + 1) * pageBytes == mapPages * pageBytes + pageBytes;
      var oldTable := mappingTable;
      var table := new array?<Entry<K, V>>[newSlots](_ => null);
      forall i | 0 <= i < oldTable.Length {
        table[i] := oldTable[i];
      }
      mappingTable := table;
      mapPages := mapPages + 1;
      forall p | 0 <= p < |pages| ensures PageMapped(p) {
        assert old(PageMapped(p));
      }
    }

    // Changes the number of entries in use.
    method SetActive(n: nat)
      requires Mapped() && n <= |slots|
      modifies this`activeEntries
      ensures Mapped() && activeEntries == n
    {
      activeEntries := n;
      forall p | 0 <= p < |pages| ensures PageMapped(p) {
        assert old(PageMapped(p));
      }
    }

    // Maps one more page when the mapped ones are full.
    method MakeRoom()
      requires Valid()
      modifies this, mappingTable
      ensures Mapped() && activeEntries < |slots| && fresh(Repr() - old(Repr()))
      ensures activeEntries == old(activeEntries) && minimumPages == old(minimumPages)
      ensures old(slots) <= slots && SpareAtMostOne(activeEntries + 1)
    {
      PagesForStep(activeEntries, entriesPerPage);
      if activeEntries + 1 > allocatedPages * entriesPerPage {
        PagesForFull(activeEntries, entriesPerPage, allocatedPages);
        if allocatedPages + 1 > mapPages * pageBytes / POINTER_BYTES {
          TableDivides(mapPages, entriesPerPage);
          GrowTable();
        }
        AddPage();
      }
    }

    method Insert(key: K, value: V)
      requires Valid() && TotalPreorder(compare)
      modifies Repr()
      ensures Valid() && fresh(Repr() - old(Repr()))
      ensures minimumPages == old(minimumPages)
      ensures Flat() == Inserted(compare, old(Flat()), Entry(key, value))
      ensures multiset(Flat()) == multiset(old(Flat())) + multiset{Entry(key, value)}
    {
      ghost var before, n := Flat(), activeEntries;
      var x := Entry(key, value);
      InsertedIsHeap(compare, before, x);
      MakeRoom();
      var cur := activeEntries;
      assert slots[..n + 1][cur := x] == before + [x];
      while cur > 0
        invariant 0 <= cur <= n < |slots| && Mapped() && activeEntries == n
        invariant fresh(Repr() - old(Repr())) && minimumPages == old(minimumPages)
        invariant SpareAtMostOne(n + 1)
        invariant SiftUp(compare, slots[..n + 1][cur := x], cur) == Inserted(compare, before, x)
        decreases cur
      {
        var parentIndex := (cur - 1) / 2;
        var parent := GetEntry(parentIndex);
        if compare(key, parent.key) < 0 {
          ghost var view := slots[..n + 1][cur := x];
          SetEntry(cur, parent);
          assert slots[..n + 1][parentIndex := x] == Swap(view, cur, parentIndex);
          cur := parentIndex;
        } else {
          break;
        }
      }
      assert SiftUp(compare, slots[..n + 1][cur := x], cur) == slots[..n + 1][cur := x];
      SetEntry(cur, x);
      SetActive(activeEntries + 1);
      assert Flat() == Inserted(compare, before, x);
    }

    // Unmaps the last page when two pages would be empty.
    method ReleasePage()
      requires Mapped() && SpareAtMostOne(activeEntries + 1)
      modifies this`allocatedPages, this`pages, this`slots
      ensures Mapped() && SpareAtMostOne(activeEntries)
      ensures slots <= old(slots) && pages <= old(pages)
    {
      var usedPages := PagesFor(activeEntries, entriesPerPage);
      PagesForStep(activeEntries, entriesPerPage);
      if allocatedPages > usedPages + 1 && allocatedPages > minimumPages {
        PagesForBounds(activeEntries, entriesPerPage);
        UnmapLast(allocatedPages - 1, usedPages);
      }
    }

    method UnmapLast(left: nat, ghost usedPages: nat)
      requires Mapped() && allocatedPages == left + 1 && minimumPages <= left
      requires usedPages <= left && activeEntries <= usedPages * entriesPerPage
      modifies this`allocatedPages, this`pages, this`slots
      ensures Mapped() && allocatedPages == left
      ensures slots <= old(slots) && pages <= old(pages)
    {
      MulLe(usedPages, left, entriesPerPage);
      assert (left + 1) * entriesPerPage == left * entriesPerPage + entriesPerPage;
      allocatedPages := left;
      pages := pages[..left];
      slots := slots[..left * entriesPerPage];
      forall p | 0 <= p < |pages| ensures PageMapped(p) {
        assert old(PageMapped(p));
        MulLe(p + 1, left, entriesPerPage);
      }
    }

    // The child of cur that sorts first.
    function PickChild(cur: nat): (child: nat)
      requires Mapped() && 2 * cur + 1 < activeEntries
      reads this, mappingTable, pages
      ensures child == SmallerChild(compare, Flat(), cur)
    {
      var left := 2 * cur + 1;
      if left + 1 < activeEntries then
        if compare(GetEntry(left).key, GetEntry(left + 1).key) <= 0 then left else left + 1
      else left
    }

    method SwapEntries(i: nat, j: nat)
      requires Mapped() && i < activeEntries && j < activeEntries && i != j
      modifies this`slots, pages
      ensures Mapped() && |slots| == old(|slots|)
      ensures Flat() == Swap(old(Flat()), i, j)
    {
      var a := GetEntry(i);
      var b := GetEntry(j);
      SetEntry(i, b);
      SetEntry(j, a);
    }

    // Sifts the entry at the root down to its place.
    method SiftRoot()
      requires Mapped() && activeEntries > 0
      modifies this`slots, pages
      ensures Mapped() && |slots| == old(|slots|)
      ensures Flat() == SiftDown(compare, old(Flat()), 0)
    {
      var cur: nat := 0;
      while 2 * cur + 1 < activeEntries
        invariant cur < activeEntries && Mapped() && |slots| == old(|slots|)
        invariant SiftDown(compare, Flat(), cur) == SiftDown(compare, old(Flat()), 0)
        decreases activeEntries - cur
      {
        var current := GetEntry(cur);
        var child := PickChild(cur);
        if compare(current.key, GetEntry(child).key) == 1 {
          SwapEntries(cur, child);
          cur := child;
        } else {
          break;
        }
      }
    }

    // Moves the last entry to the root and sifts it down.
    method TakeRoot()
      requires Mapped() && activeEntries > 0
      modifies this`activeEntries, this`slots, pages
      ensures Mapped() && |slots| == old(|slots|)
      ensures activeEntries == old(activeEntries) - 1
      ensures Flat() == MinRemoved(compare, old(Flat()))
    {
      ghost var before := Flat();
      SetActive(activeEntries - 1);
      if activeEntries > 0 {
        var last := GetEntry(activeEntries);
        SetEntry(0, last);
        assert Flat() == before[..|before| - 1][0 := before[|before| - 1]];
        SiftRoot();
      }
    }

    method DelMin() returns (found: bool, key: K, value: V)
      requires Valid() && TotalPreorder(compare)
      modifies this, pages
      ensures Valid() && pages <= old(pages) && mappingTable == old(mappingTable)
      ensures minimumPages == old(minimumPages)
      ensures found <==> old(Flat()) != []
      ensures !found ==> Flat() == []
      ensures found ==> Entry(key, value) == old(Flat())[0] && Flat() == MinRemoved(compare, old(Flat()))
      ensures found ==> forall e :: e in old(Flat()) ==> Le(compare, Entry(key, value), e)
      ensures found ==> multiset(old(Flat())) == multiset(Flat()) + multiset{Entry(key, value)}
    {
      key, value := *, *;
      found := activeEntries != 0;
      if found {
        MinRemovedIsHeap(compare, Flat());
        var root := GetEntry(0);
        key, value := root.key, root.value;
        TakeRoot();
        assert SpareAtMostOne(activeEntries + 1);
        ReleasePage();
        assert Flat() == MinRemoved(compare, old(Flat()));
      }
    }

    // destroy_queue's loop: takes entries until none is left.
    method Drain() returns (out: seq<Entry<K, V>>)
      requires Valid() && TotalPreorder(compare)
      modifies this, pages
      ensures Valid() && Flat() == []
      ensures out == Drained(compare, old(Flat()))
      ensures Sorted(compare, out) && multiset(out) == multiset(old(Flat()))
    {
      out := [];
      DrainedSorts(compare, Flat());
      while true
        invariant Valid() && pages <= old(pages)
        invariant out + Drained(compare, Flat()) == Drained(compare, old(Flat()))
        decreases |Flat()|
      {
        ghost var left := Flat();
        var found, key, value := DelMin();
        if !found {
          break;
        }
        DrainedStep(compare, left, out);
        out := out + [Entry(key, value)];
      }
    }
  }

  lemma DrainedStep<K, V>(cmp: (K, K) -> int, s: seq<Entry<K, V>>, out: seq<Entry<K, V>>)
    requires s != []
    ensures out + Drained(cmp, s) == (out + [s[0]]) + Drained(cmp, MinRemoved(cmp, s))
  {
  }
}
