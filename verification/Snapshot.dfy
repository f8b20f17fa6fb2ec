/** The key file of a snapshot: dumping the page headers with their keys, and the
    load loop that reads them back at the next start. */
module Snapshot {
  import opened Bits
  import opened Bytes
  import opened Options

  // A key of a page: the page its meta record names, its value's offset.
  datatype KeyRec = KeyRec(page: nat, offset: nat, key: Str)

  datatype Head = Head(offsetBytes: nat, keys: seq<KeyRec>)

  // The widths of the fields: two bytes for offsets, eight for the page.
  predicate RecFits(r: KeyRec) {
    r.page < 0x1_0000_0000_0000_0000 && r.offset < 0x1_0000
  }

  ghost predicate HeadFits(h: Head) {
    h.offsetBytes < 0x1_0000 && forall i :: 0 <= i < |h.keys| ==> RecFits(h.keys[i])
  }

  ghost predicate AllFit(hs: seq<Head>) {
    forall i :: 0 <= i < |hs| ==> HeadFits(hs[i])
  }

  // ----- what is written -----

  function RecLength(r: KeyRec): nat {
    8 + 2 + 2 + |r.key|
  }

  function RecBytes(r: KeyRec): (b: seq<Byte>)
    ensures |b| == 8 + RecLength(r)
  {
    Le(RecLength(r), 8) + Le(r.page, 8) + Le(r.offset, 2) + Le(|r.key|, 2) + r.key
  }

  function RecsBytes(keys: seq<KeyRec>): seq<Byte> {
    if keys == [] then [] else RecBytes(keys[0]) + RecsBytes(keys[1..])
  }

  // The number of keys is cut to two bytes.
  function HeadBytes(h: Head): seq<Byte> {
    Le(h.offsetBytes, 2) + Le(|h.keys| % 0x1_0000, 2) + RecsBytes(h.keys)
  }

  function HeadsBytes(hs: seq<Head>): seq<Byte> {
    if hs == [] then [] else HeadBytes(hs[0]) + HeadsBytes(hs[1..])
  }

  function Total(hs: seq<Head>): nat {
    if hs == [] then 0 else |hs[0].keys| + Total(hs[1..])
  }

  // The keys of several dumps together.
  function Totals(dumps: seq<seq<Head>>): nat {
    if dumps == [] then 0 else Totals(dumps[..|dumps| - 1]) + Total(dumps[|dumps| - 1])
  }

  // Where the fields of a key record lie: the length of the rest, the page, the
  // offset, and the key behind its size.
  lemma RecFields(r: KeyRec)
    requires RecFits(r)
    ensures var b, k := RecBytes(r), |r.key|;
      && |b| == 20 + k && LeValue(b[..8]) == |b| - 8 && LeValue(b[8..16]) == r.page && LeValue(b[16..18]) == r.offset
      && LeValue(b[18..20]) == k && b[20..] == r.key
  {
    hide Le, LeValue;
    WidthBounds();
    LeRoundTrip(RecLength(r), 8);
    LeRoundTrip(r.page, 8);
    LeRoundTrip(r.offset, 2);
    LeRoundTrip(|r.key|, 2);
    Fields(Le(RecLength(r), 8), Le(r.page, 8), Le(r.offset, 2), Le(|r.key|, 2), r.key);
  }

  lemma Fields(a: seq<Byte>, b: seq<Byte>, c: seq<Byte>, d: seq<Byte>, key: seq<Byte>)
    requires |a| == |b| == 8 && |c| == |d| == 2
    ensures var r := a + b + c + d + key;
      r[..8] == a && r[8..16] == b && r[16..18] == c && r[18..20] == d && r[20..] == key
  {
  }

  // Where key i of a page begins among the page's bytes, and a page among all.
  function RecStart(h: Head, i: nat): nat
    requires i <= |h.keys|
  {
    4 + |RecsBytes(h.keys[..i])|
  }

  function HeadStart(hs: seq<Head>, p: nat): nat
    requires p <= |hs|
  {
    |HeadsBytes(hs[..p])|
  }

  lemma {:induction false} HeadsSplit(hs: seq<Head>, p: nat)
    requires p <= |hs|
    ensures HeadsBytes(hs) == HeadsBytes(hs[..p]) + HeadsBytes(hs[p..])
    decreases p
  {
    hide HeadBytes;
    if p > 0 {
      HeadsSplit(hs[1..], p - 1);
      assert hs[1..][..p - 1] == hs[..p][1..] && hs[1..][p - 1..] == hs[p..];
      Reassociate(HeadBytes(hs[0]), HeadsBytes(hs[..p][1..]), HeadsBytes(hs[p..]));
    } else {
      assert hs[..0] == [] && hs[0..] == hs;
    }
  }

  // What follows a start among the bytes begins with what starts there.
  lemma StartsThere(all: seq<Byte>, before: seq<Byte>, it: seq<Byte>, rest: seq<Byte>)
    requires all == before + (it + rest)
    ensures |before| + |it| <= |all| && all[|before|..|before| + |it|] == it
  {
  }

  lemma HeadThere(hs: seq<Head>, p: nat)
    requires p < |hs|
    ensures var all, at := HeadsBytes(hs), HeadStart(hs, p);
      at + |HeadBytes(hs[p])| <= |all| && all[at..at + |HeadBytes(hs[p])|] == HeadBytes(hs[p])
  {
    hide HeadBytes;
    HeadsSplit(hs, p);
    assert hs[p..][0] == hs[p];
    StartsThere(HeadsBytes(hs), HeadsBytes(hs[..p]), HeadBytes(hs[p]), HeadsBytes(hs[p..][1..]));
  }

  lemma RecThere(h: Head, i: nat)
    requires i < |h.keys|
    ensures var all, at := HeadBytes(h), RecStart(h, i);
      at + |RecBytes(h.keys[i])| <= |all| && all[at..at + |RecBytes(h.keys[i])|] == RecBytes(h.keys[i])
  {
    hide RecBytes, Le;
    RecsSplit(h.keys, i);
    assert h.keys[i..][0] == h.keys[i];
    var front := Le(h.offsetBytes, 2) + Le(|h.keys| % 0x1_0000, 2);
    var it, rest := RecBytes(h.keys[i]), RecsBytes(h.keys[i..][1..]);
    Reassociate(front, RecsBytes(h.keys[..i]), it + rest);
    StartsThere(HeadBytes(h), front + RecsBytes(h.keys[..i]), it, rest);
  }

  // In what a dump writes, each key's record has the page that its meta record
  // names and the offset of its value.
  lemma DumpedFields(hs: seq<Head>, p: nat, i: nat)
    requires p < |hs| && i < |hs[p].keys| && HeadFits(hs[p])
    ensures var all, at := HeadsBytes(hs), HeadStart(hs, p) + RecStart(hs[p], i);
      var r := hs[p].keys[i];
      && at + |RecBytes(r)| <= |all|
      && LeValue(all[at + 8..at + 16]) == r.page && LeValue(all[at + 16..at + 18]) == r.offset
      && LeValue(all[at + 18..at + 20]) == |r.key| && all[at + 20..at + 20 + |r.key|] == r.key
  {
    hide HeadsBytes, HeadBytes, RecsBytes, RecBytes, LeValue, RecStart, HeadStart;
    var all, r := HeadsBytes(hs), hs[p].keys[i];
    var head, from, n := HeadStart(hs, p), RecStart(hs[p], i), |RecBytes(r)|;
    HeadThere(hs, p);
    RecThere(hs[p], i);
    RecFields(r);
    SliceOfSlice(all, head, |HeadBytes(hs[p])|, from, from + n);
    SliceOfSlice(all, head + from, n, 8, 16);
    SliceOfSlice(all, head + from, n, 16, 18);
    SliceOfSlice(all, head + from, n, 18, 20);
    SliceOfSlice(all, head + from, n, 20, n);
  }

  // The dump of sound pages: every record of page p carries p.
  lemma DumpNamesPages(hs: seq<Head>, p: nat, i: nat)
    requires p < |hs| && i < |hs[p].keys| && HeadFits(hs[p]) && Sound(hs[p], p)
    ensures var all, at := HeadsBytes(hs), HeadStart(hs, p) + RecStart(hs[p], i);
      at + 18 <= |all| && LeValue(all[at + 8..at + 16]) == p && LeValue(all[at + 16..at + 18]) == hs[p].keys[i].offset
  {
    hide HeadsBytes, RecStart, HeadStart;
    DumpedFields(hs, p, i);
  }

  // ----- what is read -----

  // One key of the page being loaded, with the bytes consumed. The page number
  // in the record is read but the loop's own is used.
  function ParseRec(b: seq<Byte>, page: nat): (r: Option<(KeyRec, nat)>)
    ensures r.Some? ==> 0 < r.value.1 <= |b|
  {
    if |b| < 8 then None else
    var length := LeValue(b[..8]);
    if |b| < 8 + length then None else
    var body := ParseBody(b[8..8 + length], page);
    if body.None? then None else Some((body.value, 8 + length))
  }

  function ParseBody(b: seq<Byte>, page: nat): Option<KeyRec> {
    if |b| < 12 then None else
    var size := LeValue(b[10..12]);
    if |b| < 12 + size || size >= 0x1_0000 then None else
    Some(KeyRec(page, LeValue(b[8..10]), b[12..12 + size]))
  }

  // Up to n keys; the end of the file between two keys ends the page.
  function ParseRecs(b: seq<Byte>, n: nat, page: nat): (r: Option<(seq<KeyRec>, nat)>)
    ensures r.Some? ==> r.value.1 <= |b| && |r.value.0| <= n
  {
    if n == 0 || b == [] then Some(([], 0)) else
    var first := ParseRec(b, page);
    if first.None? then None else
    var rest := ParseRecs(b[first.value.1..], n - 1, page);
    if rest.None? then None else Some(([first.value.0] + rest.value.0, first.value.1 + rest.value.1))
  }

  // The pages from one number up to the count; the end of the file ends it.
  // None: a short read leaves memory that was never set.
  function Load(b: seq<Byte>, page: nat, pages: nat): (r: Option<seq<Head>>)
    decreases pages - page
  {
    if page >= pages || b == [] then Some([]) else
    if |b| < 4 then None else
    var keys := ParseRecs(b[4..], LeValue(b[2..4]), page);
    if keys.None? then None else
    Prepended([Head(LeValue(b[..2]), keys.value.0)], Load(b[4 + keys.value.1..], page + 1, pages))
  }

  function Prepended(front: seq<Head>, r: Option<seq<Head>>): Option<seq<Head>> {
    if r.None? then None else Some(front + r.value)
  }

  // ----- the round trip -----

  function OnPage(r: KeyRec, page: nat): KeyRec {
    r.(page := page)
  }

  function AllOnPage(keys: seq<KeyRec>, page: nat): (r: seq<KeyRec>)
    ensures |r| == |keys| && forall i :: 0 <= i < |keys| ==> r[i] == OnPage(keys[i], page)
  {
    if keys == [] then [] else [OnPage(keys[0], page)] + AllOnPage(keys[1..], page)
  }

  lemma RecRoundTrip(r: KeyRec, page: nat, rest: seq<Byte>)
    requires RecFits(r)
    ensures ParseRec(RecBytes(r) + rest, page) == Some((OnPage(r, page), |RecBytes(r)|))
  {
    hide Le, LeValue;
    var b := RecBytes(r) + rest;
    WidthBounds();
    LeRoundTrip(RecLength(r), 8);
    LeRoundTrip(r.offset, 2);
    LeRoundTrip(|r.key|, 2);
    assert b[..8] == Le(RecLength(r), 8);
    var body := Le(r.page, 8) + Le(r.offset, 2) + Le(|r.key|, 2) + r.key;
    assert b[8..8 + RecLength(r)] == body;
    assert body[8..10] == Le(r.offset, 2);
    assert body[10..12] == Le(|r.key|, 2);
    assert body[12..12 + |r.key|] == r.key;
  }

  lemma {:induction false} RecsRoundTrip(keys: seq<KeyRec>, n: nat, page: nat, rest: seq<Byte>)
    requires n <= |keys| && forall i :: 0 <= i < |keys| ==> RecFits(keys[i])
    ensures ParseRecs(RecsBytes(keys) + rest, n, page) == Some((AllOnPage(keys[..n], page), |RecsBytes(keys[..n])|))
    decreases keys
  {
    hide ParseRec, RecBytes;
    if n > 0 {
      var first, tail := RecBytes(keys[0]), RecsBytes(keys[1..]);
      Reassociate(first, tail, rest);
      Reassociate(first, tail + rest, []);
      RecRoundTrip(keys[0], page, tail + rest);
      RecsRoundTrip(keys[1..], n - 1, page, rest);
      assert keys[..n][1..] == keys[1..][..n - 1];
    }
  }

  // A page that comes back as it was: its keys can be counted, and their meta
  // records name this page.
  ghost predicate Sound(h: Head, page: nat) {
    |h.keys| < 0x1_0000 && forall i :: 0 <= i < |h.keys| ==> h.keys[i].page == page
  }

  ghost predicate AllSound(hs: seq<Head>, page: nat) {
    forall i :: 0 <= i < |hs| ==> Sound(hs[i], page + i)
  }

  // The key list read for a page is the one dumped exactly when the page is sound.
  lemma HeadComesBackIff(h: Head, page: nat)
    ensures AllOnPage(h.keys[..|h.keys| % 0x1_0000], page) == h.keys <==> Sound(h, page)
  {
    var r := AllOnPage(h.keys[..|h.keys| % 0x1_0000], page);
    if r == h.keys {
      forall i | 0 <= i < |h.keys| ensures h.keys[i].page == page {
        assert r[i].page == page;
      }
    }
    if Sound(h, page) {
      forall i | 0 <= i < |h.keys| ensures r[i] == h.keys[i] {
      }
    }
  }

  lemma {:induction false} RecsSplit(keys: seq<KeyRec>, n: nat)
    requires n <= |keys|
    ensures RecsBytes(keys) == RecsBytes(keys[..n]) + RecsBytes(keys[n..])
  {
    hide RecBytes;
    if n == 0 {
      assert keys[..0] == [] && keys[0..] == keys && [] + RecsBytes(keys) == RecsBytes(keys);
    } else {
      RecsSplit(keys[1..], n - 1);
      assert keys[..n][1..] == keys[1..][..n - 1] && keys[1..][n - 1..] == keys[n..];
      Reassociate(RecBytes(keys[0]), RecsBytes(keys[1..][..n - 1]), RecsBytes(keys[n..]));
    }
  }

  // What the loop makes of one dumped page, and where it goes on: the keys that
  // were not counted are taken for the next pages.
  lemma LoadHead(h: Head, tail: seq<Byte>, page: nat, pages: nat)
    requires page < pages && HeadFits(h)
    ensures var n := |h.keys| % 0x1_0000;
      Load(HeadBytes(h) + tail, page, pages) ==
        Prepended([Head(h.offsetBytes, AllOnPage(h.keys[..n], page))], Load(RecsBytes(h.keys[n..]) + tail, page + 1, pages))
  {
    hide HeadBytes, LeValue, ParseRecs, RecsBytes, AllOnPage, Prepended;
    var n := |h.keys| % 0x1_0000;
    var b := HeadBytes(h) + tail;
    HeadFront(h, tail);
    RecsRoundTrip(h.keys, n, page, tail);
    RecsSplit(h.keys, n);
    assert b[4 + |RecsBytes(h.keys[..n])|..] == RecsBytes(h.keys[n..]) + tail;
  }

  lemma HeadFront(h: Head, tail: seq<Byte>)
    requires HeadFits(h)
    ensures var b := HeadBytes(h) + tail;
      |b| >= 4 && LeValue(b[..2]) == h.offsetBytes && LeValue(b[2..4]) == |h.keys| % 0x1_0000
      && b[4..] == RecsBytes(h.keys) + tail
  {
    hide Le, LeValue, RecsBytes;
    var n := |h.keys| % 0x1_0000;
    var b := HeadBytes(h) + tail;
    WidthBounds();
    LeRoundTrip(h.offsetBytes, 2);
    LeRoundTrip(n, 2);
    assert b[..2] == Le(h.offsetBytes, 2) && b[2..4] == Le(n, 2);
    assert b[4..] == RecsBytes(h.keys) + tail;
  }

  // Loading what was dumped rebuilds every page, its keys in their order with
  // their offsets, exactly when every page is sound.
  lemma {:induction false} LoadDumpIff(hs: seq<Head>, page: nat, pages: nat)
    requires pages >= page + |hs| && AllFit(hs)
    ensures Load(HeadsBytes(hs), page, pages) == Some(hs) <==> AllSound(hs, page)
    decreases |hs|
  {
    hide HeadBytes, RecsBytes, Load, Sound, AllSound, AllOnPage;
    if hs == [] {
      LoadNothing(page, pages);
      return;
    }
    var h, tail := hs[0], HeadsBytes(hs[1..]);
    var n := |h.keys| % 0x1_0000;
    assert HeadFits(h);
    LoadHead(h, tail, page, pages);
    HeadComesBackIff(h, page);
    SoundTail(hs, page);
    assert hs == [h] + hs[1..];
    if Sound(h, page) {
      SoundCount(h, page);
      assert h.keys[..n] == h.keys;
      assert h.keys[n..] == [] && RecsBytes([]) + tail == tail by {
        NoRecs(tail);
      }
      LoadDumpIff(hs[1..], page + 1, pages);
    }
  }

  lemma NoRecs(tail: seq<Byte>)
    ensures RecsBytes([]) + tail == tail
  {
  }

  lemma LoadNothing(page: nat, pages: nat)
    ensures HeadsBytes([]) == [] && Load([], page, pages) == Some([]) && AllSound([], page)
  {
  }

  lemma SoundCount(h: Head, page: nat)
    requires Sound(h, page)
    ensures |h.keys| % 0x1_0000 == |h.keys|
  {
  }

  lemma SoundTail(hs: seq<Head>, page: nat)
    requires hs != []
    ensures AllSound(hs, page) <==> Sound(hs[0], page) && AllSound(hs[1..], page + 1)
  {
    hide Sound;
    if AllSound(hs, page) {
      assert Sound(hs[0], page + 0);
      forall i | 0 <= i < |hs[1..]| ensures Sound(hs[1..][i], page + 1 + i) {
        assert Sound(hs[i + 1], page + (i + 1));
      }
    }
    if Sound(hs[0], page) && AllSound(hs[1..], page + 1) {
      forall i | 0 <= i < |hs| ensures Sound(hs[i], page + i) {
        if i > 0 {
          assert Sound(hs[1..][i - 1], page + 1 + (i - 1));
        }
      }
    }
  }

  // ----- the writer -----

  // The file up to a position that may lie behind its end.
  function Upto(b: seq<Byte>, pos: nat): (r: seq<Byte>)
    ensures |r| == pos
  {
    if pos <= |b| then b[..pos] else b + Zeros(pos - |b|)
  }

  lemma WriteUpto(b: seq<Byte>, pos: nat, data: seq<Byte>)
    ensures Upto(Overwritten(b, pos, data), pos + |data|) == Upto(b, pos) + data
  {
  }

  lemma {:induction false} RecsOneMore(keys: seq<KeyRec>, r: KeyRec)
    ensures RecsBytes(keys + [r]) == RecsBytes(keys) + RecBytes(r)
  {
    hide RecBytes;
    if keys == [] {
      assert [r][1..] == [] && RecsBytes([]) == [];
    } else {
      RecsOneMore(keys[1..], r);
      assert (keys + [r])[1..] == keys[1..] + [r];
      Reassociate(RecBytes(keys[0]), RecsBytes(keys[1..]), RecBytes(r));
    }
  }

  lemma {:induction false} HeadsOneMore(hs: seq<Head>, h: Head)
    ensures HeadsBytes(hs + [h]) == HeadsBytes(hs) + HeadBytes(h) && Total(hs + [h]) == Total(hs) + |h.keys|
  {
    hide HeadBytes;
    if hs == [] {
      assert [h][1..] == [] && HeadsBytes([]) == [];
    } else {
      HeadsOneMore(hs[1..], h);
      assert (hs + [h])[1..] == hs[1..] + [h];
      Reassociate(HeadBytes(hs[0]), HeadsBytes(hs[1..]), HeadBytes(h));
    }
  }

  class Disk {
    const kfd: File
    var keysDumped: nat

    // The dumps of this session.
    ghost var dumps: seq<seq<Head>>

    // All dumps are counted; the file holds the last one.
    ghost predicate Valid()
      reads this, kfd
    {
      && keysDumped == Totals(dumps)
      && (dumps != [] ==> |kfd.bytes| >= 8 && kfd.bytes[8..] == HeadsBytes(dumps[|dumps| - 1]))
    }

    constructor (content: seq<Byte>)
      ensures Valid() && fresh(kfd) && kfd.bytes == content && dumps == []
    {
      kfd := new File(content);
      keysDumped, dumps := 0, [];
    }

    // disk_dump_keys: the first eight bytes stay, behind them the pages as they
    // are now and nothing else; what it counts is what it wrote.
    method DumpKeys(hs: seq<Head>) returns (bytes: nat)
      requires Valid()
      modifies this, kfd
      ensures Valid() && dumps == old(dumps) + [hs]
      ensures kfd.bytes == Upto(old(kfd.bytes), 8) + HeadsBytes(hs) && bytes == |kfd.bytes|
      ensures keysDumped == old(keysDumped) + Total(hs)
    {
      hide Upto, Overwritten, Le, RecBytes, RecsBytes, HeadsBytes;
      ghost var front := Upto(kfd.bytes, 8);
      kfd.SeekSet(8);
      bytes := 8;
      var page: nat := 0;
      NothingDumped(hs);
      while page < |hs|
        invariant page <= |hs| && kfd.pos == bytes == 8 + |HeadsBytes(hs[..page])|
        invariant Upto(kfd.bytes, bytes) == front + HeadsBytes(hs[..page])
        invariant keysDumped == old(keysDumped) + Total(hs[..page]) && dumps == old(dumps)
      {
        HeadsOneMore(hs[..page], hs[page]);
        assert hs[..page + 1] == hs[..page] + [hs[page]];
        ghost var before := front + HeadsBytes(hs[..page]);
        DumpHead(hs[page], before);
        bytes := kfd.pos;
        Reassociate(front, HeadsBytes(hs[..page]), HeadBytes(hs[page]));
        page := page + 1;
      }
      assert hs[..page] == hs;
      kfd.bytes := Upto(kfd.bytes, bytes);
      assert kfd.bytes[8..] == HeadsBytes(hs);
      assert (dumps + [hs])[..|dumps|] == dumps;
      dumps := dumps + [hs];
    }

    lemma NothingDumped(hs: seq<Head>)
      ensures HeadsBytes(hs[..0]) == [] && Total(hs[..0]) == 0
      ensures Upto(kfd.bytes, 8) == Upto(kfd.bytes, 8) + HeadsBytes(hs[..0])
    {
    }

    // One page: its header, then its keys.
    method DumpHead(h: Head, ghost before: seq<Byte>)
      requires Upto(kfd.bytes, kfd.pos) == before
      modifies this`keysDumped, kfd
      ensures kfd.pos == old(kfd.pos) + |HeadBytes(h)| && Upto(kfd.bytes, kfd.pos) == before + HeadBytes(h)
      ensures keysDumped == old(keysDumped) + |h.keys|
    {
      hide Upto, Overwritten, Le, RecBytes;
      WriteUpto(kfd.bytes, kfd.pos, Le(h.offsetBytes, 2));
      kfd.Write(Le(h.offsetBytes, 2));
      WriteUpto(kfd.bytes, kfd.pos, Le(|h.keys| % 0x1_0000, 2));
      kfd.Write(Le(|h.keys| % 0x1_0000, 2));
      ghost var head := Le(h.offsetBytes, 2) + Le(|h.keys| % 0x1_0000, 2);
      Reassociate(before, Le(h.offsetBytes, 2), Le(|h.keys| % 0x1_0000, 2));
      var i: nat := 0;
      assert before + head == before + (head + RecsBytes(h.keys[..0]));
      while i < |h.keys|
        invariant i <= |h.keys| && kfd.pos == old(kfd.pos) + |head + RecsBytes(h.keys[..i])|
        invariant Upto(kfd.bytes, kfd.pos) == before + (head + RecsBytes(h.keys[..i]))
        invariant keysDumped == old(keysDumped) + i
      {
        RecsOneMore(h.keys[..i], h.keys[i]);
        assert h.keys[..i + 1] == h.keys[..i] + [h.keys[i]];
        ghost var done := head + RecsBytes(h.keys[..i]);
        WriteUpto(kfd.bytes, kfd.pos, RecBytes(h.keys[i]));
        kfd.Write(RecBytes(h.keys[i]));
        Reassociate(before, done, RecBytes(h.keys[i]));
        Reassociate(head, RecsBytes(h.keys[..i]), RecBytes(h.keys[i]));
        keysDumped := keysDumped + 1;
        i := i + 1;
      }
      assert h.keys[..i] == h.keys;
    }

    // destroy_disk: the count of all keys dumped in this session goes in front.
    method Close()
      requires Valid() && dumps != []
      modifies kfd
      ensures Valid() && kfd.bytes == Le(Totals(dumps), 8) + HeadsBytes(dumps[|dumps| - 1])
    {
      hide HeadsBytes, Le;
      ghost var before := kfd.bytes;
      kfd.SeekSet(0);
      kfd.Write(Le(keysDumped, 8));
      assert kfd.bytes == Le(keysDumped, 8) + before[8..];
      assert kfd.bytes[8..] == before[8..];
    }
  }

  // ----- the reader -----

  function KeysPrepended(front: seq<KeyRec>, used: nat, r: Option<(seq<KeyRec>, nat)>): Option<(seq<KeyRec>, nat)> {
    if r.None? then None else Some((front + r.value.0, used + r.value.1))
  }

  lemma Prepending(front: seq<Head>, h: Head, r: Option<seq<Head>>)
    ensures Prepended([], r) == r
    ensures Prepended(front + [h], r) == Prepended(front, Prepended([h], r))
    ensures Prepended(front, Some([])) == Some(front) && Prepended(front, None) == None
  {
    assert front + [] == front;
    if r.Some? {
      assert [] + r.value == r.value;
      assert front + [h] + r.value == front + ([h] + r.value);
    }
  }

  lemma KeysPrepending(front: seq<KeyRec>, used: nat, k: KeyRec, n: nat, r: Option<(seq<KeyRec>, nat)>)
    ensures KeysPrepended([], 0, r) == r
    ensures KeysPrepended(front + [k], used + n, r) == KeysPrepended(front, used, KeysPrepended([k], n, r))
    ensures KeysPrepended(front, used, Some(([], 0))) == Some((front, used))
  {
    assert front + [] == front;
    if r.Some? {
      assert [] + r.value.0 == r.value.0;
      assert front + [k] + r.value.0 == front + ([k] + r.value.0);
    }
  }

  // disk_upload_key
  method UploadKey(f: File, page: nat) returns (r: Option<KeyRec>)
    requires f.pos < |f.bytes|
    modifies f`pos
    ensures var p := ParseRec(f.bytes[old(f.pos)..], page);
      if p.None? then r.None? else r == Some(p.value.0) && f.pos == old(f.pos) + p.value.1
  {
    hide LeValue, ParseBody;
    ghost var input := f.bytes[f.pos..];
    var head := f.Read(8);
    if |head| < 8 {
      return None;
    }
    assert head == input[..8];
    var length := LeValue(head);
    var body := f.Read(length);
    if |body| < length {
      return None;
    }
    assert body == input[8..8 + length];
    r := TakeApart(body, page);
  }

  // The copies out of the record.
  method TakeApart(body: seq<Byte>, page: nat) returns (r: Option<KeyRec>)
    ensures r == ParseBody(body, page)
  {
    hide LeValue;
    if |body| < 12 {
      return None;
    }
    var p := 8;
    var offset := LeValue(body[p..p + 2]);
    p := p + 2;
    var size := LeValue(body[p..p + 2]);
    p := p + 2;
    if |body| < p + size || size >= 0x1_0000 {
      return None;
    }
    return Some(KeyRec(page, offset, body[p..p + size]));
  }

  // The keys of one page.
  method UploadKeys(f: File, count: nat, page: nat) returns (r: Option<seq<KeyRec>>)
    requires f.pos <= |f.bytes|
    modifies f`pos
    ensures var p := ParseRecs(f.bytes[old(f.pos)..], count, page);
      if p.None? then r.None? else r == Some(p.value.0) && f.pos == old(f.pos) + p.value.1
  {
    hide ParseRec;
    var keys := [];
    var i: nat := 0;
    ghost var all := ParseRecs(f.bytes[f.pos..], count, page);
    KeysPrepending([], 0, KeyRec(0, 0, []), 0, all);
    while i < count && f.pos < |f.bytes|
      invariant i <= count && old(f.pos) <= f.pos <= |f.bytes|
      invariant KeysPrepended(keys, f.pos - old(f.pos), ParseRecs(f.bytes[f.pos..], count - i, page)) == all
    {
      ghost var before := f.pos;
      ghost var first := ParseRec(f.bytes[before..], page);
      var key := UploadKey(f, page);
      if key.None? {
        return None;
      }
      assert f.bytes[before..][first.value.1..] == f.bytes[f.pos..];
      KeysPrepending(keys, before - old(f.pos), key.value, first.value.1, ParseRecs(f.bytes[f.pos..], count - i - 1, page));
      keys := keys + [key.value];
      i := i + 1;
    }
    KeysPrepending(keys, f.pos - old(f.pos), KeyRec(0, 0, []), 0, None);
    return Some(keys);
  }

  // disk_upload_header behind its test for the end of the file.
  method UploadHeader(f: File) returns (r: Option<(nat, nat)>)
    requires f.pos < |f.bytes|
    modifies f`pos
    ensures var b := f.bytes[old(f.pos)..];
      if |b| < 4 then r.None? else r == Some((LeValue(b[..2]), LeValue(b[2..4]))) && f.pos == old(f.pos) + 4
  {
    hide LeValue;
    ghost var input := f.bytes[f.pos..];
    var offset := f.Read(2);
    if |offset| < 2 {
      return None;
    }
    var count := f.Read(2);
    if |count| < 2 {
      return None;
    }
    assert offset == input[..2] && count == input[2..4];
    return Some((LeValue(offset), LeValue(count)));
  }

  // The loop of db_start over the pages the value file has.
  method LoadPages(f: File, pages: nat) returns (r: Option<seq<Head>>, keys: nat)
    requires f.pos <= |f.bytes|
    modifies f`pos
    ensures r == Load(f.bytes[old(f.pos)..], 0, pages)
    ensures r.Some? ==> keys == Total(r.value)
  {
    hide ParseRecs, HeadsBytes, LeValue, Prepended;
    var heads := [];
    var page: nat := 0;
    keys := 0;
    ghost var all := Load(f.bytes[f.pos..], 0, pages);
    Prepending([], Head(0, []), all);
    while page < pages && f.pos < |f.bytes|
      invariant page <= pages && f.pos <= |f.bytes| && keys == Total(heads)
      invariant Prepended(heads, Load(f.bytes[f.pos..], page, pages)) == all
    {
      ghost var input := f.bytes[f.pos..];
      Prepending(heads, Head(0, []), None);
      var header := UploadHeader(f);
      if header.None? {
        return None, keys;
      }
      var (offset, count) := header.value;
      assert input[4..] == f.bytes[f.pos..];
      ghost var parsed := ParseRecs(input[4..], count, page);
      var found := UploadKeys(f, count, page);
      if found.None? {
        return None, keys;
      }
      assert input[4 + parsed.value.1..] == f.bytes[f.pos..];
      HeadsOneMore(heads, Head(offset, found.value));
      Prepending(heads, Head(offset, found.value), Load(f.bytes[f.pos..], page + 1, pages));
      heads := heads + [Head(offset, found.value)];
      keys := keys + |found.value|;
      page := page + 1;
    }
    Prepending(heads, Head(0, []), None);
    return Some(heads), keys;
  }

  // init_disk and db_start on the key file: whether the check on the number of
  // keys passes.
  method Start(f: File, pages: nat) returns (r: Option<seq<Head>>, passes: bool)
    requires |f.bytes| >= 8
    modifies f`pos
    ensures r == Load(f.bytes[8..], 0, pages)
    ensures r.Some? ==> (passes <==> Total(r.value) >= LeValue(f.bytes[..8]))
  {
    hide LeValue;
    f.SeekSet(0);
    var head := f.Read(8);
    var nkeys := LeValue(head);
    assert head == f.bytes[..8];
    f.SeekSet(8);
    var keys;
    r, keys := LoadPages(f, pages);
    passes := keys >= nkeys;
  }

  // The file a session leaves behind: at the next start the pages of the last
  // dump are loaded, and their keys are compared with the keys of all dumps.
  lemma SessionStarts(dumps: seq<seq<Head>>)
    requires dumps != [] && AllSound(dumps[|dumps| - 1], 0)
    requires AllFit(dumps[|dumps| - 1])
    ensures var last := dumps[|dumps| - 1]; var file := Le(Totals(dumps), 8) + HeadsBytes(last);
      Load(file[8..], 0, |last|) == Some(last) && LeValue(file[..8]) == Totals(dumps) % 0x1_0000_0000_0000_0000
  {
    hide Le, LeValue, Load, HeadsBytes, AllSound;
    var last := dumps[|dumps| - 1];
    var file := Le(Totals(dumps), 8) + HeadsBytes(last);
    LoadDumpIff(last, 0, |last|);
    LeWraps(Totals(dumps), 8);
    WidthBounds();
    assert file[8..] == HeadsBytes(last) && file[..8] == Le(Totals(dumps), 8);
  }

  // While the count does not wrap, the check passes exactly when the earlier
  // dumps of the session had no keys.
  lemma StartCheckIff(dumps: seq<seq<Head>>)
    requires dumps != [] && AllSound(dumps[|dumps| - 1], 0)
    requires AllFit(dumps[|dumps| - 1])
    requires Totals(dumps) < 0x1_0000_0000_0000_0000
    ensures var file := Le(Totals(dumps), 8) + HeadsBytes(dumps[|dumps| - 1]);
      var r := Load(file[8..], 0, |dumps[|dumps| - 1]|);
      r.Some?
      && (Total(r.value) >= LeValue(file[..8]) <==> forall i :: 0 <= i < |dumps| - 1 ==> Total(dumps[i]) == 0)
  {
    hide Le, LeValue, Load, HeadsBytes, AllSound, HeadFits, Total;
    SessionStarts(dumps);
    var earlier := dumps[..|dumps| - 1];
    NoneDumped(earlier);
    assert forall i :: 0 <= i < |earlier| ==> earlier[i] == dumps[i];
  }

  lemma {:induction false} NoneDumped(dumps: seq<seq<Head>>)
    ensures Totals(dumps) == 0 <==> forall i :: 0 <= i < |dumps| ==> Total(dumps[i]) == 0
  {
    hide Total;
    if dumps != [] {
      var front := dumps[..|dumps| - 1];
      NoneDumped(front);
      assert forall i :: 0 <= i < |front| ==> front[i] == dumps[i];
    }
  }
}
