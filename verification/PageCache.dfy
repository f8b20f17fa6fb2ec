/** The page cache: arena slots handed to new and fetched pages, eviction through
    the queue when they run out, and exactly when none of it can be noticed. */
module PageCache {
  import opened Options
  import Lru

  // A page header's location and arena_id. Eviction leaves both as they are; a
  // header that was never in memory names slot 0.
  datatype Place = Place(inMemory: bool, slot: nat)

  // The eviction queue as its pointers, by page number. No page is being
  // processed when a slot is needed, so the page evicted is the bottom one.
  datatype Links = Links(top: Option<nat>, bottom: Option<nat>, next: seq<Option<nat>>)

  datatype Cache<D> = Cache(uploaded: nat, places: seq<Place>, arena: seq<D>, disk: seq<D>, links: Links)

  predicate Within(p: Option<nat>, n: nat) {
    p.Some? ==> p.value < n
  }

  predicate LinksOk(l: Links) {
    && Within(l.top, |l.next|) && Within(l.bottom, |l.next|)
    && forall i :: 0 <= i < |l.next| ==> Within(l.next[i], |l.next|)
  }

  predicate Shape<D>(c: Cache<D>) {
    && c.uploaded <= |c.arena| && |c.disk| == |c.places| == |c.links.next| && LinksOk(c.links)
    && forall p :: 0 <= p < |c.places| ==> c.places[p].slot < |c.arena|
  }

  // ----- the queue -----

  // lru_touch_page
  function Touch(l: Links, p: nat): (r: Links)
    requires LinksOk(l) && p < |l.next|
    ensures LinksOk(r) && |r.next| == |l.next|
  {
    var cut := l.next[p := None];
    Links(Some(p), if l.bottom.None? then Some(p) else l.bottom,
          if l.top.Some? then cut[l.top.value := Some(p)] else cut)
  }

  // least_recent_page with no page being processed
  function Evict(l: Links): (r: Links)
    requires LinksOk(l) && l.bottom.Some?
    ensures LinksOk(r) && |r.next| == |l.next|
  {
    Links(if l.top == l.bottom then None else l.top, l.next[l.bottom.value], l.next)
  }

  ghost function At(q: seq<nat>, i: int): Option<nat> {
    if 0 <= i < |q| then Some(q[i]) else None
  }

  // The pointers make this queue, and the top is known.
  ghost predicate Represents(l: Links, q: seq<nat>) {
    && Lru.Distinct(q) && l.bottom == At(q, 0) && l.top == At(q, |q| - 1)
    && forall i :: 0 <= i < |q| ==> Leads(l, q, i)
  }

  ghost predicate Leads(l: Links, q: seq<nat>, i: int)
    requires 0 <= i < |q|
  {
    q[i] < |l.next| && l.next[q[i]] == At(q, i + 1)
  }

  lemma EvictTakesFirst(l: Links, q: seq<nat>)
    requires LinksOk(l) && Represents(l, q) && q != []
    ensures l.bottom == Some(q[0]) && Represents(Evict(l), q[1..])
  {
    var r := Evict(l);
    assert Leads(l, q, 0);
    forall i | 0 <= i < |q[1..]| ensures Leads(r, q[1..], i) {
      assert Leads(l, q, i + 1);
    }
  }

  // Touching a page does to the queue what it does to the linked headers, but
  // for the top page, which is linked to itself and ends the queue.
  lemma TouchIs(l: Links, q: seq<nat>, p: nat)
    requires LinksOk(l) && Represents(l, q) && p < |l.next|
    ensures l.top != Some(p) ==> Represents(Touch(l, p), Lru.Touched(q, p))
    ensures l.top == Some(p) ==> forall s :: !Represents(Touch(l, p), s)
  {
    var r := Touch(l, p);
    if l.top != Some(p) {
      var t := Lru.Touched(q, p);
      forall i | 0 <= i < |t| ensures Leads(r, t, i) {
        if i < |q| {
          assert Leads(l, q, i);
        }
      }
    } else {
      forall s ensures !Represents(r, s) {
        if Represents(r, s) {
          TopEnds(r, s);
        }
      }
    }
  }

  lemma TopEnds(l: Links, q: seq<nat>)
    requires LinksOk(l) && Represents(l, q)
    ensures l.top.Some? ==> l.next[l.top.value] == None
  {
    if q != [] {
      assert Leads(l, q, |q| - 1);
    }
  }

  // ----- steps -----

  // A header's slot, the page evicted for it, and the cache after that.
  datatype Grant<D> = Grant(slot: nat, victim: Option<nat>, cache: Cache<D>)

  // arena_get_next_page: an unused slot, or that of the least recent page,
  // whose bytes go to disk. None: the queue is empty.
  function NextSlot<D>(c: Cache<D>): (g: Option<Grant<D>>)
    requires Shape(c)
    ensures g.Some? ==> Shape(g.value.cache) && g.value.slot < |c.arena|
    ensures g.Some? ==> g.value.cache.places == c.places && g.value.cache.arena == c.arena
  {
    if c.uploaded < |c.arena| then Some(Grant(c.uploaded, None, c.(uploaded := c.uploaded + 1)))
    else if c.links.bottom.None? then None
    else
      var v := c.links.bottom.value;
      Some(Grant(c.places[v].slot, Some(v),
                 c.(disk := c.disk[v := c.arena[c.places[v].slot]], links := Evict(c.links))))
  }

  // A new page with its first write; a fetch before a read or a removal; a
  // write, which never fetches.
  datatype Step<!D> = Create(data: D) | Fetch(page: nat) | Put(page: nat, write: D -> D)

  // headers_new_page; the place on disk is not there before it is dumped.
  function Created<D>(c: Cache<D>, data: D): Option<Cache<D>>
    requires Shape(c)
  {
    var g := NextSlot(c);
    if g.None? then None else
    var n := g.value.cache;
    Some(n.(places := n.places + [Place(true, g.value.slot)], arena := n.arena[g.value.slot := data],
            disk := n.disk + [data], links := Touch(n.links.(next := n.links.next + [None]), |n.places|)))
  }

  // page_value_get with heat_page: the disk's copy comes into the slot, and the
  // header with the slot's number, not the page's, is touched. None as well
  // when there is no such header.
  function Fetched<D>(c: Cache<D>, p: nat): Option<Cache<D>>
    requires Shape(c) && p < |c.places|
  {
    if c.places[p].inMemory then Some(c) else
    var g := NextSlot(c);
    if g.None? || g.value.slot >= |c.places| then None else
    var n := g.value.cache;
    Some(n.(places := n.places[p := Place(true, g.value.slot)], arena := n.arena[g.value.slot := n.disk[p]],
            links := Touch(n.links, g.value.slot)))
  }

  // page_value_set: the page is taken to be in memory, at the slot its header
  // names.
  function Written<D>(c: Cache<D>, p: nat, write: D -> D): Cache<D>
    requires Shape(c) && p < |c.places|
  {
    var slot := c.places[p].slot;
    c.(places := c.places[p := Place(true, slot)], arena := c.arena[slot := write(c.arena[slot])])
  }

  function Next<D>(c: Cache<D>, s: Step<D>): Option<Cache<D>>
    requires Shape(c)
  {
    match s
    case Create(data) => Created(c, data)
    case Fetch(p) => if p < |c.places| then Fetched(c, p) else None
    case Put(p, write) => if p < |c.places| then Some(Written(c, p, write)) else None
  }

  lemma NextShape<D>(c: Cache<D>, s: Step<D>)
    requires Shape(c) && Next(c, s).Some?
    ensures Shape(Next(c, s).value)
  {
    hide Touch, Evict;
  }

  // ----- a session -----

  function Resident(places: seq<Place>): nat {
    if places == [] then 0
    else Resident(places[..|places| - 1]) + (if places[|places| - 1].inMemory then 1 else 0)
  }

  // There is a slot, a slot in use means a page in the queue and one in memory,
  // and every slot named is also the number of a page.
  ghost predicate Session<D>(c: Cache<D>) {
    && Shape(c) && |c.arena| > 0
    && (c.uploaded > 0 ==> c.links.bottom.Some?)
    && c.uploaded <= Resident(c.places)
    && forall p :: 0 <= p < |c.places| ==> c.places[p].slot < |c.places|
  }

  // As a session starts: every page on disk, no slot and no queue in use.
  lemma SessionBegins<D>(arena: seq<D>, disk: seq<D>)
    requires arena != []
    ensures var n := |disk|; var c := Cache(0, Places(n), arena, disk, Links(None, None, Unlinked(n)));
      Session(c) && Transparent(c, disk) && Apart(c) && Handed(c) && Represents(c.links, [])
  {
  }

  function Places(n: nat): (places: seq<Place>)
    ensures |places| == n && forall p :: 0 <= p < n ==> places[p] == Place(false, 0)
  {
    if n == 0 then [] else Places(n - 1) + [Place(false, 0)]
  }

  function Unlinked(n: nat): (next: seq<Option<nat>>)
    ensures |next| == n && forall p :: 0 <= p < n ==> next[p] == None
  {
    if n == 0 then [] else Unlinked(n - 1) + [None]
  }

  predicate OnPage<D>(n: nat, s: Step<D>) {
    match s
    case Create(_) => true
    case Fetch(p) => p < n
    case Put(p, _) => p < n
  }

  // Every step is on a page there is by then.
  predicate OnPages<D>(n: nat, run: seq<Step<D>>)
    decreases |run|
  {
    run != [] ==> OnPage(n, run[0]) && OnPages(if run[0].Create? then n + 1 else n, run[1..])
  }

  lemma {:induction false} ResidentBound(places: seq<Place>)
    ensures Resident(places) <= |places|
    ensures forall p :: 0 <= p < |places| && !places[p].inMemory ==> Resident(places) < |places|
  {
    if places != [] {
      ResidentBound(places[..|places| - 1]);
    }
  }

  lemma {:induction false} ResidentSet(places: seq<Place>, p: nat, slot: nat)
    requires p < |places|
    ensures Resident(places[p := Place(true, slot)]) == Resident(places) + (if places[p].inMemory then 0 else 1)
  {
    var last := |places| - 1;
    if p < last {
      ResidentSet(places[..last], p, slot);
      assert places[p := Place(true, slot)][..last] == places[..last][p := Place(true, slot)];
    } else {
      assert places[p := Place(true, slot)][..last] == places[..last];
    }
  }

  // In a session every step on a page there is gives a result, and the session
  // goes on.
  lemma SessionGoesOn<D>(c: Cache<D>, s: Step<D>)
    requires Session(c) && OnPage(|c.places|, s)
    ensures Next(c, s).Some? && Session(Next(c, s).value)
    ensures |Next(c, s).value.places| == if s.Create? then |c.places| + 1 else |c.places|
  {
    hide Session, Created, Fetched, Written;
    match s
    case Create(data) => CreateGoesOn(c, data);
    case Fetch(p) => FetchGoesOn(c, p);
    case Put(p, write) => PutGoesOn(c, p, write);
  }

  lemma CreateGoesOn<D>(c: Cache<D>, data: D)
    requires Session(c)
    ensures Shape(c) && Created(c, data).Some? && Session(Created(c, data).value)
    ensures |Created(c, data).value.places| == |c.places| + 1
  {
    ResidentBound(c.places);
    var n := Created(c, data).value;
    assert n.places[..|c.places|] == c.places;
  }

  lemma FetchGoesOn<D>(c: Cache<D>, p: nat)
    requires Session(c) && p < |c.places|
    ensures Shape(c) && Fetched(c, p).Some? && Session(Fetched(c, p).value)
    ensures |Fetched(c, p).value.places| == |c.places|
  {
    hide Evict;
    ResidentBound(c.places);
    if !c.places[p].inMemory {
      ResidentSet(c.places, p, NextSlot(c).value.slot);
    }
  }

  lemma PutGoesOn<D>(c: Cache<D>, p: nat, write: D -> D)
    requires Session(c) && p < |c.places|
    ensures Shape(c) && Session(Written(c, p, write)) && |Written(c, p, write).places| == |c.places|
  {
    ResidentSet(c.places, p, c.places[p].slot);
  }

  // ----- what the users see -----

  // What reading a page gives: its slot, or the disk's copy fetched first.
  function Content<D>(c: Cache<D>, p: nat): D
    requires Shape(c) && p < |c.places|
  {
    if c.places[p].inMemory then c.arena[c.places[p].slot] else c.disk[p]
  }

  // The cache cannot be told from pages that all lie in memory.
  ghost predicate Transparent<D>(c: Cache<D>, pages: seq<D>)
    requires Shape(c)
  {
    |pages| == |c.places| && forall p :: 0 <= p < |pages| ==> Content(c, p) == pages[p]
  }

  // The pages, if all lay in memory.
  function Ideal<D>(pages: seq<D>, s: Step<D>): seq<D> {
    match s
    case Create(data) => pages + [data]
    case Fetch(_) => pages
    case Put(p, write) => if p < |pages| then pages[p := write(pages[p])] else pages
  }

  // Every other page in memory that names the slot holds these bytes anyway.
  ghost predicate Alone<D>(c: Cache<D>, pages: seq<D>, slot: nat, data: D, who: nat)
    requires |pages| == |c.places|
  {
    forall q :: 0 <= q < |c.places| && q != who && c.places[q].inMemory && c.places[q].slot == slot ==> pages[q] == data
  }

  // Dumping the victim does no harm: it is in memory, or the slot its header
  // names holds its own bytes.
  ghost predicate DumpsItself<D>(c: Cache<D>, pages: seq<D>)
    requires Shape(c) && |pages| == |c.places|
  {
    c.uploaded < |c.arena| || c.links.bottom.None? ||
    (var v := c.links.bottom.value; c.places[v].inMemory || c.arena[c.places[v].slot] == pages[v])
  }

  // What a step needs for nobody to notice it.
  ghost predicate Unnoticed<D>(c: Cache<D>, pages: seq<D>, s: Step<D>)
    requires Shape(c) && |pages| == |c.places|
  {
    match s
    case Create(data) =>
      NextSlot(c).Some? ==> DumpsItself(c, pages) && Alone(c, pages, NextSlot(c).value.slot, data, |c.places|)
    case Fetch(p) =>
      p < |pages| && !c.places[p].inMemory && NextSlot(c).Some? ==>
        DumpsItself(c, pages) && Alone(c, pages, NextSlot(c).value.slot, pages[p], p)
    case Put(p, write) =>
      p < |pages| ==>
        write(c.arena[c.places[p].slot]) == write(pages[p]) && Alone(c, pages, c.places[p].slot, write(pages[p]), p)
  }

  // A step goes unnoticed exactly when it meets its condition, whatever page is
  // evicted for it and wherever that page's header says it is.
  lemma StepUnnoticedIff<D>(c: Cache<D>, pages: seq<D>, s: Step<D>)
    requires Shape(c) && Transparent(c, pages) && Next(c, s).Some?
    ensures Shape(Next(c, s).value)
    ensures Transparent(Next(c, s).value, Ideal(pages, s)) <==> Unnoticed(c, pages, s)
  {
    NextShape(c, s);
    match s
    case Create(data) => CreateUnnoticedIff(c, pages, data);
    case Fetch(p) => FetchUnnoticedIff(c, pages, p);
    case Put(p, write) => PutUnnoticedIff(c, pages, p, write);
  }

  lemma CreateUnnoticedIff<D>(c: Cache<D>, pages: seq<D>, data: D)
    requires Shape(c) && Transparent(c, pages) && Created(c, data).Some? && Shape(Created(c, data).value)
    ensures Transparent(Created(c, data).value, pages + [data]) <==> Unnoticed(c, pages, Create(data))
  {
    hide Touch, Evict;
    var g := NextSlot(c).value;
    var n, after := Created(c, data).value, pages + [data];
    forall q | 0 <= q < |pages|
      ensures Content(n, q) == if c.places[q].inMemory && c.places[q].slot == g.slot then data
        else if g.victim == Some(q) && !c.places[q].inMemory then c.arena[g.slot] else pages[q]
      ensures after[q] == pages[q]
    {
      assert Content(c, q) == pages[q];
    }
    assert Content(n, |pages|) == data == after[|pages|];
    if Transparent(n, after) {
      forall q | 0 <= q < |c.places| && c.places[q].inMemory && c.places[q].slot == g.slot ensures pages[q] == data {
        assert Content(n, q) == after[q];
      }
      if g.victim.Some? {
        assert Content(n, g.victim.value) == after[g.victim.value];
      }
    }
  }

  lemma FetchUnnoticedIff<D>(c: Cache<D>, pages: seq<D>, p: nat)
    requires Shape(c) && Transparent(c, pages) && p < |c.places| && Fetched(c, p).Some? && Shape(Fetched(c, p).value)
    ensures Transparent(Fetched(c, p).value, pages) <==> Unnoticed(c, pages, Fetch(p))
  {
    hide Touch, Evict;
    if !c.places[p].inMemory {
      var g := NextSlot(c).value;
      var n := Fetched(c, p).value;
      assert Content(c, p) == pages[p];
      forall q | 0 <= q < |pages| && q != p
        ensures Content(n, q) == if c.places[q].inMemory && c.places[q].slot == g.slot then g.cache.disk[p]
          else if g.victim == Some(q) && !c.places[q].inMemory then c.arena[g.slot] else pages[q]
      {
        assert Content(c, q) == pages[q];
      }
      assert Content(n, p) == g.cache.disk[p] == if g.victim == Some(p) then c.arena[g.slot] else pages[p];
      if Transparent(n, pages) {
        assert Content(n, p) == pages[p];
        forall q | 0 <= q < |c.places| && q != p && c.places[q].inMemory && c.places[q].slot == g.slot
          ensures pages[q] == pages[p]
        {
          assert Content(n, q) == pages[q];
        }
        if g.victim.Some? {
          assert Content(n, g.victim.value) == pages[g.victim.value];
        }
      }
    }
  }

  lemma PutUnnoticedIff<D>(c: Cache<D>, pages: seq<D>, p: nat, write: D -> D)
    requires Shape(c) && Transparent(c, pages) && p < |c.places| && Shape(Written(c, p, write))
    ensures Transparent(Written(c, p, write), pages[p := write(pages[p])]) <==> Unnoticed(c, pages, Put(p, write))
  {
    var slot := c.places[p].slot;
    var n, after := Written(c, p, write), pages[p := write(pages[p])];
    forall q | 0 <= q < |pages| && q != p
      ensures Content(n, q) == if c.places[q].inMemory && c.places[q].slot == slot then write(c.arena[slot]) else pages[q]
      ensures after[q] == pages[q]
    {
      assert Content(c, q) == pages[q];
    }
    assert Content(n, p) == write(c.arena[slot]) && after[p] == write(pages[p]);
    if Transparent(n, after) {
      assert Content(n, p) == after[p];
      forall q | 0 <= q < |c.places| && q != p && c.places[q].inMemory && c.places[q].slot == slot
        ensures pages[q] == write(pages[p])
      {
        assert Content(n, q) == after[q];
      }
    }
  }

  // ----- runs -----

  // No step goes through a bad pointer, and after every one each page reads as if
  // all pages lay in memory.
  ghost predicate Hidden<D>(c: Cache<D>, pages: seq<D>, run: seq<Step<D>>)
    requires Shape(c)
    decreases |run|
  {
    Transparent(c, pages) &&
    (run != [] ==>
       Next(c, run[0]).Some? && (NextShape(c, run[0]); Hidden(Next(c, run[0]).value, Ideal(pages, run[0]), run[1..])))
  }

  // The cache after a step.
  function After<D>(c: Cache<D>, s: Step<D>): (r: Cache<D>)
    requires Shape(c)
    ensures Shape(r)
  {
    var n := Next(c, s);
    if n.None? then c else
    NextShape(c, s);
    n.value
  }

  ghost predicate GoodRun<D>(c: Cache<D>, pages: seq<D>, run: seq<Step<D>>)
    requires Shape(c)
    decreases |run|
  {
    run != [] ==>
      |pages| == |c.places| && Unnoticed(c, pages, run[0]) && GoodRun(After(c, run[0]), Ideal(pages, run[0]), run[1..])
  }

  // Over every run of a session, evictions and writes to pages on disk included,
  // the cache is invisible exactly when every step meets its condition.
  lemma {:induction false} RunHiddenIff<D>(c: Cache<D>, pages: seq<D>, run: seq<Step<D>>)
    requires Session(c) && Transparent(c, pages) && OnPages(|c.places|, run)
    ensures Hidden(c, pages, run) <==> GoodRun(c, pages, run)
    decreases |run|
  {
    SessionShape(c);
    hide Shape, Session, Transparent, Next, Unnoticed, Ideal;
    if run != [] {
      SessionGoesOn(c, run[0]);
      StepUnnoticedIff(c, pages, run[0]);
      SameCount(c, pages);
      if Transparent(Next(c, run[0]).value, Ideal(pages, run[0])) {
        RunHiddenIff(Next(c, run[0]).value, Ideal(pages, run[0]), run[1..]);
      }
    }
  }

  lemma SessionShape<D>(c: Cache<D>)
    requires Session(c)
    ensures Shape(c)
  {
  }

  lemma SameCount<D>(c: Cache<D>, pages: seq<D>)
    requires Shape(c) && Transparent(c, pages)
    ensures |pages| == |c.places|
  {
  }

  // ----- slots -----

  // Each arena slot belongs to at most one page in memory.
  ghost predicate Apart<D>(c: Cache<D>) {
    forall p, q :: 0 <= p < q < |c.places| ==> PairApart(c.places[p], c.places[q])
  }

  ghost predicate PairApart(a: Place, b: Place) {
    a.inMemory && b.inMemory ==> a.slot != b.slot
  }

  // No other page in memory names the slot.
  ghost predicate Unshared<D>(c: Cache<D>, slot: nat, who: nat) {
    forall q :: 0 <= q < |c.places| && q != who && c.places[q].inMemory ==> c.places[q].slot != slot
  }

  lemma PlacedApartIff(places: seq<Place>, p: nat, slot: nat)
    requires p <= |places|
    requires forall a, b :: 0 <= a < b < |places| ==> PairApart(places[a], places[b])
    ensures var after := if p < |places| then places[p := Place(true, slot)] else places + [Place(true, slot)];
      (forall a, b :: 0 <= a < b < |after| ==> PairApart(after[a], after[b])) <==>
      forall q :: 0 <= q < |places| && q != p && places[q].inMemory ==> places[q].slot != slot
  {
    var after := if p < |places| then places[p := Place(true, slot)] else places + [Place(true, slot)];
    if forall a, b :: 0 <= a < b < |after| ==> PairApart(after[a], after[b]) {
      forall q | 0 <= q < |places| && q != p && places[q].inMemory ensures places[q].slot != slot {
        assert if q < p then PairApart(after[q], after[p]) else PairApart(after[p], after[q]);
      }
    }
    if forall q :: 0 <= q < |places| && q != p && places[q].inMemory ==> places[q].slot != slot {
      forall a, b | 0 <= a < b < |after| ensures PairApart(after[a], after[b]) {
        if a != p && b != p {
          assert PairApart(places[a], places[b]);
        }
      }
    }
  }

  // No other page in memory names the slot that the step takes.
  ghost predicate TakesFree<D>(c: Cache<D>, s: Step<D>)
    requires Shape(c)
  {
    match s
    case Create(_) => NextSlot(c).Some? ==> Unshared(c, NextSlot(c).value.slot, |c.places|)
    case Fetch(p) =>
      p < |c.places| && !c.places[p].inMemory && NextSlot(c).Some? ==> Unshared(c, NextSlot(c).value.slot, p)
    case Put(p, _) => p < |c.places| ==> Unshared(c, c.places[p].slot, p)
  }

  // Slots stay apart exactly when a new page, a fetched one or one stored into
  // takes such a slot.
  lemma StepApartIff<D>(c: Cache<D>, s: Step<D>)
    requires Shape(c) && Apart(c) && Next(c, s).Some?
    ensures Apart(Next(c, s).value) <==> TakesFree(c, s)
  {
    match s
    case Create(_) => PlacedApartIff(c.places, |c.places|, NextSlot(c).value.slot);
    case Fetch(p) =>
      if !c.places[p].inMemory {
        PlacedApartIff(c.places, p, NextSlot(c).value.slot);
      }
    case Put(p, _) => PlacedApartIff(c.places, p, c.places[p].slot);
  }

  ghost predicate StaysApart<D>(c: Cache<D>, run: seq<Step<D>>)
    requires Shape(c)
    decreases |run|
  {
    Apart(c) && (run != [] ==> StaysApart(After(c, run[0]), run[1..]))
  }

  ghost predicate AllFree<D>(c: Cache<D>, run: seq<Step<D>>)
    requires Shape(c)
    decreases |run|
  {
    run != [] ==> TakesFree(c, run[0]) && AllFree(After(c, run[0]), run[1..])
  }

  // Over every run of a session each slot stays with one page in memory exactly
  // when every step takes one that no other such page names.
  lemma {:induction false} RunApartIff<D>(c: Cache<D>, run: seq<Step<D>>)
    requires Session(c) && Apart(c) && OnPages(|c.places|, run)
    ensures StaysApart(c, run) <==> AllFree(c, run)
    decreases |run|
  {
    SessionShape(c);
    hide Shape, Session, Apart, Next, TakesFree;
    if run != [] {
      SessionGoesOn(c, run[0]);
      StepApartIff(c, run[0]);
      if Apart(After(c, run[0])) {
        RunApartIff(After(c, run[0]), run[1..]);
      }
    }
  }

  // The slots of the pages in memory.
  function Named(places: seq<Place>): (s: set<nat>)
    ensures forall x :: x in s ==> exists p :: 0 <= p < |places| && places[p].inMemory && places[p].slot == x
  {
    if places == [] then {} else
    var last := |places| - 1;
    Named(places[..last]) + (if places[last].inMemory then {places[last].slot} else {})
  }

  ghost function Below(n: nat): (s: set<nat>)
    ensures |s| == n && forall x :: x in s <==> 0 <= x < n
  {
    if n == 0 then {} else Below(n - 1) + {n - 1}
  }

  ghost predicate AllApart(places: seq<Place>) {
    forall p, q :: 0 <= p < q < |places| ==> PairApart(places[p], places[q])
  }

  lemma {:induction false} NamedOnce(places: seq<Place>)
    requires AllApart(places)
    ensures |Named(places)| == Resident(places)
  {
    if places != [] {
      FrontApart(places);
      NamedOnce(places[..|places| - 1]);
    }
  }

  lemma FrontApart(places: seq<Place>)
    requires places != [] && AllApart(places)
    ensures var last := |places| - 1;
      AllApart(places[..last]) && (places[last].inMemory ==> places[last].slot !in Named(places[..last]))
  {
    hide Named;
    var last := |places| - 1;
    var front := places[..last];
    forall p, q | 0 <= p < q < |front| ensures PairApart(front[p], front[q]) {
      assert PairApart(places[p], places[q]);
    }
    forall p | 0 <= p < |front| && front[p].inMemory && places[last].inMemory
      ensures front[p].slot != places[last].slot
    {
      assert PairApart(places[p], places[last]);
    }
  }

  lemma SubsetSize(a: set<nat>, b: set<nat>)
    requires a <= b
    ensures |a| <= |b|
  {
    assert b == a + (b - a);
  }

  // While slots are apart, no more pages are in memory than there are slots.
  lemma ApartFit<D>(c: Cache<D>)
    requires Shape(c) && Apart(c)
    ensures Resident(c.places) <= |c.arena|
  {
    NamedOnce(c.places);
    SubsetSize(Named(c.places), Below(|c.arena|));
  }

  // Evicting a page that is in memory leaves two pages with its slot.
  lemma EvictionSharesSlot<D>(c: Cache<D>, data: D)
    requires Shape(c) && Apart(c) && c.uploaded == |c.arena| && c.links.bottom.Some?
    requires c.places[c.links.bottom.value].inMemory
    ensures Created(c, data).Some? && !Apart(Created(c, data).value)
  {
    StepApartIff(c, Create(data));
  }

  // Where slots are apart, evicting a page that is in memory shows exactly when
  // the page that takes its slot differs from it.
  lemma EvictionShowsIff<D>(c: Cache<D>, pages: seq<D>, s: Step<D>)
    requires Shape(c) && Apart(c) && Transparent(c, pages) && Next(c, s).Some?
    requires c.uploaded == |c.arena| && c.links.bottom.Some? && c.places[c.links.bottom.value].inMemory
    requires s.Create? || (s.Fetch? && !c.places[s.page].inMemory)
    ensures Shape(Next(c, s).value)
    ensures Transparent(Next(c, s).value, Ideal(pages, s)) <==>
      pages[c.links.bottom.value] == if s.Create? then s.data else pages[s.page]
  {
    StepUnnoticedIff(c, pages, s);
    var v := c.links.bottom.value;
    forall q | 0 <= q < |c.places| && q != v && c.places[q].inMemory ensures c.places[q].slot != c.places[v].slot {
      assert if q < v then PairApart(c.places[q], c.places[v]) else PairApart(c.places[v], c.places[q]);
    }
  }

  // One slot and three pages on disk. Fetching page 1 touches header 0, so the
  // next fetch writes page 1's bytes over page 0 on disk.
  lemma OnDiskVictimIsLost<D>(a: D, b: D, d: D, stale: D)
    ensures var c := Cache(0, [Place(false, 0), Place(false, 0), Place(false, 0)], [stale], [a, b, d],
                           Links(None, None, [None, None, None]));
      Shape(c) && Transparent(c, [a, b, d])
      && Next(c, Fetch(1)).Some? && var c1 := Next(c, Fetch(1)).value;
      Shape(c1) && Transparent(c1, [a, b, d])
      && Next(c1, Fetch(2)).Some? && var c2 := Next(c1, Fetch(2)).value;
      Shape(c2) && Content(c2, 0) == b
  {
  }

  // ----- runs for which the slots suffice -----

  // Slots in use are among those handed out.
  ghost predicate Handed<D>(c: Cache<D>) {
    forall p :: 0 <= p < |c.places| && c.places[p].inMemory ==> c.places[p].slot < c.uploaded
  }

  // An unused slot for every page that comes into memory, and no write to a
  // page on disk.
  ghost predicate Roomy<D>(c: Cache<D>, s: Step<D>) {
    match s
    case Create(_) => c.uploaded < |c.arena|
    case Fetch(p) => p < |c.places| && (c.places[p].inMemory || c.uploaded < |c.arena|)
    case Put(p, _) => p < |c.places| && c.places[p].inMemory
  }

  lemma RoomyUnnoticed<D>(c: Cache<D>, pages: seq<D>, s: Step<D>)
    requires Shape(c) && Apart(c) && Handed(c) && Transparent(c, pages) && Roomy(c, s) && Next(c, s).Some?
    ensures Unnoticed(c, pages, s) && Apart(Next(c, s).value) && Handed(Next(c, s).value)
  {
    StepApartIff(c, s);
    if s.Put? {
      var p := s.page;
      assert Content(c, p) == pages[p];
      forall q | 0 <= q < |c.places| && q != p && c.places[q].inMemory ensures c.places[q].slot != c.places[p].slot {
        assert if q < p then PairApart(c.places[q], c.places[p]) else PairApart(c.places[p], c.places[q]);
      }
    }
  }

  ghost predicate RoomyRun<D>(c: Cache<D>, run: seq<Step<D>>)
    requires Shape(c)
    decreases |run|
  {
    run != [] ==> Roomy(c, run[0]) && RoomyRun(After(c, run[0]), run[1..])
  }

  // So over every run for which the slots suffice the cache is invisible.
  lemma {:induction false} RoomyRunHidden<D>(c: Cache<D>, pages: seq<D>, run: seq<Step<D>>)
    requires Session(c) && Apart(c) && Handed(c) && Transparent(c, pages) && RoomyRun(c, run)
    ensures Hidden(c, pages, run)
    decreases |run|
  {
    SessionShape(c);
    if run != [] {
      RoomyOnPage(c, run[0]);
    }
    hide Shape, Session, Apart, Handed, Transparent, Next, Unnoticed, Ideal, Roomy;
    if run != [] {
      SessionGoesOn(c, run[0]);
      StepUnnoticedIff(c, pages, run[0]);
      SameCount(c, pages);
      RoomyUnnoticed(c, pages, run[0]);
      RoomyRunHidden(Next(c, run[0]).value, Ideal(pages, run[0]), run[1..]);
    }
  }

  lemma RoomyOnPage<D>(c: Cache<D>, s: Step<D>)
    requires Roomy(c, s)
    ensures OnPage(|c.places|, s)
  {
  }

  // ----- the queue over steps -----

  // The queue once the slot for a step is found: without the page evicted.
  ghost function Waiting<D>(c: Cache<D>, q: seq<nat>): seq<nat> {
    if c.uploaded < |c.arena| || q == [] then q else q[1..]
  }

  lemma WaitingIs<D>(c: Cache<D>, q: seq<nat>)
    requires Shape(c) && Represents(c.links, q) && NextSlot(c).Some?
    ensures Represents(NextSlot(c).value.cache.links, Waiting(c, q))
  {
    if c.uploaded == |c.arena| {
      EvictTakesFirst(c.links, q);
    }
  }

  // A new page joins the queue behind all others.
  lemma CreateQueues<D>(c: Cache<D>, q: seq<nat>, data: D)
    requires Shape(c) && Represents(c.links, q) && Created(c, data).Some?
    ensures Represents(Created(c, data).value.links, Waiting(c, q) + [|c.places|])
  {
    WaitingIs(c, q);
    var w := Waiting(c, q);
    var l := NextSlot(c).value.cache.links;
    var wider := l.(next := l.next + [None]);
    forall i | 0 <= i < |w| ensures Leads(wider, w, i) && w[i] < |c.places| {
      assert Leads(l, w, i);
    }
    TouchIs(wider, w, |c.places|);
  }

  // A fetch queues the header with the slot's number. It joins as a new member
  // exactly when it was not waiting; a waiting one cuts off those behind it,
  // and the top one leaves pointers that make no queue at all.
  lemma FetchQueuesIff<D>(c: Cache<D>, q: seq<nat>, p: nat)
    requires Shape(c) && Represents(c.links, q) && p < |c.places| && !c.places[p].inMemory && Fetched(c, p).Some?
    ensures var r, slot, w := Fetched(c, p).value.links, NextSlot(c).value.slot, Waiting(c, q);
      (Represents(r, w + [slot]) <==> slot !in w)
      && (if w != [] && slot == w[|w| - 1] then forall s :: !Represents(r, s) else Represents(r, Lru.Touched(w, slot)))
  {
    WaitingIs(c, q);
    var l, slot, w := NextSlot(c).value.cache.links, NextSlot(c).value.slot, Waiting(c, q);
    TouchIs(l, w, slot);
    if slot in w {
      var i := Lru.IndexOf(w, slot);
      assert (w + [slot])[i] == (w + [slot])[|w|];
    }
  }

  // Two slots, pages 0 and 1 in them, page 2 on disk: fetching it evicts page 0
  // and queues header 0 again, where it waits once.
  lemma HeaderQueuedAgain<D>(a: D, b: D, d: D)
    ensures var c := Cache(2, [Place(true, 0), Place(true, 1), Place(false, 0)], [a, b], [a, b, d],
                           Links(Some(1), Some(0), [Some(1), None, None]));
      Shape(c) && Represents(c.links, [0, 1])
      && Fetched(c, 2).Some? && Represents(Fetched(c, 2).value.links, [1, 0])
  {
    var c := Cache(2, [Place(true, 0), Place(true, 1), Place(false, 0)], [a, b], [a, b, d],
                   Links(Some(1), Some(0), [Some(1), None, None]));
    assert Leads(c.links, [0, 1], 0) && Leads(c.links, [0, 1], 1);
    assert [0, 1][1..] == [1] && [1] + [0] == [1, 0];
    FetchQueuesIff(c, [0, 1], 2);
  }

  // ----- the queue over runs -----

  // What a step makes of the queue.
  ghost function QueueAfter<D>(c: Cache<D>, q: seq<nat>, s: Step<D>): seq<nat>
    requires Shape(c)
  {
    match s
    case Create(_) => Waiting(c, q) + [|c.places|]
    case Fetch(p) =>
      if p < |c.places| && !c.places[p].inMemory && NextSlot(c).Some? then Lru.Touched(Waiting(c, q), NextSlot(c).value.slot)
      else q
    case Put(_, _) => q
  }

  // A fetch does not touch the last header waiting.
  ghost predicate SparesTop<D>(c: Cache<D>, q: seq<nat>, s: Step<D>)
    requires Shape(c)
  {
    s.Fetch? && s.page < |c.places| && !c.places[s.page].inMemory && NextSlot(c).Some? && Waiting(c, q) != [] ==>
      NextSlot(c).value.slot != Waiting(c, q)[|Waiting(c, q)| - 1]
  }

  lemma StepQueueIff<D>(c: Cache<D>, q: seq<nat>, s: Step<D>)
    requires Session(c) && Represents(c.links, q) && OnPage(|c.places|, s)
    ensures Represents(After(c, s).links, QueueAfter(c, q, s)) <==> SparesTop(c, q, s)
    ensures !SparesTop(c, q, s) ==> forall t :: !Represents(After(c, s).links, t)
  {
    SessionGoesOn(c, s);
    match s
    case Create(data) => CreateQueues(c, q, data);
    case Fetch(p) =>
      if !c.places[p].inMemory {
        FetchQueuesIff(c, q, p);
      }
    case Put(_, _) =>
  }

  ghost predicate StaysQueue<D>(c: Cache<D>, q: seq<nat>, run: seq<Step<D>>)
    requires Shape(c)
    decreases |run|
  {
    Represents(c.links, q) && (run != [] ==> StaysQueue(After(c, run[0]), QueueAfter(c, q, run[0]), run[1..]))
  }

  ghost predicate AllSpareTop<D>(c: Cache<D>, q: seq<nat>, run: seq<Step<D>>)
    requires Shape(c)
    decreases |run|
  {
    run != [] ==> SparesTop(c, q, run[0]) && AllSpareTop(After(c, run[0]), QueueAfter(c, q, run[0]), run[1..])
  }

  // Over every run of a session the pointers stay a queue without duplicates
  // exactly when no fetch touches the last header waiting.
  lemma {:induction false} RunQueueIff<D>(c: Cache<D>, q: seq<nat>, run: seq<Step<D>>)
    requires Session(c) && Represents(c.links, q) && OnPages(|c.places|, run)
    ensures StaysQueue(c, q, run) <==> AllSpareTop(c, q, run)
    decreases |run|
  {
    SessionShape(c);
    hide Shape, Session, Represents, Next, SparesTop, QueueAfter;
    if run != [] {
      SessionGoesOn(c, run[0]);
      StepQueueIff(c, q, run[0]);
      if Represents(After(c, run[0]).links, QueueAfter(c, q, run[0])) {
        RunQueueIff(After(c, run[0]), QueueAfter(c, q, run[0]), run[1..]);
      }
    }
  }
}
