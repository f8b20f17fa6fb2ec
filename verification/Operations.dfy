/** The database operations over index, pages and log, and what replaying the
    log gives. */
module Operations {
  import opened Bytes
  import opened Options
  import opened Wal
  import Pages
  import PageStore

  type State = map<Str, Str>

  // ----- the meaning of a log -----

  // An insert needs a value and an absent key, a delete a present key.
  predicate Effective(kv: State, t: Trans) {
    || (t.cmd == INSERT && t.val != [] && t.key !in kv)
    || (t.cmd == DELETE && t.key in kv)
  }

  function Apply(kv: State, t: Trans): State {
    if !Effective(kv, t) then kv
    else if t.cmd == INSERT then kv[t.key := t.val]
    else kv - {t.key}
  }

  function Replay(ts: seq<Trans>): State {
    if ts == [] then map[] else Apply(Replay(ts[..|ts| - 1]), ts[|ts| - 1])
  }

  // Every transaction changed something when it was issued.
  predicate AllEffective(ts: seq<Trans>) {
    ts == [] || (AllEffective(ts[..|ts| - 1]) && Effective(Replay(ts[..|ts| - 1]), ts[|ts| - 1]))
  }

  lemma ReplayOneMore(ts: seq<Trans>, t: Trans)
    ensures Replay(ts + [t]) == Apply(Replay(ts), t)
    ensures AllEffective(ts + [t]) <==> AllEffective(ts) && Effective(Replay(ts), t)
  {
    assert (ts + [t])[..|ts|] == ts;
  }

  // A log tells the story of a state: replaying it gives the state, and every
  // record changed something.
  ghost predicate Tells(ts: seq<Trans>, kv: State) {
    Replay(ts) == kv && AllEffective(ts)
  }

  lemma TellsInsert(ts: seq<Trans>, kv: State, t: Trans)
    requires Tells(ts, kv) && t.cmd == INSERT && t.val != [] && t.key !in kv
    ensures Tells(ts + [t], kv[t.key := t.val])
  {
    ReplayOneMore(ts, t);
  }

  lemma TellsDelete(ts: seq<Trans>, kv: State, t: Trans)
    requires Tells(ts, kv) && t.cmd == DELETE && t.key in kv
    ensures Tells(ts + [t], kv - {t.key})
  {
    ReplayOneMore(ts, t);
  }

  datatype Reply =
    | Done
    | Value(value: seq<Byte>)
    | Unreadable
    | KeyExists
    | KeyNotFound
    | ValueRequired
    | Stopped(why: PageStore.SetOutcome)

  // ----- index and store joined -----

  // Every key leads to a stored value of its own; next is above all records.
  ghost predicate Indexed(index: map<Str, nat>, contents: map<nat, Str>, next: nat) {
    && (forall k :: k in index ==> index[k] in contents)
    && (forall m :: m in contents ==> m < next)
    && (forall j, k :: j in index && k in index && index[j] == index[k] ==> j == k)
  }

  ghost function Joined(index: map<Str, nat>, contents: map<nat, Str>, next: nat): State
    requires Indexed(index, contents, next)
  {
    map k | k in index :: contents[index[k]]
  }

  lemma InIndex(index: map<Str, nat>, contents: map<nat, Str>, next: nat, key: Str)
    requires Indexed(index, contents, next)
    ensures key in index <==> key in Joined(index, contents, next)
    ensures key in index ==> index[key] in contents && contents[index[key]] == Joined(index, contents, next)[key]
    ensures next !in contents
  {
  }

  lemma JoinedInsert(index: map<Str, nat>, contents: map<nat, Str>, next: nat, key: Str, v: Str)
    requires Indexed(index, contents, next) && key !in index
    ensures Indexed(index[key := next], contents[next := v], next + 1)
    ensures Joined(index[key := next], contents[next := v], next + 1) == Joined(index, contents, next)[key := v]
  {
  }

  lemma JoinedDelete(index: map<Str, nat>, contents: map<nat, Str>, next: nat, key: Str)
    requires Indexed(index, contents, next) && key in index
    ensures Indexed(index - {key}, contents - {index[key]}, next)
    ensures Joined(index - {key}, contents - {index[key]}, next) == Joined(index, contents, next) - {key}
  {
  }

  class Database {
    const store: PageStore.Store
    const log: Logger
    var index: map<Str, nat>
    var nextMeta: nat

    ghost predicate Valid()
      reads this, store, log, log.file
    {
      store.Valid() && log.Valid() && Indexed(index, store.Contents(), nextMeta)
    }

    // The keys and their values.
    ghost function KV(): State
      requires Valid()
      reads this, store, log, log.file
    {
      Joined(index, store.Contents(), nextMeta)
    }

    // The log tells the whole story: replaying it gives the current keys and
    // values, and every record was effective when it was written.
    ghost predicate Told()
      requires Valid()
      reads this, store, log, log.file
    {
      Tells(log.history, KV())
    }

    constructor (pages: nat, lsn: nat)
      ensures Valid() && Told() && KV() == map[] && fresh(store) && fresh(log) && fresh(log.file)
    {
      store := new PageStore.Store(pages);
      log := new Logger(lsn);
      index, nextMeta := map[], 0;
    }

    method Peek(t: Trans) returns (r: Reply)
      requires Valid()
      ensures r == if t.key in KV() then Done else KeyNotFound
    {
      r := if t.key in index then Done else KeyNotFound;
    }

    // The value last stored is answered exactly when its record still reads
    // right.
    method Select(t: Trans) returns (r: Reply)
      requires Valid()
      ensures t.key !in KV() ==> r == KeyNotFound
      ensures t.key in KV() ==> (r == Value(KV()[t.key]) <==> ReadsRight(t.key))
      ensures t.key in KV() && store.Sound() ==> r == Value(KV()[t.key])
    {
      InIndex(index, store.Contents(), nextMeta, t.key);
      if t.key !in index {
        return KeyNotFound;
      }
      store.RecordsKept();
      var value := store.Get(index[t.key]);
      r := if value.None? then Unreadable else Value(value.value);
    }

    // The record of the key's value is in the arena as it was stored.
    ghost predicate ReadsRight(key: Str)
      reads this, store
    {
      key in index && index[key] in store.metas
      && PageStore.RecordReads(store.headers, store.arena, store.vals, store.metas[index[key]])
    }

    // The record is written before the page changes: when storing the value
    // stops the original, the log is one effective record ahead. A value that is
    // stored reads right, and so does every other, exactly when none of them was
    // hit by a write across the end of the page.
    method Insert(t: Trans) returns (r: Reply)
      requires Valid() && t.cmd == INSERT
      modifies this, store, log, log.file
      ensures Valid()
      ensures t.val == [] ==> r == ValueRequired
      ensures t.val != [] && t.key in old(KV()) ==> r == KeyExists
      ensures t.val != [] && t.key !in old(KV()) ==>
        (r == Done <==> exists p: nat :: PageStore.Explains(old(store.headers), store.allocatedPages, |t.val|, PageStore.Kept(p)))
        && forall o: PageStore.SetOutcome :: !o.Kept? ==> (r == Stopped(o) <==> PageStore.Explains(old(store.headers), store.allocatedPages, |t.val|, o))
      ensures KV() == if r == Done then old(KV())[t.key := t.val] else old(KV())
      ensures log.history == old(log.history) + (if r == Done || r.Stopped? then [t] else [])
      ensures old(Told()) && !r.Stopped? ==> Told()
      ensures old(Told()) && r.Stopped? ==> Tells(log.history, KV()[t.key := t.val])
      ensures r == Done && old(store.Sound()) ==> (store.Sound() <==> old(Spared(t.val)))
      ensures r == Done && old(store.Neat()) ==> (store.Neat() <==> old(Inside(t.val)))
      ensures r != Done ==> (store.Sound() <==> old(store.Sound())) && (store.Neat() <==> old(store.Neat()))
    {
      hide PageStore.Linked, PageStore.Even, PageStore.View, PageStore.PagesOk, PageStore.AllRead, PageStore.AllSpared,
        PageStore.Explains, Indexed, Joined, Tells;
      InIndex(index, store.Contents(), nextMeta, t.key);
      if t.val == [] {
        return ValueRequired;
      }
      if t.key in index {
        return KeyExists;
      }
      if Told() {
        TellsInsert(log.history, KV(), t);
      }
      var lsn := log.WriteLog(t);
      hide Spared, Inside;
      var outcome := Keep(t.key, t.val);
      r := if outcome.Kept? then Done else Stopped(outcome);
    }

    // Stores the value and puts its record into the index.
    method Keep(key: Str, v: Str) returns (outcome: PageStore.SetOutcome)
      requires Valid() && key !in KV()
      modifies this, store
      ensures Valid() && KV() == if outcome.Kept? then old(KV())[key := v] else old(KV())
      ensures forall o :: outcome == o <==> PageStore.Explains(old(store.headers), store.allocatedPages, |v|, o)
      ensures outcome.Kept? && old(store.Sound()) ==> (store.Sound() <==> old(Spared(v)))
      ensures outcome.Kept? && old(store.Neat()) ==> (store.Neat() <==> old(Inside(v)))
      ensures !outcome.Kept? ==> (store.Sound() <==> old(store.Sound())) && (store.Neat() <==> old(store.Neat()))
    {
      hide PageStore.Linked, PageStore.Even, PageStore.View, PageStore.PagesOk, PageStore.AllRead, PageStore.AllSpared,
        PageStore.Explains, Indexed, Joined;
      InIndex(index, store.Contents(), nextMeta, key);
      JoinedInsert(index, store.Contents(), nextMeta, key, v);
      var meta := nextMeta;
      outcome := store.Set(v, meta);
      if outcome.Kept? {
        nextMeta := nextMeta + 1;
        index := index[key := meta];
      }
    }

    // Where it is stored, the bytes of every record stay as they are.
    ghost predicate Spared(v: Str)
      reads store
    {
      forall p: nat :: PageStore.Explains(store.headers, store.allocatedPages, |v|, PageStore.Kept(p)) ==>
        PageStore.AllSpared(store.headers, store.arena, store.metas, store.vals, Pages.Start(store.headers, p), v)
    }

    // Where it is stored, it ends inside the page.
    ghost predicate Inside(v: Str)
      reads store
    {
      forall p: nat :: PageStore.Explains(store.headers, store.allocatedPages, |v|, PageStore.Kept(p)) ==> Pages.OffsetAt(store.headers, p) + |v| + 2 <= Pages.Compaction.PAGE_SIZE
    }

    method Delete(t: Trans) returns (r: Reply)
      requires Valid() && t.cmd == DELETE
      modifies this, store, log, log.file
      ensures Valid()
      ensures t.key !in old(KV()) ==> r == KeyNotFound
      ensures t.key in old(KV()) ==> (r == Value(old(KV())[t.key]) <==> old(ReadsRight(t.key)))
      ensures KV() == old(KV()) - {t.key}
      ensures log.history == old(log.history) + (if t.key in old(KV()) then [t] else [])
      ensures old(Told()) ==> Told()
      ensures old(store.Sound()) ==> store.Sound() && (t.key in old(KV()) ==> r == Value(old(KV())[t.key]))
      ensures old(store.Neat()) ==> store.Neat()
    {
      hide PageStore.Linked, PageStore.Even, PageStore.View, PageStore.PagesOk, PageStore.AllRead, PageStore.RecordReads,
        Indexed, Joined, Tells;
      InIndex(index, store.Contents(), nextMeta, t.key);
      if t.key !in index {
        return KeyNotFound;
      }
      if Told() {
        TellsDelete(log.history, KV(), t);
      }
      JoinedDelete(index, store.Contents(), nextMeta, t.key);
      store.RecordsKept();
      var meta := index[t.key];
      index := index - {t.key};
      var lsn := log.WriteLog(t);
      var value := store.Unset(meta);
      r := if value.None? then Unreadable else Value(value.value);
    }

    // A snapshot compacts pages; where pages are in order, the page ends up
    // packed exactly when its gaps are safe, and then all stay in order. While
    // every key reads its value, they go on doing so exactly when the values of
    // the page survive and no other is hit.
    method Compact(p: nat) returns (ok: bool)
      requires Valid() && p < |store.headers|
      modifies store
      ensures Valid() && KV() == old(KV())
      ensures old(store.Neat()) ==> (old(SafePage(store.headers, store.vals, p)) <==> ok && Packed(store.headers, store.vals, p))
      ensures old(store.Neat()) && old(SafePage(store.headers, store.vals, p)) ==> store.Neat()
      ensures old(store.Sound()) ==> (ok && store.Sound() <==> old(store.Bears(p)))
    {
      hide PageStore.Linked, PageStore.View, PageStore.PagesOk, Indexed, Joined;
      ok := store.Defragmentate(p);
      assert PageStore.EvenPage(store.headers[p], store.vals[p]);
    }
  }

  ghost predicate SafePage(headers: seq<Pages.Header>, vals: seq<seq<Str>>, p: nat) {
    p < |headers| == |vals| && |headers[p].offsets| == |vals[p]|
    && Pages.Compaction.SafeGaps(headers[p].offsets, vals[p])
  }

  ghost predicate Packed(headers: seq<Pages.Header>, vals: seq<seq<Str>>, p: nat) {
    p < |headers| == |vals| && |headers[p].offsets| == |vals[p]|
    && Pages.Compaction.AllPacked(Pages.Compaction.Done([], headers[p].offsets, headers[p].offsetBytes), vals[p])
  }
}
