/** The index with its loops: the walk through the tables, and the calls that
    search before they insert or delete. */
module HashMap {
  import opened Bytes
  import opened Hash
  import opened HashIndex
  import opened HashCounts
  import opened HashFaults
  import opened HashRuns
  import opened Options
  import R = AvlRemove

  // HASHMAP_SUCCESS, HASHMAP_KEY_FOUND, and a step through a bad pointer.
  datatype Error = Success | KeyFound | Crash

  class Index {
    var tables: Tables

    constructor ()
      ensures Refines(tables, map[]) && AllExact(tables)
    {
      tables := [NewTable(0)];
      new;
      EmptyIndexExact();
    }

    // The loop shared by search, insertion and deletion.
    method Walk(key: Str) returns (node: nat, mid: nat)
      requires Inv(tables)
      ensures node == Stop(tables, 0, key) && mid == At(tables[node], key)
    {
      hide HashOf, Bucket;
      node := 0;
      mid := HashLoop(key, tables[node].dep);
      assert TableOk(tables, 0);
      while tables[node].lens[mid] > MAX_HASH_DEP
        invariant node < |tables| && TableOk(tables, node) && mid == At(tables[node], key)
        invariant Stop(tables, node, key) == Stop(tables, 0, key)
        decreases |tables| - node
      {
        assert SlotOk(tables, node, mid);
        node := tables[node].tops[mid].child;
        assert TableOk(tables, node);
        mid := HashLoop(key, tables[node].dep);
      }
    }

    // hash_search
    method Search(key: Str) returns (found: Found)
      requires Inv(tables)
      ensures found == Find(tables, key)
    {
      var node, mid := Walk(key);
      found := FindAt(tables[node], key);
    }

    // hash_insert and __hash_remake
    method Insert(key: Str, meta: nat) returns (ok: bool)
      requires Inv(tables)
      modifies this
      ensures ok <==> Inserted(old(tables), key, meta).Some?
      ensures tables == if ok then Inserted(old(tables), key, meta).value else old(tables)
      ensures ok && old(Find(tables, key)) == Absent ==> CountedUp(old(tables), tables, key)
    {
      hide HashOf, Bucket, CountedUp;
      if Find(tables, key) == Absent && Inserted(tables, key, meta).Some? {
        InsertCounts(tables, key, meta);
      }
      var node, mid := Walk(key);
      var t := tables[node];
      if t.lens[mid] >= MAX_HASH_DEP {
        return false;
      }
      var g := Grafted(t.tops[mid].tree, key, meta);
      if g.None? {
        return false;
      }
      if t.lens[mid] + 1 != MAX_HASH_DEP {
        tables := tables[node := SetSlot(t, mid, t.lens[mid] + 1, Avl(g.value))];
        return true;
      }
      var c := Spread(g.value, NewTable(t.dep + 1));
      if c.None? {
        return false;
      }
      tables := Rebuilt(tables, node, mid, c.value);
      return true;
    }

    // hash_delete
    method Delete(key: Str) returns (ok: bool)
      requires Inv(tables)
      modifies this
      ensures ok <==> Removed(old(tables), key).Some?
      ensures tables == if ok then Removed(old(tables), key).value else old(tables)
      ensures ok && old(Find(tables, key)).Here? ==> CountedDown(old(tables), tables, key)
    {
      hide HashOf, Bucket, CountedDown;
      if Find(tables, key).Here? && Removed(tables, key).Some? {
        DeleteCounts(tables, key);
      }
      var node, mid := Walk(key);
      if tables[node].lens[mid] >= MAX_HASH_DEP {
        return false;
      }
      var p := Pruned(tables[node], mid, key);
      ok := p.Some?;
      if ok {
        tables := tables[node := p.value];
      }
    }

    // hashmap_insert_key
    method InsertKey(key: Str, meta: nat, ghost m: Map) returns (rv: int, err: Error)
      requires Refines(tables, m)
      modifies this
      ensures key in m ==> rv == -1 && err == KeyFound && tables == old(tables)
      ensures key !in m ==> err != KeyFound && (err == Success <==> rv == 0)
      ensures key !in m && rv == 0 ==> (Refines(tables, m[key := meta]) <==> !old(Spoils(tables, key)))
      ensures old(AllExact(tables)) ==> AllExact(tables) && (err == Crash <==> old(StepStuck(tables, Put(key, meta))))
    {
      hide Inserted, Spoils, Reached, HashOf, Bucket, AllExact, StepStuck;
      if AllExact(tables) {
        StepFaultsIff(tables, m, Put(key, meta));
      }
      var found := Search(key);
      assert found == Get(m, key);
      if found.Here? {
        return -1, KeyFound;
      }
      ghost var ts := tables;
      var ok := Insert(key, meta);
      if !ok {
        return -1, Crash;
      }
      PutRefinesIff(ts, m, key, meta);
      return 0, Success;
    }

    // hashmap_delete_key, which gives back what the key stood for.
    method DeleteKey(key: Str, ghost m: Map) returns (meta: Option<nat>, err: Error)
      requires Refines(tables, m)
      modifies this
      ensures key !in m ==> meta == None && err == Success && tables == old(tables)
      ensures key in m && err == Success ==> meta == Some(m[key])
      ensures key in m && err == Success ==> (Refines(tables, m - {key}) <==> old(Gentle(tables, key)))
      ensures old(AllExact(tables)) ==> AllExact(tables) && (err == Crash <==> old(StepStuck(tables, Drop(key))))
    {
      hide Removed, Gentle, Reached, HashOf, Bucket, AllExact, StepStuck;
      if AllExact(tables) {
        StepFaultsIff(tables, m, Drop(key));
      }
      var found := Search(key);
      assert found == Get(m, key);
      if found.Absent? {
        return None, Success;
      }
      ghost var ts := tables;
      var ok := Delete(key);
      if !ok {
        return None, Crash;
      }
      DropRefinesIff(ts, m, key);
      return Some(found.meta), Success;
    }
  }
}
