/** When a step of the key index goes through a null pointer, and the runs of the
    index with that condition written out. */
module HashFaults {
  import opened Bytes
  import opened Hash
  import opened HashIndex
  import opened HashRuns
  import opened Options
  import F = AvlFaults
  import R = AvlRemove
  import T = AvlTree

  predicate ExactSlot(s: Slot) {
    s.Avl? ==> T.Exact(s.tree)
  }

  // Stored heights are the real ones in every tree of the table.
  ghost predicate ExactTable(t: Table) {
    forall j :: 0 <= j < |t.tops| ==> ExactSlot(t.tops[j])
  }

  ghost predicate AllExact(ts: Tables) {
    forall i :: 0 <= i < |ts| ==> ExactTable(ts[i])
  }

  lemma GraftFaultsIff(tree: T.Tree, key: Str, meta: nat)
    requires T.Exact(tree)
    ensures Grafted(tree, key, meta) == None <==> F.StuckOnWay(tree, key, meta)
    ensures Grafted(tree, key, meta).Some? ==> T.Exact(Grafted(tree, key, meta).value)
  {
    if tree.Node? {
      F.InsertFaultsIff(tree, key, meta);
    }
  }

  // ----- rebuilding -----

  // While the old tree's nodes are hung into the child table, one of them meets
  // a stuck node in the tree that it goes into.
  predicate SpreadStuck(t: T.Tree, c: Table)
    requires Flat(c)
    decreases t
  {
    t.Node? && (
      || SpreadStuck(t.left, c)
      || var l := Spread(t.left, c);
         l.Some? && (
           || SpreadStuck(t.right, l.value)
           || var r := Spread(t.right, l.value);
              r.Some? && PlaceStuck(r.value, t.key, t.meta)))
  }

  predicate PlaceStuck(c: Table, key: Str, meta: nat)
    requires Flat(c)
  {
    F.StuckOnWay(c.tops[At(c, key)].tree, key, meta)
  }

  lemma PlaceFaultsIff(c: Table, key: Str, meta: nat)
    requires Flat(c) && ExactTable(c)
    ensures Placed(c, key, meta) == None <==> PlaceStuck(c, key, meta)
    ensures Placed(c, key, meta).Some? ==> ExactTable(Placed(c, key, meta).value)
  {
    hide T.Exact, HashOf, Grafted, F.StuckOnWay;
    assert ExactSlot(c.tops[At(c, key)]);
    GraftFaultsIff(c.tops[At(c, key)].tree, key, meta);
  }

  lemma {:induction false} SpreadFaultsIff(t: T.Tree, c: Table)
    requires Flat(c) && ExactTable(c)
    ensures Spread(t, c) == None <==> SpreadStuck(t, c)
    ensures Spread(t, c).Some? ==> ExactTable(Spread(t, c).value)
    decreases t
  {
    hide ExactTable, Placed, PlaceStuck;
    if t.Node? {
      SpreadFaultsIff(t.left, c);
      var l := Spread(t.left, c);
      if l.Some? {
        SpreadFaultsIff(t.right, l.value);
        var r := Spread(t.right, l.value);
        if r.Some? {
          PlaceFaultsIff(r.value, t.key, t.meta);
        }
      }
    }
  }

  lemma NewTableExact(dep: nat)
    ensures Flat(NewTable(dep)) && ExactTable(NewTable(dep))
  {
  }

  // ----- steps -----

  ghost predicate PutStuck(ts: Tables, key: Str, meta: nat)
    requires Inv(ts)
  {
    var t := ts[Stop(ts, 0, key)];
    var g := Grafted(TreeFor(ts, key), key, meta);
    || F.StuckOnWay(TreeFor(ts, key), key, meta)
    || (g.Some? && t.lens[At(t, key)] + 1 == MAX_HASH_DEP && SpreadStuck(g.value, NewTable(t.dep + 1)))
  }

  // An absent key meets a stuck node, in its tree or in the rebuilding; the tree
  // of a present key has one on the way back from its removal.
  ghost predicate StepStuck(ts: Tables, op: Op)
    requires Inv(ts)
  {
    match op
    case Put(key, meta) => Find(ts, key).Absent? && PutStuck(ts, key, meta)
    case Drop(key) => Find(ts, key).Here? && F.StuckAt(TreeFor(ts, key), key)
  }

  lemma TreeForExact(ts: Tables, key: Str)
    requires Inv(ts) && AllExact(ts)
    ensures T.Exact(TreeFor(ts, key))
  {
    hide HashOf, T.Exact;
    var w := Stop(ts, 0, key);
    assert SlotOk(ts, w, At(ts[w], key));
    assert ExactTable(ts[w]) && ExactSlot(ts[w].tops[At(ts[w], key)]);
  }

  lemma SetSlotExact(t: Table, j: nat, len: nat, slot: Slot)
    requires Sized(t) && j < MAX_HASH_NODE && ExactTable(t) && ExactSlot(slot)
    ensures ExactTable(SetSlot(t, j, len, slot))
  {
    hide ExactSlot;
  }

  lemma PutFaultsIff(ts: Tables, key: Str, meta: nat)
    requires Inv(ts) && AllExact(ts) && Find(ts, key).Absent?
    ensures Inserted(ts, key, meta) == None <==> PutStuck(ts, key, meta)
    ensures Inserted(ts, key, meta).Some? ==> AllExact(Inserted(ts, key, meta).value)
  {
    hide HashOf, T.Exact, Grafted, Spread, SpreadStuck, F.StuckOnWay, ExactTable;
    var w := Stop(ts, 0, key);
    var t := ts[w];
    var j := At(t, key);
    TreeForExact(ts, key);
    GraftFaultsIff(TreeFor(ts, key), key, meta);
    var g := Grafted(TreeFor(ts, key), key, meta);
    if g.Some? {
      NewTableExact(t.dep + 1);
      SpreadFaultsIff(g.value, NewTable(t.dep + 1));
      SetSlotExact(t, j, t.lens[j] + 1, Avl(g.value));
      SetSlotExact(t, j, MAX_HASH_DEP + 1, Sub(|ts|));
    }
  }

  lemma DropFaultsIff(ts: Tables, key: Str)
    requires Inv(ts) && AllExact(ts) && Find(ts, key).Here?
    ensures Removed(ts, key) == None <==> F.StuckAt(TreeFor(ts, key), key)
    ensures Removed(ts, key).Some? ==> AllExact(Removed(ts, key).value)
  {
    hide HashOf, T.Exact, R.Remove, F.StuckAt, ExactTable;
    var w := Stop(ts, 0, key);
    var t := ts[w];
    var j := At(t, key);
    TreeForExact(ts, key);
    F.RemoveFaultsIff(TreeFor(ts, key), key);
    var r := R.Remove(TreeFor(ts, key), key);
    if r.Some? {
      SetSlotExact(t, j, if t.tops[j].tree.Leaf? || t.lens[j] == 0 then t.lens[j] else t.lens[j] - 1, Avl(r.value));
    }
  }

  // A step goes through a bad pointer exactly when it meets a stuck node.
  lemma StepFaultsIff(ts: Tables, m: Map, op: Op)
    requires Refines(ts, m) && AllExact(ts)
    ensures Step(ts, op) == None <==> StepStuck(ts, op)
    ensures Step(ts, op).Some? ==> AllExact(Step(ts, op).value)
  {
    hide Inserted, Removed, PutStuck, AllExact, Inv, Reached;
    assert Find(ts, op.key) == Get(m, op.key);
    match op
    case Put(key, meta) =>
      if key !in m {
        PutFaultsIff(ts, key, meta);
      }
    case Drop(key) =>
      if key in m {
        DropFaultsIff(ts, key);
      }
  }

  // ----- runs -----

  // Every step meets no stuck node and the condition for its answer.
  ghost predicate CleanRun(ts: Tables, ops: seq<Op>)
    decreases |ops|
  {
    ops != [] ==>
      Inv(ts) && !StepStuck(ts, ops[0]) && Good(ts, ops[0]) && CleanRun(After(ts, ops[0]), ops[1..])
  }

  ghost function After(ts: Tables, op: Op): Tables
    requires Inv(ts)
  {
    var s := Step(ts, op);
    if s.Some? then s.value else ts
  }

  // Over every run of an index with right heights, as a new one has: it answers
  // as the map throughout exactly when the run is clean.
  lemma {:induction false} CleanRunTracksIff(ts: Tables, m: Map, ops: seq<Op>)
    requires Refines(ts, m) && AllExact(ts)
    ensures Tracks(ts, m, ops) <==> CleanRun(ts, ops)
    decreases |ops|
  {
    hide Step, StepStuck, Good, Refines, Inv, AllExact;
    if ops != [] {
      RefinesInv(ts, m);
      StepFaultsIff(ts, m, ops[0]);
      if Step(ts, ops[0]).Some? {
        StepRefinesIff(ts, m, ops[0]);
        if Good(ts, ops[0]) {
          CleanRunTracksIff(Step(ts, ops[0]).value, Expected(m, ops[0]), ops[1..]);
        }
      }
    }
  }

  lemma EmptyIndexExact()
    ensures Refines([NewTable(0)], map[]) && AllExact([NewTable(0)])
  {
    hide Refines, ExactTable;
    EmptyIndex();
    NewTableExact(0);
  }
}
