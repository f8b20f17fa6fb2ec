/** The counters of the index's slots: how each step changes them, and when they
    are the numbers of entries. */
module HashCounts {
  import opened Assoc
  import opened Bytes
  import opened Hash
  import opened HashFaults
  import opened HashIndex
  import opened HashRuns
  import opened Options
  import R = AvlRemove
  import T = AvlTree

  // ----- one step -----

  // One more in the key's slot, unless that is rebuilt, which marks it as a
  // table; no other counter is different.
  ghost predicate CountedUp(ts: Tables, us: Tables, key: Str)
    requires Inv(ts)
  {
    var w := Stop(ts, 0, key);
    var j := At(ts[w], key);
    && OneSlot(ts, us, w, j) && ts[w].lens[j] < MAX_HASH_DEP
    && if ts[w].lens[j] + 1 == MAX_HASH_DEP then us[w].lens[j] == MAX_HASH_DEP + 1 && |us| == |ts| + 1
       else us[w].lens[j] == ts[w].lens[j] + 1 && |us| == |ts|
  }

  ghost predicate CountedDown(ts: Tables, us: Tables, key: Str)
    requires Inv(ts)
  {
    var w := Stop(ts, 0, key);
    var j := At(ts[w], key);
    OneSlot(ts, us, w, j) && |us| == |ts| && us[w].lens[j] + 1 == ts[w].lens[j] <= MAX_HASH_DEP
  }

  lemma InsertCounts(ts: Tables, key: Str, meta: nat)
    requires Inv(ts) && Find(ts, key) == Absent && Inserted(ts, key, meta).Some?
    ensures CountedUp(ts, Inserted(ts, key, meta).value, key)
  {
    hide Grafted, Spread, HashOf, Bucket;
    InsertKeepsInv(ts, key, meta);
  }

  // One less in a present key's slot when it is deleted.
  lemma DeleteCounts(ts: Tables, key: Str)
    requires Inv(ts) && Find(ts, key).Here? && Removed(ts, key).Some?
    ensures CountedDown(ts, Removed(ts, key).value, key)
  {
    DeleteKeepsInv(ts, key);
    hide R.Remove, HashOf;
    var w := Stop(ts, 0, key);
    var j := At(ts[w], key);
    assert SlotOk(ts, w, j);
    FoundNotEmpty(TreeFor(ts, key), key);
  }

  // hash_delete itself takes one off whenever the slot's tree is not empty, even
  // for a key that is not there; hashmap_delete_key never asks for that.
  lemma AbsentDeleteCounts(ts: Tables, key: Str)
    requires Inv(ts) && Find(ts, key).Absent? && Removed(ts, key).Some?
    ensures TreeFor(ts, key).Leaf? ==> Removed(ts, key).value[Stop(ts, 0, key)].lens == ts[Stop(ts, 0, key)].lens
    ensures TreeFor(ts, key).Node? ==> CountedDown(ts, Removed(ts, key).value, key)
  {
    hide R.Remove, HashOf;
    var w := Stop(ts, 0, key);
    var j := At(ts[w], key);
    assert SlotOk(ts, w, j);
    var tree := TreeFor(ts, key);
    var us := Removed(ts, key).value;
    if tree.Node? {
      T.InorderNode(tree);
      SetSlotSame(ts[w], j, ts[w].lens[j] - 1, Avl(R.Remove(tree, key).value));
      OneSlotOf(ts, us, w, j);
    }
  }

  lemma FoundNotEmpty(tree: T.Tree, key: Str)
    requires T.Search(tree, key).Some?
    ensures tree.Node? && |T.Inorder(tree)| > 0
  {
    T.InorderNode(tree);
  }

  // ----- counters that are numbers of entries -----

  predicate SlotCounted(len: nat, slot: Slot) {
    slot.Avl? ==> len == |T.Inorder(slot.tree)|
  }

  ghost predicate TableCounted(t: Table) {
    Sized(t) && forall j :: 0 <= j < MAX_HASH_NODE ==> SlotCounted(t.lens[j], t.tops[j])
  }

  ghost predicate Counted(ts: Tables) {
    Inv(ts) && forall i :: 0 <= i < |ts| ==> TableCounted(ts[i])
  }

  lemma EmptyCounted()
    ensures Counted([NewTable(0)])
  {
    hide Refines, Inv;
    EmptyIndex();
    RefinesInv([NewTable(0)], map[]);
    NewCounted(0);
  }

  lemma NewCounted(dep: nat)
    ensures TableCounted(NewTable(dep))
  {
    assert T.Inorder(T.Leaf) == [];
  }

  lemma SetSlotCounted(t: Table, j: nat, len: nat, slot: Slot)
    requires TableCounted(t) && j < MAX_HASH_NODE
    ensures TableCounted(SetSlot(t, j, len, slot)) <==> SlotCounted(len, slot)
  {
    hide SlotCounted;
    assert SetSlot(t, j, len, slot).lens[j] == len && SetSlot(t, j, len, slot).tops[j] == slot;
  }

  lemma PlacedCounted(c: Table, key: Str, meta: nat)
    requires ChildOk(c) && TableCounted(c) && SearchIn(c, key) == None && Placed(c, key, meta).Some?
    ensures TableCounted(Placed(c, key, meta).value)
  {
    hide Grafted, HashOf, T.Search, T.Inorder;
    var j := At(c, key);
    assert Bucket(c.tops[j].tree, c.lens[j], c.dep, j) && SlotCounted(c.lens[j], c.tops[j]);
    GraftedAdds(c.tops[j].tree, key, meta);
    SetSlotCounted(c, j, c.lens[j] + 1, Avl(Grafted(c.tops[j].tree, key, meta).value));
  }

  lemma {:induction false} SpreadCounted(t: T.Tree, c: Table)
    requires ChildOk(c) && TableCounted(c) && T.Ordered(t) && Fresh(T.Inorder(t), c) && Spread(t, c).Some?
    ensures TableCounted(Spread(t, c).value)
    decreases t
  {
    assert Flat(c);
    hide Sorted, HashOf, T.Search, Placed, ChildOk, TableCounted;
    if t.Node? {
      var a, x, b := T.Inorder(t.left), (t.key, t.meta), T.Inorder(t.right);
      T.OrderedNode(t);
      var l := Spread(t.left, c).value;
      FreshParts(a, x, b, c);
      SpreadMoves(t.left, c);
      SpreadCounted(t.left, c);
      StillFresh(a, x, b, c, l);
      var r := Spread(t.right, l).value;
      SpreadMoves(t.right, l);
      SpreadCounted(t.right, l);
      EitherSide(a, x, b, t.key);
      OwnKeyAside(a, x, b);
      PlacedCounted(r, t.key, t.meta);
    }
  }

  lemma OwnKeyAside(a: Entries, x: Entry, b: Entries)
    requires SortedAround(a, x, b)
    ensures Lookup(a, x.0) == None && Lookup(b, x.0) == None
  {
    hide Lookup, SortedAround;
    EitherSide(a, x, b, x.0);
  }

  lemma PutCounted(ts: Tables, key: Str, meta: nat)
    requires Counted(ts) && Find(ts, key) == Absent && Inserted(ts, key, meta).Some?
    ensures Counted(Inserted(ts, key, meta).value)
  {
    InsertKeepsInv(ts, key, meta);
    hide Grafted, Spread, HashOf, T.Search, T.Ordered, TableCounted;
    var w := Stop(ts, 0, key);
    var t := ts[w];
    var j := At(t, key);
    assert SlotOk(ts, w, j) && TableCounted(t);
    var tree := t.tops[j].tree;
    var g := Grafted(tree, key, meta).value;
    GraftedAdds(tree, key, meta);
    TreeCounted(t, j);
    if t.lens[j] + 1 != MAX_HASH_DEP {
      SetSlotCounted(t, j, t.lens[j] + 1, Avl(g));
    } else {
      NewTableOk(t.dep + 1);
      NewCounted(t.dep + 1);
      SpreadCounted(g, NewTable(t.dep + 1));
      SetSlotCounted(t, j, MAX_HASH_DEP + 1, Sub(|ts|));
    }
  }

  lemma TreeCounted(t: Table, j: nat)
    requires TableCounted(t) && j < MAX_HASH_NODE && t.tops[j].Avl?
    ensures t.lens[j] == |T.Inorder(t.tops[j].tree)|
  {
    assert SlotCounted(t.lens[j], t.tops[j]);
  }

  lemma DropCountedIff(ts: Tables, key: Str)
    requires Counted(ts) && Find(ts, key).Here? && Removed(ts, key).Some?
    ensures Counted(Removed(ts, key).value) <==> Gentle(ts, key)
  {
    DeleteKeepsInv(ts, key);
    DeleteCounts(ts, key);
    hide HashOf, T.Search, R.Remove, T.Ordered, TableCounted, T.TreeMap, R.NoTurnBelow;
    var w := Stop(ts, 0, key);
    var t := ts[w];
    var j := At(t, key);
    assert SlotOk(ts, w, j) && TableCounted(t);
    var tree := t.tops[j].tree;
    var us, r := Removed(ts, key).value, R.Remove(tree, key).value;
    TreeCounted(t, j);
    T.SearchIsMap(tree, key);
    R.RemoveExactIff(tree, key);
    SetSlotCounted(t, j, t.lens[j] - 1, Avl(r));
    assert us[w] == SetSlot(t, j, t.lens[j] - 1, Avl(r));
  }

  // ----- runs -----

  ghost predicate TakesOne(ts: Tables, op: Op)
    requires Inv(ts)
  {
    op.Drop? && Find(ts, op.key).Here? && Step(ts, op).Some? ==> Gentle(ts, op.key)
  }

  lemma StepCountedIff(ts: Tables, op: Op)
    requires Counted(ts)
    ensures Counted(After(ts, op)) <==> TakesOne(ts, op)
  {
    hide Counted, Inserted, Removed, Find, Gentle, Inv;
    CountedInv(ts);
    var f := Find(ts, op.key);
    match op
    case Put(key, meta) =>
      if f.Absent? && Inserted(ts, key, meta).Some? {
        PutCounted(ts, key, meta);
      }
    case Drop(key) =>
      if f.Here? && Removed(ts, key).Some? {
        DropCountedIff(ts, key);
      }
  }

  lemma CountedInv(ts: Tables)
    requires Counted(ts)
    ensures Inv(ts)
  {
  }

  ghost predicate StaysCounted(ts: Tables, ops: seq<Op>)
    decreases |ops|
  {
    Counted(ts) && (ops != [] ==> StaysCounted(After(ts, ops[0]), ops[1..]))
  }

  ghost predicate NoneLost(ts: Tables, ops: seq<Op>)
    decreases |ops|
  {
    ops != [] ==> Inv(ts) && TakesOne(ts, ops[0]) && NoneLost(After(ts, ops[0]), ops[1..])
  }

  // Over every run of a new index, every counter is the number of entries in its
  // slot's tree exactly when no removal loses other keys.
  lemma {:induction false} RunCountedIff(ts: Tables, ops: seq<Op>)
    requires Counted(ts)
    ensures StaysCounted(ts, ops) <==> NoneLost(ts, ops)
    decreases |ops|
  {
    hide Counted, TakesOne, Inv, Step;
    CountedInv(ts);
    if ops != [] {
      StepCountedIff(ts, ops[0]);
      if Counted(After(ts, ops[0])) {
        RunCountedIff(After(ts, ops[0]), ops[1..]);
      }
    }
  }
}
