/** The key index seen as a finite map, over every run of insertions and
    deletions, and the class whose loops walk and change it. */
module HashRuns {
  import opened Bytes
  import opened Hash
  import opened HashIndex
  import opened Options
  import T = AvlTree
  import R = AvlRemove
  import B = AvlBalance

  type Map = map<Str, nat>

  function Get(m: Map, k: Str): Found {
    if k in m then Here(m[k]) else Absent
  }

  // Every search answers as the map does, and nothing else is stored.
  ghost predicate Refines(ts: Tables, m: Map) {
    Inv(ts) && Reached(ts) && forall k: Str :: Find(ts, k) == Get(m, k)
  }

  lemma EmptyIndex()
    ensures Refines([NewTable(0)], map[])
  {
    hide HashOf, SlotOk, ChildOk;
    var ts := [NewTable(0)];
    NewTableOk(0);
    forall j | 0 <= j < MAX_HASH_NODE ensures SlotOk(ts, 0, j) {
      NewSlotOk(ts, 0, j);
    }
    assert TableOk(ts, 0);
    forall k: Str ensures Find(ts, k) == Absent {
      assert SearchIn(ts[0], k) == None;
    }
    assert Reached(ts);
  }

  lemma NewSlotOk(ts: Tables, i: nat, j: nat)
    requires i < |ts| && ts[i] == NewTable(ts[i].dep) && j < MAX_HASH_NODE
    ensures SlotOk(ts, i, j)
  {
    assert T.Inorder(T.Leaf) == [];
  }

  // Inserting an absent key extends the map exactly when no slot is spoilt.
  lemma PutRefinesIff(ts: Tables, m: Map, key: Str, meta: nat)
    requires Refines(ts, m) && key !in m && Inserted(ts, key, meta).Some?
    ensures Refines(Inserted(ts, key, meta).value, m[key := meta]) <==> !Spoils(ts, key)
  {
    hide Find, Inserted, Spoils, Reached, Inv;
    assert Find(ts, key) == Absent;
    var us := Inserted(ts, key, meta).value;
    InsertKeepsReached(ts, key, meta);
    forall k: Str
      ensures Find(us, k) ==
        if Spoils(ts, key) && SameSlot(ts, key, k) && SameInChild(ts, key, k) then Misread
        else if k == key then Here(meta) else Find(ts, k)
    {
      InsertFinds(ts, key, meta, k);
    }
    assert SameSlot(ts, key, key) && SameInChild(ts, key, key);
    assert Get(m[key := meta], key) == Here(meta);
  }

  // Deleting a present key shrinks the map exactly when no node below the root
  // of its tree is rotated.
  lemma DropRefinesIff(ts: Tables, m: Map, key: Str)
    requires Refines(ts, m) && key in m && Removed(ts, key).Some?
    ensures Refines(Removed(ts, key).value, m - {key}) <==> Gentle(ts, key)
  {
    hide Removed, R.Remove, T.TreeMap, R.NoTurnBelow, T.Search, HashOf;
    var us := Removed(ts, key).value;
    var tree := TreeFor(ts, key);
    assert Find(ts, key) == Here(m[key]);
    TreeForOk(ts, key);
    RemovedRoot(ts, key);
    DeleteKeepsReached(ts, key);
    T.SearchIsMap(tree, key);
    R.RemoveMapIff(tree, key);
    var r := R.Remove(tree, key).value;
    R.RemoveInventsNothing(tree, key);
    if Gentle(ts, key) {
      forall k: Str ensures Find(us, k) == Get(m - {key}, k) {
        DeleteFinds(ts, key, k);
        T.SearchIsMap(r, k);
        T.SearchIsMap(tree, k);
      }
    } else {
      var k :| k in T.TreeMap(tree) && k != key && k !in T.TreeMap(r);
      T.SearchIsMap(r, k);
      T.SearchIsMap(tree, k);
      HeldThere(ts, key, k);
      DeleteFinds(ts, key, k);
      assert Find(us, k) == Absent && Get(m - {key}, k) == Find(ts, k);
    }
  }

  lemma TreeForOk(ts: Tables, key: Str)
    requires Inv(ts)
    ensures T.Ordered(TreeFor(ts, key))
    ensures Find(ts, key).Here? ==> T.Search(TreeFor(ts, key), key).Some?
    ensures forall k: Str :: SameSlot(ts, key, k) && !Find(ts, key).Misread? ==> Find(ts, k) == Answer(T.Search(TreeFor(ts, key), k))
  {
    hide HashOf, T.Search;
    var w := Stop(ts, 0, key);
    assert SlotOk(ts, w, At(ts[w], key));
  }

  lemma RemovedRoot(ts: Tables, key: Str)
    requires Inv(ts) && Removed(ts, key).Some?
    ensures R.Remove(TreeFor(ts, key), key).Some?
  {
  }

  // A key held in the tree of another key's slot is looked for there.
  lemma HeldThere(ts: Tables, key: Str, k: Str)
    requires Inv(ts) && Reached(ts) && T.Search(TreeFor(ts, key), k).Some?
    ensures SameSlot(ts, key, k)
  {
    hide HashOf, T.Search, Bucket;
    var w := Stop(ts, 0, key);
    var t := ts[w];
    var j := At(t, key);
    assert SlotOk(ts, w, j);
    KeyHashes(t.tops[j].tree, t.lens[j], t.dep, j, k);
    assert Holds(ts, w, k);
  }

  // ----- runs -----

  datatype Op = Put(key: Str, meta: nat) | Drop(key: Str)

  // hashmap_insert_key and hashmap_delete_key: both search first. None stands
  // for a step through a bad pointer.
  ghost function Step(ts: Tables, op: Op): Option<Tables>
    requires Inv(ts)
  {
    var f := Find(ts, op.key);
    match op
    case Put(key, meta) => if f.Misread? then None else if f.Here? then Some(ts) else Inserted(ts, key, meta)
    case Drop(key) => if f.Misread? then None else if f.Absent? then Some(ts) else Removed(ts, key)
  }

  function Expected(m: Map, op: Op): Map {
    match op
    case Put(key, meta) => if key in m then m else m[key := meta]
    case Drop(key) => m - {key}
  }

  // The conditions found above, for one step.
  ghost predicate Good(ts: Tables, op: Op)
    requires Inv(ts)
  {
    match op
    case Put(key, _) => Find(ts, key) == Absent ==> !Spoils(ts, key)
    case Drop(key) => Find(ts, key).Here? ==> Gentle(ts, key)
  }

  lemma StepRefinesIff(ts: Tables, m: Map, op: Op)
    requires Refines(ts, m) && Step(ts, op).Some?
    ensures Refines(Step(ts, op).value, Expected(m, op)) <==> Good(ts, op)
  {
    hide Inserted, Removed, Spoils, Gentle, Reached, Inv, Find;
    assert Find(ts, op.key) == Get(m, op.key);
    match op
    case Put(key, meta) =>
      if key !in m {
        PutRefinesIff(ts, m, key, meta);
      }
    case Drop(key) =>
      if key in m {
        DropRefinesIff(ts, m, key);
      } else {
        assert m - {key} == m;
      }
  }

  // After every step of the run the index answers as the map does.
  ghost predicate Tracks(ts: Tables, m: Map, ops: seq<Op>)
    decreases |ops|
  {
    Refines(ts, m) &&
    (ops != [] ==> Step(ts, ops[0]).Some? && Tracks(Step(ts, ops[0]).value, Expected(m, ops[0]), ops[1..]))
  }

  ghost predicate GoodRun(ts: Tables, m: Map, ops: seq<Op>)
    decreases |ops|
  {
    ops != [] ==>
      Inv(ts) && Step(ts, ops[0]).Some? && Good(ts, ops[0])
      && GoodRun(Step(ts, ops[0]).value, Expected(m, ops[0]), ops[1..])
  }

  // Over every run from an index that refines a map, it goes on refining the
  // map exactly when every step meets its condition.
  lemma {:induction false} RunTracksIff(ts: Tables, m: Map, ops: seq<Op>)
    requires Refines(ts, m)
    ensures Tracks(ts, m, ops) <==> GoodRun(ts, m, ops)
    decreases |ops|
  {
    hide Step, Good, Refines, Inv;
    if ops != [] {
      RefinesInv(ts, m);
      if Step(ts, ops[0]).Some? {
        var us, n := Step(ts, ops[0]).value, Expected(m, ops[0]);
        StepRefinesIff(ts, m, ops[0]);
        if Good(ts, ops[0]) {
          RunTracksIff(us, n, ops[1..]);
        }
      }
    }
  }

  lemma RefinesInv(ts: Tables, m: Map)
    requires Refines(ts, m)
    ensures Inv(ts)
  {
  }

  // A step at a balanced tree goes through no bad pointer, unless it rebuilds.
  lemma BalancedStep(ts: Tables, m: Map, op: Op)
    requires Refines(ts, m) && T.Exact(TreeFor(ts, op.key)) && T.Balanced(TreeFor(ts, op.key))
    requires var t := ts[Stop(ts, 0, op.key)]; t.lens[At(t, op.key)] + 1 != MAX_HASH_DEP
    ensures Step(ts, op).Some?
  {
    hide HashOf, T.Insert, R.Remove, T.Exact, T.Balanced, Reached;
    var tree := TreeFor(ts, op.key);
    assert Find(ts, op.key) == Get(m, op.key);
    if tree.Node? && op.Put? {
      B.InsertBalancedIff(tree, op.key, op.meta);
    }
    R.RemoveTotal(tree, op.key);
  }
}
