/** The key index: a table of AVL trees whose full slots are rebuilt as child
    tables, and the finite map it stands for. Tables are named by the order in
    which they were allocated. */
module HashIndex {
  import opened Bytes
  import opened Keys
  import opened Assoc
  import opened Hash
  import opened Options
  import T = AvlTree
  import R = AvlRemove

  // What a slot's pointer leads to: a tree, or a child table.
  datatype Slot = Avl(tree: T.Tree) | Sub(child: nat)

  datatype Table = Table(dep: nat, lens: seq<nat>, tops: seq<Slot>)

  type Tables = seq<Table>

  // Misread: the walk takes a tree node for a table.
  datatype Found = Misread | Absent | Here(meta: nat)

  function Repeated<X>(n: nat, x: X): (s: seq<X>)
    ensures |s| == n && forall i :: 0 <= i < n ==> s[i] == x
  {
    if n == 0 then [] else [x] + Repeated(n - 1, x)
  }

  // hash_new_node
  function NewTable(dep: nat): (t: Table)
    ensures t.dep == dep && Sized(t)
    ensures forall j :: 0 <= j < MAX_HASH_NODE ==> t.lens[j] == 0 && t.tops[j] == Avl(T.Leaf)
  {
    Table(dep, Repeated(MAX_HASH_NODE, 0), Repeated(MAX_HASH_NODE, Avl(T.Leaf)))
  }

  predicate Sized(t: Table) {
    |t.lens| == MAX_HASH_NODE && |t.tops| == MAX_HASH_NODE
  }

  // The entries of a slot: in order, hashed to it, and no more than counted. A
  // removal that loses nodes leaves the count too high.
  ghost predicate Bucket(tree: T.Tree, n: nat, dep: nat, j: nat) {
    T.Ordered(tree) && |T.Inorder(tree)| <= n && HashTo(T.Inorder(tree), dep, j)
  }

  ghost predicate HashTo(e: Entries, dep: nat, j: nat) {
    forall i :: 0 <= i < |e| ==> HashOf(e[i].0, dep) == j
  }

  ghost predicate SlotOk(ts: Tables, i: nat, j: nat)
    requires i < |ts| && j < MAX_HASH_NODE && Sized(ts[i])
  {
    var t := ts[i];
    if t.lens[j] <= MAX_HASH_DEP then t.tops[j].Avl? && Bucket(t.tops[j].tree, t.lens[j], t.dep, j)
    else t.lens[j] == MAX_HASH_DEP + 1 && t.tops[j].Sub? && Below(ts, i, t.tops[j].child)
  }

  ghost predicate Below(ts: Tables, i: nat, child: nat)
    requires i < |ts|
  {
    i < child < |ts| && ts[child].dep == ts[i].dep + 1
  }

  ghost predicate TableOk(ts: Tables, i: nat)
    requires i < |ts|
  {
    Sized(ts[i]) && forall j :: 0 <= j < MAX_HASH_NODE ==> SlotOk(ts, i, j)
  }

  ghost predicate Inv(ts: Tables) {
    |ts| > 0 && ts[0].dep == 0 && forall i :: 0 <= i < |ts| ==> TableOk(ts, i)
  }

  function At(t: Table, key: Str): (j: nat)
    ensures j < MAX_HASH_NODE
  {
    HashOf(key, t.dep)
  }

  // The table at which the walk for a key stops.
  ghost function Stop(ts: Tables, i: nat, key: Str): (w: nat)
    requires Inv(ts) && i < |ts|
    ensures w < |ts| && Sized(ts[w]) && TableOk(ts, w) && ts[w].lens[At(ts[w], key)] <= MAX_HASH_DEP
    ensures ts[w].tops[At(ts[w], key)].Avl?
    decreases |ts| - i
  {
    assert TableOk(ts, i);
    var j := At(ts[i], key);
    assert SlotOk(ts, i, j);
    if ts[i].lens[j] <= MAX_HASH_DEP then i else Stop(ts, ts[i].tops[j].child, key)
  }

  ghost function Find(ts: Tables, key: Str): Found
    requires Inv(ts)
  {
    FindAt(ts[Stop(ts, 0, key)], key)
  }

  function FindAt(t: Table, key: Str): Found
    requires Sized(t) && t.tops[At(t, key)].Avl?
  {
    if t.lens[At(t, key)] >= MAX_HASH_DEP then Misread
    else Answer(T.Search(t.tops[At(t, key)].tree, key))
  }

  function Answer(r: Option<nat>): Found {
    if r.None? then Absent else Here(r.value)
  }

  // The tree of the slot where the walk for a key stops.
  ghost function TreeFor(ts: Tables, key: Str): T.Tree
    requires Inv(ts)
  {
    var t := ts[Stop(ts, 0, key)];
    t.tops[At(t, key)].tree
  }

  // ----- inserting -----

  // A new node put into a tree that may be empty; None follows a null pointer.
  function Grafted(tree: T.Tree, key: Str, meta: nat): Option<T.Tree> {
    if tree.Leaf? then Some(T.Single(key, meta)) else T.Insert(tree, key, meta)
  }

  function SetSlot(t: Table, j: nat, len: nat, slot: Slot): (r: Table)
    requires Sized(t) && j < MAX_HASH_NODE
    ensures Sized(r) && r.dep == t.dep
  {
    t.(lens := t.lens[j := len], tops := t.tops[j := slot])
  }

  predicate Flat(t: Table) {
    Sized(t) && forall j :: 0 <= j < MAX_HASH_NODE ==> t.tops[j].Avl?
  }

  // One node of the old tree hung into the child table.
  function Placed(c: Table, key: Str, meta: nat): (r: Option<Table>)
    requires Flat(c)
    ensures r.Some? ==> Flat(r.value) && r.value.dep == c.dep
  {
    var j := At(c, key);
    var g := Grafted(c.tops[j].tree, key, meta);
    if g.None? then None else Some(SetSlot(c, j, c.lens[j] + 1, Avl(g.value)))
  }

  // __hash_insert_avl_in_hash: left subtree, right subtree, then the node.
  function Spread(t: T.Tree, c: Table): (r: Option<Table>)
    requires Flat(c)
    ensures r.Some? ==> Flat(r.value) && r.value.dep == c.dep
    decreases t
  {
    if t.Leaf? then Some(c)
    else
      var l := Spread(t.left, c);
      if l.None? then None else
      var r := Spread(t.right, l.value);
      if r.None? then None else Placed(r.value, t.key, t.meta)
  }

  // The nodes of a tree, children before parents and left before right.
  function Postorder(t: T.Tree): Entries {
    if t.Leaf? then [] else Postorder(t.left) + Postorder(t.right) + [(t.key, t.meta)]
  }

  function PlaceAll(e: Entries, c: Table): (r: Option<Table>)
    requires Flat(c)
    ensures r.Some? ==> Flat(r.value)
  {
    if e == [] then Some(c) else
    var front := PlaceAll(e[..|e| - 1], c);
    if front.None? then None else Placed(front.value, e[|e| - 1].0, e[|e| - 1].1)
  }

  lemma {:induction false} PlaceAllParts(a: Entries, b: Entries, c: Table)
    requires Flat(c)
    ensures PlaceAll(a + b, c) == if PlaceAll(a, c).None? then None else PlaceAll(b, PlaceAll(a, c).value)
    decreases |b|
  {
    hide Placed;
    if b == [] {
      assert a + b == a;
    } else {
      var last := |b| - 1;
      PlaceAllParts(a, b[..last], c);
      assert (a + b)[..|a + b| - 1] == a + b[..last];
    }
  }

  // They are hung into the child table in this order.
  lemma {:induction false} SpreadIsPostorder(t: T.Tree, c: Table)
    requires Flat(c)
    ensures Spread(t, c) == PlaceAll(Postorder(t), c)
    decreases t
  {
    hide Placed;
    if t.Node? {
      var a, b, x := Postorder(t.left), Postorder(t.right), (t.key, t.meta);
      SpreadIsPostorder(t.left, c);
      var l := Spread(t.left, c);
      if l.Some? {
        SpreadIsPostorder(t.right, l.value);
      }
      PlaceAllParts(a, b, c);
      assert (a + b + [x])[..|a + b + [x]| - 1] == a + b;
    }
  }

  // hash_insert with __hash_remake at the slot where the walk stopped; None
  // when a null pointer is followed or a tree node is taken for a table.
  ghost function Inserted(ts: Tables, key: Str, meta: nat): Option<Tables>
    requires Inv(ts)
  {
    var w := Stop(ts, 0, key);
    var t := ts[w];
    var j := At(t, key);
    if t.lens[j] >= MAX_HASH_DEP then None else
    var g := Grafted(t.tops[j].tree, key, meta);
    if g.None? then None
    else if t.lens[j] + 1 != MAX_HASH_DEP then Some(ts[w := SetSlot(t, j, t.lens[j] + 1, Avl(g.value))])
    else
      var c := Spread(g.value, NewTable(t.dep + 1));
      if c.None? then None else Some(Rebuilt(ts, w, j, c.value))
  }

  function Rebuilt(ts: Tables, w: nat, j: nat, c: Table): Tables
    requires w < |ts| && Sized(ts[w]) && j < MAX_HASH_NODE
  {
    ts[w := SetSlot(ts[w], j, MAX_HASH_DEP + 1, Sub(|ts|))] + [c]
  }

  // ----- one slot -----

  lemma AbsentKey(tree: T.Tree, key: Str)
    requires T.Ordered(tree)
    ensures T.Search(tree, key) == Lookup(T.Inorder(tree), key)
    ensures T.Search(tree, key) == None <==> !HasKey(T.Inorder(tree), key)
  {
    T.SearchFinds(tree, key);
    LookupIsMap(T.Inorder(tree), key);
  }

  lemma GraftedAdds(tree: T.Tree, key: Str, meta: nat)
    requires T.Ordered(tree) && T.Search(tree, key) == None && Grafted(tree, key, meta).Some?
    ensures var g := Grafted(tree, key, meta).value;
      T.Inorder(g) == Added(T.Inorder(tree), key, meta) && T.Ordered(g) && |T.Inorder(g)| == |T.Inorder(tree)| + 1
  {
    hide T.Insert, Sorted, HasKey;
    AbsentKey(tree, key);
    if tree.Leaf? {
      T.SingleAdded(key, meta);
    } else {
      T.InsertAdds(tree, key, meta);
    }
    AddedIsMapUpdate(T.Inorder(tree), key, meta);
    AddedLength(T.Inorder(tree), key, meta);
  }

  lemma {:induction false} AddedLength(e: Entries, key: Str, meta: nat)
    ensures |Added(e, key, meta)| == |e| + 1
  {
    if e != [] {
      AddedLength(e[1..], key, meta);
    }
  }

  lemma GraftedFinds(tree: T.Tree, key: Str, meta: nat, k: Str)
    requires T.Ordered(tree) && T.Search(tree, key) == None && Grafted(tree, key, meta).Some?
    ensures T.Search(Grafted(tree, key, meta).value, k) == if k == key then Some(meta) else T.Search(tree, k)
  {
    hide Grafted, Sorted, HasKey, T.Search, T.Inorder, Added;
    var g := Grafted(tree, key, meta).value;
    GraftedAdds(tree, key, meta);
    AbsentKey(tree, key);
    AbsentKey(tree, k);
    AbsentKey(g, k);
    AddedIsMapUpdate(T.Inorder(tree), key, meta);
    LookupIsMap(T.Inorder(tree), k);
    LookupIsMap(T.Inorder(g), k);
  }

  lemma GraftedBucket(tree: T.Tree, n: nat, dep: nat, j: nat, key: Str, meta: nat)
    requires Bucket(tree, n, dep, j) && HashOf(key, dep) == j
    requires T.Search(tree, key) == None && Grafted(tree, key, meta).Some?
    ensures Bucket(Grafted(tree, key, meta).value, n + 1, dep, j)
  {
    hide Grafted, Sorted, T.Search, T.Inorder, HashOf;
    GraftedAdds(tree, key, meta);
    var e := T.Inorder(tree);
    forall i | 0 <= i < |Added(e, key, meta)|
      ensures HashOf(Added(e, key, meta)[i].0, dep) == j
    {
      AddedElements(e, key, meta, i);
    }
  }

  // ----- a rebuilt slot -----

  ghost predicate ChildOk(c: Table) {
    Flat(c) && forall j :: 0 <= j < MAX_HASH_NODE ==> Bucket(c.tops[j].tree, c.lens[j], c.dep, j)
  }

  function SearchIn(c: Table, key: Str): Option<nat>
    requires Flat(c)
  {
    T.Search(c.tops[At(c, key)].tree, key)
  }

  ghost predicate Fresh(e: Entries, c: Table)
    requires Flat(c)
  {
    forall i :: 0 <= i < |e| ==> SearchIn(c, e[i].0) == None
  }

  // The entries found first among e, then in c.
  function Merged(e: Entries, c: Table, key: Str): Option<nat>
    requires Flat(c)
  {
    if Lookup(e, key).Some? then Lookup(e, key) else SearchIn(c, key)
  }

  // How many of the entries hash to a slot.
  function Count(e: Entries, dep: nat, j: nat): nat {
    if e == [] then 0 else (if HashOf(e[0].0, dep) == j then 1 else 0) + Count(e[1..], dep, j)
  }

  lemma {:induction false} CountSplit(a: Entries, x: Entry, b: Entries, dep: nat, j: nat)
    ensures Count(a + [x] + b, dep, j) == Count(a, dep, j) + (if HashOf(x.0, dep) == j then 1 else 0) + Count(b, dep, j)
  {
    var e := a + [x] + b;
    if a == [] {
      assert e[0] == x && e[1..] == b;
    } else {
      CountSplit(a[1..], x, b, dep, j);
      assert e[0] == a[0] && e[1..] == a[1..] + [x] + b;
    }
  }

  lemma {:induction false} CountFull(e: Entries, dep: nat, j: nat)
    ensures Count(e, dep, j) <= |e|
    ensures Count(e, dep, j) == |e| <==> HashTo(e, dep, j)
  {
    if e != [] {
      CountFull(e[1..], dep, j);
      if HashTo(e, dep, j) {
        assert HashOf(e[0].0, dep) == j;
        forall i | 0 <= i < |e[1..]| ensures HashOf(e[1..][i].0, dep) == j {
          assert e[1..][i] == e[i + 1];
        }
      }
      if HashTo(e[1..], dep, j) && HashOf(e[0].0, dep) == j {
        forall i | 0 <= i < |e| ensures HashOf(e[i].0, dep) == j {
          if i > 0 {
            assert e[i] == e[1..][i - 1];
          }
        }
      }
    }
  }

  lemma PlacedOk(c: Table, key: Str, meta: nat)
    requires ChildOk(c) && SearchIn(c, key) == None && Placed(c, key, meta).Some?
    ensures var r := Placed(c, key, meta).value;
      ChildOk(r) && forall j :: 0 <= j < MAX_HASH_NODE ==> r.lens[j] == c.lens[j] + if At(c, key) == j then 1 else 0
  {
    hide Grafted, Bucket, HashOf, T.Search;
    var j := At(c, key);
    GraftedBucket(c.tops[j].tree, c.lens[j], c.dep, j, key, meta);
  }

  lemma PlacedFinds(c: Table, key: Str, meta: nat, k: Str)
    requires ChildOk(c) && SearchIn(c, key) == None && Placed(c, key, meta).Some?
    ensures SearchIn(Placed(c, key, meta).value, k) == if k == key then Some(meta) else SearchIn(c, k)
  {
    hide Grafted, HashOf, T.Search, T.Inorder, T.Ordered;
    var j := At(c, key);
    assert Bucket(c.tops[j].tree, c.lens[j], c.dep, j);
    GraftedFinds(c.tops[j].tree, key, meta, k);
  }

  lemma FreshParts(a: Entries, x: Entry, b: Entries, c: Table)
    requires Flat(c) && Fresh(a + [x] + b, c)
    ensures Fresh(a, c) && SearchIn(c, x.0) == None && Fresh(b, c)
  {
    hide T.Search, HashOf;
    var e := a + [x] + b;
    assert e[|a|] == x;
    forall i | 0 <= i < |a| ensures SearchIn(c, a[i].0) == None {
      assert e[i] == a[i];
    }
    forall i | 0 <= i < |b| ensures SearchIn(c, b[i].0) == None {
      assert e[|a| + 1 + i] == b[i];
    }
  }

  // A key of sorted entries lies on one side only.
  lemma EitherSide(a: Entries, x: Entry, b: Entries, k: Str)
    requires SortedAround(a, x, b)
    ensures Lookup(a, k).Some? ==> k != x.0 && Lookup(b, k) == None
    ensures Lookup(b, k).Some? ==> k != x.0 && Lookup(a, k) == None
  {
    hide Before, Sorted, Lookup;
    LookupIsMap(a, k);
    LookupIsMap(b, k);
    Irreflexive(x.0);
    if HasKey(a, k) {
      assert Before(k, x.0);
    }
    if HasKey(b, k) {
      assert Before(x.0, k);
    }
    if HasKey(a, k) && HasKey(b, k) {
      BeforeTransitive(x.0, k, x.0);
    }
  }

  lemma HasOwn(b: Entries, i: nat)
    requires i < |b|
    ensures Lookup(b, b[i].0).Some?
  {
    LookupIsMap(b, b[i].0);
  }

  // What was fresh beside the left part stays so when that part has moved.
  lemma StillFresh(a: Entries, x: Entry, b: Entries, c: Table, l: Table)
    requires SortedAround(a, x, b) && Flat(c) && Flat(l) && Fresh(b, c)
    requires forall k: Str :: SearchIn(l, k) == Merged(a, c, k)
    ensures Fresh(b, l)
  {
    hide T.Search, HashOf, Before, Sorted, Lookup;
    forall i | 0 <= i < |b| ensures SearchIn(l, b[i].0) == None {
      HasOwn(b, i);
      EitherSide(a, x, b, b[i].0);
    }
  }

  lemma MergedParts(a: Entries, x: Entry, b: Entries, c: Table, l: Table, r: Table, k: Str)
    requires SortedAround(a, x, b) && Flat(c) && Flat(l) && Flat(r)
    requires SearchIn(l, k) == Merged(a, c, k) && SearchIn(r, k) == Merged(b, l, k)
    ensures Merged(a + [x] + b, c, k) == if k == x.0 then Some(x.1) else SearchIn(r, k)
  {
    hide T.Search, HashOf, Before, Sorted, Lookup;
    EitherSide(a, x, b, k);
    LookupSplit(a, x, b, k);
  }

  // The child table gets every entry of the tree, once, and keeps its own.
  lemma {:induction false} SpreadMoves(t: T.Tree, c: Table)
    requires ChildOk(c) && T.Ordered(t) && Fresh(T.Inorder(t), c) && Spread(t, c).Some?
    ensures ChildOk(Spread(t, c).value)
    ensures forall k: Str :: SearchIn(Spread(t, c).value, k) == Merged(T.Inorder(t), c, k)
    ensures forall j :: 0 <= j < MAX_HASH_NODE ==> Spread(t, c).value.lens[j] == c.lens[j] + Count(T.Inorder(t), c.dep, j)
    decreases t
  {
    assert Flat(c);
    hide Sorted, HashOf, T.Search, Placed, ChildOk, HasKey;
    if t.Node? {
      var a, x, b := T.Inorder(t.left), (t.key, t.meta), T.Inorder(t.right);
      T.OrderedNode(t);
      var l := Spread(t.left, c).value;
      FreshParts(a, x, b, c);
      SpreadMoves(t.left, c);
      StillFresh(a, x, b, c, l);
      var r := Spread(t.right, l).value;
      SpreadMoves(t.right, l);
      EitherSide(a, x, b, t.key);
      PlacedOk(r, t.key, t.meta);
      var p := Placed(r, t.key, t.meta).value;
      forall k: Str
        ensures SearchIn(p, k) == Merged(T.Inorder(t), c, k)
      {
        PlacedFinds(r, t.key, t.meta, k);
        MergedParts(a, x, b, c, l, r, k);
      }
      forall j | 0 <= j < MAX_HASH_NODE
        ensures p.lens[j] == c.lens[j] + Count(T.Inorder(t), c.dep, j)
      {
        CountSplit(a, x, b, c.dep, j);
      }
    }
  }

  lemma NewTableOk(dep: nat)
    ensures ChildOk(NewTable(dep)) && forall k: Str :: SearchIn(NewTable(dep), k) == None
  {
    hide HashOf;
    assert T.Inorder(T.Leaf) == [];
  }

  // A rebuilt tree: the child answers exactly as the tree did, every slot of it
  // counts the entries hashed there, so none is lost and none is doubled.
  lemma RebuildKeepsEntries(t: T.Tree, dep: nat)
    requires T.Ordered(t) && Spread(t, NewTable(dep)).Some?
    ensures var c := Spread(t, NewTable(dep)).value;
      ChildOk(c) && c.dep == dep
      && (forall k: Str :: SearchIn(c, k) == T.Search(t, k))
      && forall j :: 0 <= j < MAX_HASH_NODE ==> c.lens[j] == Count(T.Inorder(t), dep, j) <= |T.Inorder(t)|
  {
    hide T.Search, Sorted, Count, HashOf, ChildOk, Lookup, Spread;
    NewTableOk(dep);
    var c := Spread(t, NewTable(dep)).value;
    SpreadMoves(t, NewTable(dep));
    forall k: Str ensures SearchIn(c, k) == T.Search(t, k) {
      T.SearchFinds(t, k);
    }
    forall j | 0 <= j < MAX_HASH_NODE ensures c.lens[j] == Count(T.Inorder(t), dep, j) <= |T.Inorder(t)| {
      CountFull(T.Inorder(t), dep, j);
    }
  }

  // ----- the index before and after a change of one slot -----

  // Nothing but slot j of table w differs; tables may have been added.
  ghost predicate OneSlot(ts: Tables, us: Tables, w: nat, j: nat) {
    && w < |ts| <= |us| && j < MAX_HASH_NODE
    && forall i :: 0 <= i < |ts| ==> SameBut(ts[i], us[i], if i == w then j else MAX_HASH_NODE)
  }

  ghost predicate SameBut(t: Table, u: Table, j: nat) {
    && Sized(t) && Sized(u) && t.dep == u.dep
    && forall m :: 0 <= m < MAX_HASH_NODE && m != j ==> t.lens[m] == u.lens[m] && t.tops[m] == u.tops[m]
  }

  lemma SetSlotSame(t: Table, j: nat, len: nat, slot: Slot)
    requires Sized(t) && j < MAX_HASH_NODE
    ensures SameBut(t, SetSlot(t, j, len, slot), j)
  {
  }

  lemma OneSlotOf(ts: Tables, us: Tables, w: nat, j: nat)
    requires Inv(ts) && w < |ts| <= |us| && j < MAX_HASH_NODE && SameBut(ts[w], us[w], j)
    requires forall i :: 0 <= i < |ts| && i != w ==> ts[i] == us[i]
    ensures OneSlot(ts, us, w, j)
  {
    hide SlotOk;
    forall i | 0 <= i < |ts| ensures SameBut(ts[i], us[i], if i == w then j else MAX_HASH_NODE) {
      assert TableOk(ts, i);
    }
  }

  // One slot changed within the rules, and well-formed tables added.
  lemma OneSlotInv(ts: Tables, us: Tables, w: nat, j: nat)
    requires Inv(ts) && OneSlot(ts, us, w, j) && SlotOk(us, w, j)
    requires forall i :: |ts| <= i < |us| ==> TableOk(us, i)
    ensures Inv(us)
  {
    hide Bucket;
    forall i | 0 <= i < |us| ensures TableOk(us, i) {
      if i < |ts| {
        assert SameBut(ts[i], us[i], if i == w then j else MAX_HASH_NODE);
        assert TableOk(ts, i);
        forall m | 0 <= m < MAX_HASH_NODE ensures SlotOk(us, i, m) {
          if i != w || m != j {
            assert SlotOk(ts, i, m);
            if ts[i].lens[m] > MAX_HASH_DEP {
              var d := ts[i].tops[m].child;
              assert SameBut(ts[d], us[d], if d == w then j else MAX_HASH_NODE);
            }
          }
        }
      }
    }
    assert SameBut(ts[0], us[0], if 0 == w then j else MAX_HASH_NODE);
  }

  // Where the walk goes: as before, unless it came to the changed slot and
  // that now leads to a child table.
  lemma {:induction false} StopAfter(ts: Tables, us: Tables, w: nat, j: nat, i: nat, k: Str)
    requires Inv(ts) && Inv(us) && OneSlot(ts, us, w, j) && i < |ts|
    requires ts[w].lens[j] <= MAX_HASH_DEP
    requires us[w].lens[j] > MAX_HASH_DEP ==> us[w].tops[j].Sub? && us[w].tops[j].child < |us| && ChildOk(us[us[w].tops[j].child])
    requires us[w].lens[j] > MAX_HASH_DEP ==> Small(us[us[w].tops[j].child])
    ensures Stop(us, i, k) ==
      if Stop(ts, i, k) == w && At(ts[w], k) == j && us[w].lens[j] > MAX_HASH_DEP then us[w].tops[j].child
      else Stop(ts, i, k)
    decreases |ts| - i
  {
    hide Bucket, HashOf;
    assert TableOk(ts, i) && TableOk(us, i);
    assert SameBut(ts[i], us[i], if i == w then j else MAX_HASH_NODE);
    var m := At(ts[i], k);
    assert SlotOk(ts, i, m) && SlotOk(us, i, m);
    if ts[i].lens[m] > MAX_HASH_DEP {
      StopAfter(ts, us, w, j, ts[i].tops[m].child, k);
      assert Stop(ts, i, k) == Stop(ts, ts[i].tops[m].child, k);
    }
  }

  ghost predicate Small(c: Table)
    requires Sized(c)
  {
    forall j :: 0 <= j < MAX_HASH_NODE ==> c.lens[j] <= MAX_HASH_DEP
  }

  // ----- inserting an absent key -----

  // The slot is due to be rebuilt, and in the child table all its keys and the
  // new one share one slot again.
  ghost predicate Spoils(ts: Tables, key: Str)
    requires Inv(ts)
  {
    var t := ts[Stop(ts, 0, key)];
    var j := At(t, key);
    && t.lens[j] + 1 == MAX_HASH_DEP == |T.Inorder(t.tops[j].tree)| + 1
    && HashTo(T.Inorder(t.tops[j].tree), t.dep + 1, HashOf(key, t.dep + 1))
  }

  lemma {:induction false} AddedHashTo(e: Entries, key: Str, meta: nat, dep: nat, j: nat)
    ensures HashTo(Added(e, key, meta), dep, j) <==> HashTo(e, dep, j) && HashOf(key, dep) == j
  {
    hide HashOf, Before;
    var r := Added(e, key, meta);
    if e == [] || !Before(e[0].0, key) {
      assert r[0].0 == key && r[1..] == e;
      HashToTail(r, dep, j);
    } else {
      AddedHashTo(e[1..], key, meta, dep, j);
      assert r[0] == e[0] && r[1..] == Added(e[1..], key, meta);
      HashToTail(r, dep, j);
      HashToTail(e, dep, j);
    }
  }

  lemma HashToTail(e: Entries, dep: nat, j: nat)
    requires e != []
    ensures HashTo(e, dep, j) <==> HashOf(e[0].0, dep) == j && HashTo(e[1..], dep, j)
  {
    hide HashOf;
    if HashOf(e[0].0, dep) == j && HashTo(e[1..], dep, j) {
      forall i | 0 <= i < |e| ensures HashOf(e[i].0, dep) == j {
        if i > 0 {
          assert e[i] == e[1..][i - 1];
        }
      }
    }
  }

  // The rebuilt child has a slot with the full count exactly when the
  // insertion spoils, and then it is the slot of all the keys.
  lemma ChildCounts(tree: T.Tree, key: Str, meta: nat, dep: nat, c: Table)
    requires T.Ordered(tree) && T.Search(tree, key) == None && Grafted(tree, key, meta).Some?
    requires |T.Inorder(tree)| + 1 <= MAX_HASH_DEP
    requires Spread(Grafted(tree, key, meta).value, NewTable(dep)) == Some(c)
    ensures ChildOk(c) && c.dep == dep && Small(c)
    ensures forall k: Str :: SearchIn(c, k) == if k == key then Some(meta) else T.Search(tree, k)
    ensures forall m :: 0 <= m < MAX_HASH_NODE ==>
      (c.lens[m] == MAX_HASH_DEP <==>
         |T.Inorder(tree)| + 1 == MAX_HASH_DEP && HashTo(T.Inorder(tree), dep, m) && HashOf(key, dep) == m)
  {
    hide Grafted, Spread, T.Search, T.Ordered, HashOf, ChildOk, HashTo;
    var g := Grafted(tree, key, meta).value;
    GraftedAdds(tree, key, meta);
    RebuildKeepsEntries(g, dep);
    forall k: Str ensures SearchIn(c, k) == if k == key then Some(meta) else T.Search(tree, k) {
      GraftedFinds(tree, key, meta, k);
    }
    forall m | 0 <= m < MAX_HASH_NODE
      ensures c.lens[m] == MAX_HASH_DEP <==>
        |T.Inorder(tree)| + 1 == MAX_HASH_DEP && HashTo(T.Inorder(tree), dep, m) && HashOf(key, dep) == m
    {
      CountFull(T.Inorder(g), dep, m);
      AddedHashTo(T.Inorder(tree), key, meta, dep, m);
    }
  }

  // Insertion keeps the index well-formed whether or not it rebuilds, and even
  // when it spoils a slot.
  lemma InsertKeepsInv(ts: Tables, key: Str, meta: nat)
    requires Inv(ts) && Find(ts, key) == Absent && Inserted(ts, key, meta).Some?
    ensures Inv(Inserted(ts, key, meta).value)
    ensures var w := Stop(ts, 0, key); OneSlot(ts, Inserted(ts, key, meta).value, w, At(ts[w], key))
  {
    hide Grafted, Spread, T.Search, HashOf, HashTo, T.Ordered;
    var w := Stop(ts, 0, key);
    var t := ts[w];
    var j := At(t, key);
    assert SlotOk(ts, w, j);
    var tree := t.tops[j].tree;
    var us := Inserted(ts, key, meta).value;
    var g := Grafted(tree, key, meta).value;
    if t.lens[j] + 1 != MAX_HASH_DEP {
      SetSlotSame(t, j, t.lens[j] + 1, Avl(g));
      OneSlotOf(ts, us, w, j);
      GraftedBucket(tree, t.lens[j], t.dep, j, key, meta);
    } else {
      var c := Spread(g, NewTable(t.dep + 1)).value;
      ChildCounts(tree, key, meta, t.dep + 1, c);
      SetSlotSame(t, j, MAX_HASH_DEP + 1, Sub(|ts|));
      OneSlotOf(ts, us, w, j);
      assert us[|ts|] == c;
      forall m | 0 <= m < MAX_HASH_NODE ensures SlotOk(us, |ts|, m) {
      }
      assert TableOk(us, |ts|);
    }
    OneSlotInv(ts, us, w, j);
  }

  // What the index answers after inserting an absent key: the new entry is
  // there and every other answer is unchanged, exactly when nothing spoils;
  // otherwise the whole slot can no longer be read.
  lemma InsertFinds(ts: Tables, key: Str, meta: nat, k: Str)
    requires Inv(ts) && Find(ts, key) == Absent && Inserted(ts, key, meta).Some?
    ensures Inv(Inserted(ts, key, meta).value)
    ensures Find(Inserted(ts, key, meta).value, k) ==
      if Spoils(ts, key) && SameSlot(ts, key, k) && SameInChild(ts, key, k) then Misread
      else if k == key then Here(meta) else Find(ts, k)
  {
    hide Grafted, Spread, T.Search, HashOf, HashTo, T.Ordered, ChildOk;
    var w := Stop(ts, 0, key);
    var t := ts[w];
    var j := At(t, key);
    assert SlotOk(ts, w, j);
    var tree := t.tops[j].tree;
    var us := Inserted(ts, key, meta).value;
    var g := Grafted(tree, key, meta).value;
    InsertKeepsInv(ts, key, meta);
    GraftedFinds(tree, key, meta, k);
    if t.lens[j] + 1 == MAX_HASH_DEP {
      var c := Spread(g, NewTable(t.dep + 1)).value;
      ChildCounts(tree, key, meta, t.dep + 1, c);
      assert us[|ts|] == c;
    }
    StopAfter(ts, us, w, j, 0, k);
    var v := Stop(ts, 0, k);
    assert SameBut(ts[v], us[v], if v == w then j else MAX_HASH_NODE);
  }

  // The walks of two keys end in one slot; they would share a slot in a child.
  ghost predicate SameSlot(ts: Tables, key: Str, k: Str)
    requires Inv(ts)
  {
    var w := Stop(ts, 0, key);
    Stop(ts, 0, k) == w && At(ts[w], k) == At(ts[w], key)
  }

  ghost predicate SameInChild(ts: Tables, key: Str, k: Str)
    requires Inv(ts)
  {
    var d := ts[Stop(ts, 0, key)].dep + 1;
    HashOf(k, d) == HashOf(key, d)
  }

  // What a caller can tell from the keys: a slot that is due to be rebuilt is
  // spoilt exactly when it lies below the first five levels, or when the numbers
  // of high bytes of its keys all differ from the new one's by multiples of
  // 2503. Slots of 7-bit keys are always spoilt.
  lemma RebuildSpoilsIff(ts: Tables, key: Str)
    requires Inv(ts)
    ensures Spoils(ts, key) <==>
      var t := ts[Stop(ts, 0, key)];
      t.lens[At(t, key)] + 1 == MAX_HASH_DEP == |T.Inorder(TreeFor(ts, key))| + 1
      && (t.dep >= 5 || AllAlike(T.Inorder(TreeFor(ts, key)), key))
  {
    hide HashOf, Highs, T.Inorder, Divides;
    var w := Stop(ts, 0, key);
    var t := ts[w];
    assert SlotOk(ts, w, At(t, key));
    var e := T.Inorder(TreeFor(ts, key));
    forall i | 0 <= i < |e|
      ensures HashOf(e[i].0, t.dep + 1) != HashOf(key, t.dep + 1) <==> t.dep < 5 && !Divides(2503, HighGap(e[i].0, key))
    {
      ChildSeparatesIff(e[i].0, key, t.dep);
    }
  }

  ghost predicate AllAlike(e: Entries, key: Str) {
    forall i :: 0 <= i < |e| ==> Divides(2503, HighGap(e[i].0, key))
  }

  // ----- deleting a present key -----

  function Pruned(t: Table, j: nat, key: Str): (r: Option<Table>)
    requires Sized(t) && j < MAX_HASH_NODE && t.tops[j].Avl?
  {
    var r := R.Remove(t.tops[j].tree, key);
    if r.None? then None
    else Some(SetSlot(t, j, if t.tops[j].tree.Leaf? || t.lens[j] == 0 then t.lens[j] else t.lens[j] - 1, Avl(r.value)))
  }

  // hash_delete
  ghost function Removed(ts: Tables, key: Str): Option<Tables>
    requires Inv(ts)
  {
    var w := Stop(ts, 0, key);
    var t := ts[w];
    if t.lens[At(t, key)] >= MAX_HASH_DEP then None else
    var p := Pruned(t, At(t, key), key);
    if p.None? then None else Some(ts[w := p.value])
  }

  // No node below the root of the key's tree is rotated by the removal.
  ghost predicate Gentle(ts: Tables, key: Str)
    requires Inv(ts)
  {
    R.NoTurnBelow(TreeFor(ts, key), key)
  }

  lemma PrunedBucket(tree: T.Tree, n: nat, dep: nat, j: nat, key: Str)
    requires Bucket(tree, n, dep, j) && T.Search(tree, key).Some? && R.Remove(tree, key).Some?
    ensures tree.Node? && n > 0 && Bucket(R.Remove(tree, key).value, n - 1, dep, j)
  {
    hide R.Remove, T.Inorder, Sorted, HashOf;
    var r := R.Remove(tree, key).value;
    T.SearchIsMap(tree, key);
    R.RemoveExactIff(tree, key);
    R.RemoveInventsNothing(tree, key);
    forall i | 0 <= i < |T.Inorder(r)| ensures HashOf(T.Inorder(r)[i].0, dep) == j {
      assert T.Inorder(r)[i] in T.Inorder(tree);
    }
  }

  // Deletion keeps the index well-formed, and changes one slot only.
  lemma DeleteKeepsInv(ts: Tables, key: Str)
    requires Inv(ts) && Find(ts, key).Here? && Removed(ts, key).Some?
    ensures Inv(Removed(ts, key).value)
    ensures var w := Stop(ts, 0, key); OneSlot(ts, Removed(ts, key).value, w, At(ts[w], key))
  {
    hide R.Remove, T.Search, HashOf, HashTo, T.Ordered;
    var w := Stop(ts, 0, key);
    var t := ts[w];
    var j := At(t, key);
    assert SlotOk(ts, w, j);
    var tree := t.tops[j].tree;
    PrunedBucket(tree, t.lens[j], t.dep, j, key);
    var us := Removed(ts, key).value;
    SetSlotSame(t, j, t.lens[j] - 1, Avl(R.Remove(tree, key).value));
    OneSlotOf(ts, us, w, j);
    OneSlotInv(ts, us, w, j);
  }

  lemma DeleteFinds(ts: Tables, key: Str, k: Str)
    requires Inv(ts) && Find(ts, key).Here? && Removed(ts, key).Some?
    ensures Inv(Removed(ts, key).value)
    ensures Find(Removed(ts, key).value, k) ==
      if SameSlot(ts, key, k) then Answer(T.Search(R.Remove(TreeFor(ts, key), key).value, k)) else Find(ts, k)
  {
    hide R.Remove, T.Search, HashOf, HashTo, T.Ordered;
    var w := Stop(ts, 0, key);
    var t := ts[w];
    var j := At(t, key);
    var us := Removed(ts, key).value;
    DeleteKeepsInv(ts, key);
    StopAfter(ts, us, w, j, 0, k);
    var v := Stop(ts, 0, k);
    assert SameBut(ts[v], us[v], if v == w then j else MAX_HASH_NODE);
  }

  // ----- every entry lies where the walk for its key ends -----

  ghost predicate Holds(ts: Tables, w: nat, k: Str)
    requires w < |ts| && Sized(ts[w])
  {
    var slot := ts[w].tops[At(ts[w], k)];
    slot.Avl? && T.Search(slot.tree, k).Some?
  }

  ghost predicate Reached(ts: Tables)
    requires Inv(ts)
  {
    forall w: nat, k: Str :: w < |ts| && TableOk(ts, w) && Holds(ts, w, k) ==> Stop(ts, 0, k) == w
  }

  // One slot changed; what it or a child made for it holds was in the tree
  // before or is the key inserted.
  lemma StillReached(ts: Tables, us: Tables, w: nat, j: nat, key: Str)
    requires Inv(ts) && Reached(ts) && Inv(us) && OneSlot(ts, us, w, j)
    requires w == Stop(ts, 0, key) && j == At(ts[w], key)
    requires |us| <= |ts| + 1
    requires us[w].lens[j] <= MAX_HASH_DEP ==> us[w].tops[j].Avl? && |us| == |ts|
    requires us[w].lens[j] > MAX_HASH_DEP ==> us[w].tops[j] == Sub(|ts|) && |us| == |ts| + 1 && ChildOk(us[|ts|]) && Small(us[|ts|])
    requires forall k: Str ::
      (if us[w].tops[j].Avl? then T.Search(us[w].tops[j].tree, k) else SearchIn(us[|ts|], k)).Some?
      ==> k == key || T.Search(ts[w].tops[j].tree, k).Some?
    ensures Reached(us)
  {
    hide HashOf, T.Search, Bucket, ChildOk;
    forall v: nat, k: Str | v < |us| && TableOk(us, v) && Holds(us, v, k)
      ensures Stop(us, 0, k) == v
    {
      StopAfter(ts, us, w, j, 0, k);
      assert SlotOk(ts, w, j);
      if v < |ts| {
        assert SameBut(ts[v], us[v], if v == w then j else MAX_HASH_NODE);
        assert TableOk(ts, v);
      }
      if T.Search(ts[w].tops[j].tree, k).Some? {
        KeyHashes(ts[w].tops[j].tree, ts[w].lens[j], ts[w].dep, j, k);
        assert Holds(ts, w, k);
      }
    }
  }

  lemma KeyHashes(tree: T.Tree, n: nat, dep: nat, j: nat, k: Str)
    requires Bucket(tree, n, dep, j) && T.Search(tree, k).Some?
    ensures HashOf(k, dep) == j
  {
    hide HashOf, T.Search, T.Inorder, Sorted;
    AbsentKey(tree, k);
  }

  lemma InsertKeepsReached(ts: Tables, key: Str, meta: nat)
    requires Inv(ts) && Reached(ts) && Find(ts, key) == Absent && Inserted(ts, key, meta).Some?
    ensures Inv(Inserted(ts, key, meta).value) && Reached(Inserted(ts, key, meta).value)
  {
    hide Grafted, Spread, T.Search, HashOf, HashTo, T.Ordered, ChildOk, Reached;
    var w := Stop(ts, 0, key);
    var t := ts[w];
    var j := At(t, key);
    assert SlotOk(ts, w, j);
    var tree := t.tops[j].tree;
    var us := Inserted(ts, key, meta).value;
    var g := Grafted(tree, key, meta).value;
    InsertKeepsInv(ts, key, meta);
    if t.lens[j] + 1 == MAX_HASH_DEP {
      var c := Spread(g, NewTable(t.dep + 1)).value;
      ChildCounts(tree, key, meta, t.dep + 1, c);
      assert us[|ts|] == c && us[w].tops[j] == Sub(|ts|);
    } else {
      forall k: Str
        ensures T.Search(g, k) == if k == key then Some(meta) else T.Search(tree, k)
      {
        GraftedFinds(tree, key, meta, k);
      }
      assert us[w].tops[j] == Avl(g);
    }
    StillReached(ts, us, w, j, key);
  }

  lemma DeleteKeepsReached(ts: Tables, key: Str)
    requires Inv(ts) && Reached(ts) && Find(ts, key).Here? && Removed(ts, key).Some?
    ensures Inv(Removed(ts, key).value) && Reached(Removed(ts, key).value)
  {
    hide R.Remove, T.Search, HashOf, HashTo, T.Inorder, Reached;
    var w := Stop(ts, 0, key);
    var t := ts[w];
    var j := At(t, key);
    assert SlotOk(ts, w, j);
    var tree := t.tops[j].tree;
    var us := Removed(ts, key).value;
    DeleteKeepsInv(ts, key);
    forall k: Str | T.Search(R.Remove(tree, key).value, k).Some?
      ensures T.Search(tree, k).Some?
    {
      RemovedWasThere(tree, key, k);
    }
    assert us[w].tops[j] == Avl(R.Remove(tree, key).value);
    StillReached(ts, us, w, j, key);
  }

  lemma RemovedWasThere(tree: T.Tree, key: Str, k: Str)
    requires T.Ordered(tree) && R.Remove(tree, key).Some?
    ensures T.Search(tree, k) == None ==> T.Search(R.Remove(tree, key).value, k) == None
  {
    hide R.Remove, T.Search, T.Inorder, Sorted, Lookup;
    R.RemoveInventsNothing(tree, key);
    AbsentKey(tree, k);
    AbsentKey(R.Remove(tree, key).value, k);
    if Lookup(T.Inorder(tree), k) == None {
      R.StillMisses(T.Inorder(R.Remove(tree, key).value), T.Inorder(tree), k);
    }
  }
}
