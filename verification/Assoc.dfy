/** Sorted association lists: the plain finite map the trees stand for. */
module Assoc {
  import opened Bytes
  import opened Keys
  import opened Options

  type Entry = (Str, nat)
  type Entries = seq<Entry>

  ghost predicate Sorted(e: Entries) {
    forall i, j :: 0 <= i < j < |e| ==> Before(e[i].0, e[j].0)
  }

  function Lookup(e: Entries, key: Str): Option<nat> {
    if e == [] then None else if e[0].0 == key then Some(e[0].1) else Lookup(e[1..], key)
  }

  // The finite map of the entries.
  function MapOf(e: Entries): map<Str, nat> {
    if e == [] then map[] else MapOf(e[1..])[e[0].0 := e[0].1]
  }

  function Added(e: Entries, key: Str, meta: nat): Entries {
    if e == [] || !Before(e[0].0, key) then [(key, meta)] + e else [e[0]] + Added(e[1..], key, meta)
  }

  function Without(e: Entries, key: Str): Entries {
    if e == [] then [] else if e[0].0 == key then Without(e[1..], key) else [e[0]] + Without(e[1..], key)
  }

  ghost predicate HasKey(e: Entries, key: Str) {
    exists i :: 0 <= i < |e| && e[i].0 == key
  }

  // Sorted entries with x at the place where a ends and b begins.
  ghost predicate SortedAround(a: Entries, x: Entry, b: Entries) {
    && Sorted(a) && Sorted(b)
    && (forall i :: 0 <= i < |a| ==> Before(a[i].0, x.0))
    && (forall j :: 0 <= j < |b| ==> Before(x.0, b[j].0))
  }

  lemma SortedParts(a: Entries, x: Entry, b: Entries)
    ensures Sorted(a + [x] + b) <==> SortedAround(a, x, b)
  {
    hide Before;
    var e := a + [x] + b;
    if Sorted(e) {
      forall i, j | 0 <= i < j < |a| ensures Before(a[i].0, a[j].0) {
        assert e[i] == a[i] && e[j] == a[j];
      }
      forall i, j | 0 <= i < j < |b| ensures Before(b[i].0, b[j].0) {
        assert e[|a| + 1 + i] == b[i] && e[|a| + 1 + j] == b[j];
      }
      forall i | 0 <= i < |a| ensures Before(a[i].0, x.0) {
        assert e[i] == a[i] && e[|a|] == x;
      }
      forall j | 0 <= j < |b| ensures Before(x.0, b[j].0) {
        assert e[|a| + 1 + j] == b[j] && e[|a|] == x;
      }
    }
    if SortedAround(a, x, b) {
      forall i, j | 0 <= i < j < |e| ensures Before(e[i].0, e[j].0) {
        if i < |a| && j > |a| {
          BeforeTransitive(a[i].0, x.0, b[j - |a| - 1].0);
        }
      }
    }
  }

  lemma {:induction false} AddedLeft(a: Entries, x: Entry, b: Entries, key: Str, meta: nat)
    requires Before(key, x.0)
    ensures Added(a + [x] + b, key, meta) == Added(a, key, meta) + [x] + b
  {
    if a == [] {
      KeyCompOrders(key, x.0);
      assert a + [x] + b == [x] + b;
    } else {
      AddedLeft(a[1..], x, b, key, meta);
      assert (a + [x] + b)[1..] == a[1..] + [x] + b;
    }
  }

  lemma {:induction false} AddedRight(a: Entries, x: Entry, b: Entries, key: Str, meta: nat)
    requires Before(x.0, key) && forall i :: 0 <= i < |a| ==> Before(a[i].0, key)
    ensures Added(a + [x] + b, key, meta) == a + [x] + Added(b, key, meta)
  {
    if a == [] {
      assert a + [x] + b == [x] + b;
      assert ([x] + b)[1..] == b;
    } else {
      AddedRight(a[1..], x, b, key, meta);
      assert (a + [x] + b)[1..] == a[1..] + [x] + b;
    }
  }

  // Adding an absent key to sorted entries keeps them sorted and extends the map.
  lemma {:induction false} AddedIsMapUpdate(e: Entries, key: Str, meta: nat)
    requires Sorted(e) && !HasKey(e, key)
    ensures Sorted(Added(e, key, meta)) && MapOf(Added(e, key, meta)) == MapOf(e)[key := meta]
  {
    AddedSorted(e, key, meta);
    AddedMap(e, key, meta);
  }

  lemma {:induction false} AddedMap(e: Entries, key: Str, meta: nat)
    requires !HasKey(e, key)
    ensures MapOf(Added(e, key, meta)) == MapOf(e)[key := meta]
  {
    hide Before, HasKey;
    if e != [] && Before(e[0].0, key) {
      TailKeys(e);
      AddedMap(e[1..], key, meta);
      assert ([e[0]] + Added(e[1..], key, meta))[1..] == Added(e[1..], key, meta);
    } else {
      assert ([(key, meta)] + e)[1..] == e;
    }
  }

  lemma {:induction false} AddedElements(e: Entries, key: Str, meta: nat, j: nat)
    requires j < |Added(e, key, meta)|
    ensures Added(e, key, meta)[j].0 == key || HasKey(e, Added(e, key, meta)[j].0)
  {
    hide Before;
    if e != [] && Before(e[0].0, key) {
      TailKeys(e);
      if j > 0 {
        AddedElements(e[1..], key, meta, j - 1);
      }
    } else if j > 0 {
      assert e[j - 1].0 == Added(e, key, meta)[j].0;
    }
  }

  lemma {:induction false} AddedSorted(e: Entries, key: Str, meta: nat)
    requires Sorted(e) && !HasKey(e, key)
    ensures Sorted(Added(e, key, meta))
  {
    hide Before;
    if e == [] {
      return;
    }
    TailKeys(e);
    SortedParts([], e[0], e[1..]);
    assert [] + [e[0]] + e[1..] == e;
    if Before(e[0].0, key) {
      AddedSorted(e[1..], key, meta);
      var r := Added(e[1..], key, meta);
      forall j | 0 <= j < |r| ensures Before(e[0].0, r[j].0) {
        AddedElements(e[1..], key, meta, j);
        if r[j].0 != key {
          var i :| 0 <= i < |e[1..]| && e[1..][i].0 == r[j].0;
          assert e[i + 1].0 == r[j].0;
        }
      }
      SortedParts([], e[0], r);
      assert [] + [e[0]] + r == Added(e, key, meta);
    } else {
      assert e[0].0 != key;
      Opposite(e[0].0, key);
      forall j | 0 <= j < |e| ensures Before(key, e[j].0) {
        if j > 0 {
          BeforeTransitive(key, e[0].0, e[j].0);
        }
      }
      SortedParts([], (key, meta), e);
      assert [] + [(key, meta)] + e == Added(e, key, meta);
    }
  }

  lemma Opposite(a: Str, b: Str)
    requires a != b && !Before(a, b)
    ensures Before(b, a)
  {
    KeyCompOrders(a, b);
  }

  lemma TailKeys(e: Entries)
    requires e != []
    ensures forall k :: HasKey(e, k) <==> k == e[0].0 || HasKey(e[1..], k)
  {
    forall k ensures HasKey(e, k) <==> k == e[0].0 || HasKey(e[1..], k) {
      if HasKey(e[1..], k) {
        var i :| 0 <= i < |e[1..]| && e[1..][i].0 == k;
        assert e[i + 1].0 == k;
      }
      if HasKey(e, k) && k != e[0].0 {
        var i :| 0 <= i < |e| && e[i].0 == k;
        assert e[1..][i - 1].0 == k;
      }
      if k == e[0].0 {
        assert e[0].0 == k;
      }
    }
  }

  // Looking up is what the finite map says.
  lemma {:induction false} LookupIsMap(e: Entries, key: Str)
    ensures Lookup(e, key) == if key in MapOf(e) then Some(MapOf(e)[key]) else None
    ensures key in MapOf(e) <==> HasKey(e, key)
  {
    if e != [] {
      LookupIsMap(e[1..], key);
      TailKeys(e);
    }
  }

  lemma {:induction false} LookupSplit(a: Entries, x: Entry, b: Entries, key: Str)
    ensures Lookup(a + [x] + b, key) ==
      if Lookup(a, key).Some? then Lookup(a, key) else if x.0 == key then Some(x.1) else Lookup(b, key)
  {
    if a == [] {
      assert a + [x] + b == [x] + b;
      assert ([x] + b)[1..] == b;
    } else {
      LookupSplit(a[1..], x, b, key);
      assert (a + [x] + b)[1..] == a[1..] + [x] + b;
    }
  }

  lemma {:induction false} LookupMisses(e: Entries, key: Str)
    requires forall i :: 0 <= i < |e| ==> e[i].0 != key
    ensures Lookup(e, key) == None
  {
    if e != [] {
      LookupMisses(e[1..], key);
    }
  }

  lemma {:induction false} WithoutSplit(a: Entries, x: Entry, b: Entries, key: Str)
    ensures Without(a + [x] + b, key) == Without(a, key) + (if x.0 == key then [] else [x]) + Without(b, key)
  {
    var e, kept := a + [x] + b, if x.0 == key then [] else [x];
    if a == [] {
      assert e[1..] == b && e[0] == x;
    } else {
      WithoutSplit(a[1..], x, b, key);
      assert e[1..] == a[1..] + [x] + b && e[0] == a[0];
      var head := if a[0].0 == key then [] else [a[0]];
      assert Without(a, key) == head + Without(a[1..], key);
      assert Without(e, key) == head + Without(e[1..], key);
    }
  }

  lemma {:induction false} WithoutAbsent(e: Entries, key: Str)
    requires !HasKey(e, key)
    ensures Without(e, key) == e
  {
    if e != [] {
      TailKeys(e);
      WithoutAbsent(e[1..], key);
      assert e == [e[0]] + e[1..];
      assert e[0].0 != key;
    }
  }

  // Removing a key from sorted entries removes one entry and the key's binding.
  lemma {:induction false} WithoutIsMapRemoval(e: Entries, key: Str)
    ensures MapOf(Without(e, key)) == MapOf(e) - {key}
  {
    if e != [] {
      WithoutIsMapRemoval(e[1..], key);
      assert ([e[0]] + Without(e[1..], key))[1..] == Without(e[1..], key);
    }
  }

  lemma {:induction false} WithoutLength(e: Entries, key: Str)
    requires Sorted(e) && HasKey(e, key)
    ensures |Without(e, key)| == |e| - 1
  {
    hide Before;
    TailKeys(e);
    assert [] + [e[0]] + e[1..] == e;
    SortedParts([], e[0], e[1..]);
    if e[0].0 == key {
      forall i | 0 <= i < |e[1..]| ensures e[1..][i].0 != key {
        Irreflexive(key);
      }
      WithoutAbsent(e[1..], key);
    } else {
      WithoutLength(e[1..], key);
    }
  }

  lemma Irreflexive(key: Str)
    ensures !Before(key, key)
  {
    KeyCompOrders(key, key);
  }

  // Entries of a are entries of b.
  ghost predicate Within(a: Entries, b: Entries) {
    forall i :: 0 <= i < |a| ==> a[i] in b
  }

  // What lies between two bounds still does when entries are left out.
  lemma AroundWithin(a: Entries, x: Entry, b: Entries, a': Entries, b': Entries)
    requires SortedAround(a, x, b) && Sorted(a') && Sorted(b') && Within(a', a) && Within(b', b)
    ensures SortedAround(a', x, b') && Within(a' + [x] + b', a + [x] + b)
  {
    hide Before;
    forall i | 0 <= i < |a'| ensures Before(a'[i].0, x.0) {
      assert a'[i] in a;
    }
    forall j | 0 <= j < |b'| ensures Before(x.0, b'[j].0) {
      assert b'[j] in b;
    }
  }
}
