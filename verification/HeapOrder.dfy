/** Binary heaps as sequences: the sift operations and what they preserve. */
module HeapOrder {

  datatype Entry<K, V> = Entry(key: K, value: V)

  // The comparison contract: -1, 0 or 1, antisymmetric and transitive.
  ghost predicate TotalPreorder<K(!new)>(cmp: (K, K) -> int) {
    && (forall a, b :: Antisymmetric(cmp, a, b))
    && (forall a, b, c :: Transitive(cmp, a, b, c))
  }

  predicate Antisymmetric<K>(cmp: (K, K) -> int, a: K, b: K) {
    -1 <= cmp(a, b) <= 1 && cmp(a, b) == -cmp(b, a)
  }

  predicate Transitive<K>(cmp: (K, K) -> int, a: K, b: K, c: K) {
    cmp(a, b) <= 0 && cmp(b, c) <= 0 ==> cmp(a, c) <= 0
  }

  predicate Le<K, V>(cmp: (K, K) -> int, a: Entry<K, V>, b: Entry<K, V>) {
    cmp(a.key, b.key) <= 0
  }

  // The default comparison, for integer keys.
  function CompareInts(a: int, b: int): int {
    if a < b then -1 else if a == b then 0 else 1
  }

  // The smaller number comes first.
  lemma CompareIntsIs(a: int, b: int)
    ensures CompareInts(a, b) == -1 <==> a < b
    ensures CompareInts(a, b) == 0 <==> a == b
    ensures CompareInts(a, b) == 1 <==> a > b
  {
  }

  lemma CompareIntsIsPreorder()
    ensures TotalPreorder(CompareInts)
  {
  }

  lemma LeTotal<K(!new), V>(cmp: (K, K) -> int, a: Entry<K, V>, b: Entry<K, V>)
    requires TotalPreorder(cmp)
    ensures -1 <= cmp(a.key, b.key) <= 1 && cmp(a.key, b.key) == -cmp(b.key, a.key)
  {
    assert Antisymmetric(cmp, a.key, b.key);
  }

  lemma LeTrans<K(!new), V>(cmp: (K, K) -> int, a: Entry<K, V>, b: Entry<K, V>, c: Entry<K, V>)
    requires TotalPreorder(cmp) && Le(cmp, a, b) && Le(cmp, b, c)
    ensures Le(cmp, a, c)
  {
    assert Transitive(cmp, a.key, b.key, c.key);
  }

  function Par(i: nat): (p: nat)
    requires i > 0
    ensures p < i && (i == 2 * p + 1 || i == 2 * p + 2)
  {
    (i - 1) / 2
  }

  predicate OrderedAt<K, V>(cmp: (K, K) -> int, s: seq<Entry<K, V>>, i: nat)
    requires i < |s|
  {
    i > 0 ==> Le(cmp, s[Par(i)], s[i])
  }

  ghost predicate Ordered<K, V>(cmp: (K, K) -> int, s: seq<Entry<K, V>>) {
    forall i: nat :: i < |s| ==> OrderedAt(cmp, s, i)
  }

  function Swap<T>(s: seq<T>, i: nat, j: nat): (t: seq<T>)
    requires i < |s| && j < |s|
    ensures |t| == |s|
  {
    s[i := s[j]][j := s[i]]
  }

  lemma SwapKeeps<T>(s: seq<T>, i: nat, j: nat)
    requires i < |s| && j < |s|
    ensures multiset(Swap(s, i, j)) == multiset(s)
  {
  }

  // ----- moving up -----

  function SiftUp<K, V>(cmp: (K, K) -> int, s: seq<Entry<K, V>>, cur: nat): (t: seq<Entry<K, V>>)
    requires cur < |s|
    ensures |t| == |s|
    decreases cur
  {
    if cur > 0 && cmp(s[cur].key, s[Par(cur)].key) < 0
    then SiftUp(cmp, Swap(s, cur, Par(cur)), Par(cur))
    else s
  }

  lemma {:induction false} SiftUpKeeps<K, V>(cmp: (K, K) -> int, s: seq<Entry<K, V>>, cur: nat)
    requires cur < |s|
    ensures multiset(SiftUp(cmp, s, cur)) == multiset(s)
    decreases cur
  {
    if cur > 0 && cmp(s[cur].key, s[Par(cur)].key) < 0 {
      SwapKeeps(s, cur, Par(cur));
      SiftUpKeeps(cmp, Swap(s, cur, Par(cur)), Par(cur));
    }
  }

  // Ordered except that s[cur] may be smaller than its parent.
  ghost predicate OrderedButUp<K, V>(cmp: (K, K) -> int, s: seq<Entry<K, V>>, cur: nat)
    requires cur < |s|
  {
    && (forall i: nat :: i < |s| && i != cur ==> OrderedAt(cmp, s, i))
    && (cur > 0 ==> GrandOrdered(cmp, s, cur))
  }

  // The children of cur do not precede the parent of cur.
  predicate GrandOrdered<K, V>(cmp: (K, K) -> int, s: seq<Entry<K, V>>, cur: nat)
    requires 0 < cur < |s|
  {
    && (2 * cur + 1 < |s| ==> Le(cmp, s[Par(cur)], s[2 * cur + 1]))
    && (2 * cur + 2 < |s| ==> Le(cmp, s[Par(cur)], s[2 * cur + 2]))
  }

  lemma {:induction false} SiftUpOrders<K(!new), V>(cmp: (K, K) -> int, s: seq<Entry<K, V>>, cur: nat)
    requires TotalPreorder(cmp) && cur < |s| && OrderedButUp(cmp, s, cur)
    ensures Ordered(cmp, SiftUp(cmp, s, cur))
    decreases cur
  {
    if cur > 0 && cmp(s[cur].key, s[Par(cur)].key) < 0 {
      SwapUpOrdered(cmp, s, cur);
      SiftUpOrders(cmp, Swap(s, cur, Par(cur)), Par(cur));
    } else {
      forall i: nat | i < |s| ensures OrderedAt(cmp, s, i) {
        if i == cur && i > 0 {
          LeTotal(cmp, s[cur], s[Par(cur)]);
        }
      }
    }
  }

  lemma SwapUpOrdered<K(!new), V>(cmp: (K, K) -> int, s: seq<Entry<K, V>>, cur: nat)
    requires TotalPreorder(cmp) && 0 < cur < |s| && OrderedButUp(cmp, s, cur)
    requires cmp(s[cur].key, s[Par(cur)].key) < 0
    ensures OrderedButUp(cmp, Swap(s, cur, Par(cur)), Par(cur))
  {
    var p := Par(cur);
    var t := Swap(s, cur, p);
    forall i: nat | i < |t| && i != p ensures OrderedAt(cmp, t, i) {
      assert i != cur ==> OrderedAt(cmp, s, i);
      if i > 0 && Par(i) == p && i != cur {
        LeTrans(cmp, s[cur], s[p], s[i]);
      }
    }
    if p > 0 {
      assert OrderedAt(cmp, s, p);
      var b := if cur == 2 * p + 1 then 2 * p + 2 else 2 * p + 1;
      if b < |s| {
        assert Par(b) == p && OrderedAt(cmp, s, b);
        LeTrans(cmp, s[Par(p)], s[p], s[b]);
      }
    }
  }

  // ----- moving down -----

  // The child that may take the place of cur, if there is one.
  function SmallerChild<K, V>(cmp: (K, K) -> int, s: seq<Entry<K, V>>, cur: nat): (c: nat)
    requires 2 * cur + 1 < |s|
    ensures c < |s| && c > cur && Par(c) == cur
  {
    var l := 2 * cur + 1;
    if l + 1 < |s| && cmp(s[l].key, s[l + 1].key) > 0 then l + 1 else l
  }

  function SiftDown<K, V>(cmp: (K, K) -> int, s: seq<Entry<K, V>>, cur: nat): (t: seq<Entry<K, V>>)
    requires cur < |s|
    ensures |t| == |s|
    decreases |s| - cur
  {
    if 2 * cur + 1 < |s| then
      var c := SmallerChild(cmp, s, cur);
      if cmp(s[cur].key, s[c].key) == 1 then SiftDown(cmp, Swap(s, cur, c), c) else s
    else s
  }

  lemma {:induction false} SiftDownKeeps<K, V>(cmp: (K, K) -> int, s: seq<Entry<K, V>>, cur: nat)
    requires cur < |s|
    ensures multiset(SiftDown(cmp, s, cur)) == multiset(s)
    decreases |s| - cur
  {
    if 2 * cur + 1 < |s| {
      var c := SmallerChild(cmp, s, cur);
      if cmp(s[cur].key, s[c].key) == 1 {
        SwapKeeps(s, cur, c);
        SiftDownKeeps(cmp, Swap(s, cur, c), c);
      }
    }
  }

  // Ordered except that s[cur] may be larger than its children.
  ghost predicate OrderedButDown<K, V>(cmp: (K, K) -> int, s: seq<Entry<K, V>>, cur: nat)
    requires cur < |s|
  {
    && (forall i: nat :: 0 < i < |s| && Par(i) != cur ==> OrderedAt(cmp, s, i))
    && (cur > 0 ==> GrandOrdered(cmp, s, cur))
  }

  lemma {:induction false} SiftDownOrders<K(!new), V>(cmp: (K, K) -> int, s: seq<Entry<K, V>>, cur: nat)
    requires TotalPreorder(cmp) && cur < |s| && OrderedButDown(cmp, s, cur)
    ensures Ordered(cmp, SiftDown(cmp, s, cur))
    decreases |s| - cur
  {
    if 2 * cur + 1 < |s| && cmp(s[cur].key, s[SmallerChild(cmp, s, cur)].key) == 1 {
      SwapDownOrdered(cmp, s, cur);
      SiftDownOrders(cmp, Swap(s, cur, SmallerChild(cmp, s, cur)), SmallerChild(cmp, s, cur));
    } else {
      forall i: nat | i < |s| ensures OrderedAt(cmp, s, i) {
        if i > 0 && Par(i) == cur {
          SmallerChildLe(cmp, s, cur, i);
          var c := SmallerChild(cmp, s, cur);
          LeTotal(cmp, s[cur], s[c]);
          LeTrans(cmp, s[cur], s[c], s[i]);
        }
      }
    }
  }

  lemma SwapDownOrdered<K(!new), V>(cmp: (K, K) -> int, s: seq<Entry<K, V>>, cur: nat)
    requires TotalPreorder(cmp) && 2 * cur + 1 < |s| && OrderedButDown(cmp, s, cur)
    requires cmp(s[cur].key, s[SmallerChild(cmp, s, cur)].key) == 1
    ensures OrderedButDown(cmp, Swap(s, cur, SmallerChild(cmp, s, cur)), SmallerChild(cmp, s, cur))
  {
    var c := SmallerChild(cmp, s, cur);
    var t := Swap(s, cur, c);
    forall i: nat | 0 < i < |t| && Par(i) != c ensures OrderedAt(cmp, t, i) {
      if Par(i) == cur {
        assert i == 2 * cur + 1 || i == 2 * cur + 2;
        LeTotal(cmp, s[cur], s[c]);
        if i != c {
          SmallerChildLe(cmp, s, cur, i);
        }
      } else {
        assert OrderedAt(cmp, s, i);
      }
    }
    assert 2 * c + 1 < |s| ==> Par(2 * c + 1) == c && OrderedAt(cmp, s, 2 * c + 1);
    assert 2 * c + 2 < |s| ==> Par(2 * c + 2) == c && OrderedAt(cmp, s, 2 * c + 2);
  }

  lemma SmallerChildLe<K(!new), V>(cmp: (K, K) -> int, s: seq<Entry<K, V>>, cur: nat, i: nat)
    requires TotalPreorder(cmp) && 2 * cur + 1 < |s| && 0 < i < |s| && Par(i) == cur
    ensures Le(cmp, s[SmallerChild(cmp, s, cur)], s[i])
  {
    LeTotal(cmp, s[i], s[i]);
    if 2 * cur + 2 < |s| {
      LeTotal(cmp, s[2 * cur + 1], s[2 * cur + 2]);
    }
  }

  lemma {:induction false} RootIsLeast<K(!new), V>(cmp: (K, K) -> int, s: seq<Entry<K, V>>, i: nat)
    requires TotalPreorder(cmp) && Ordered(cmp, s) && i < |s|
    ensures Le(cmp, s[0], s[i])
  {
    if i > 0 {
      RootIsLeast(cmp, s, Par(i));
      assert OrderedAt(cmp, s, i);
      LeTrans(cmp, s[0], s[Par(i)], s[i]);
    } else {
      LeTotal(cmp, s[0], s[0]);
    }
  }

  // ----- the two operations -----

  // On a tie an entry stays where it is, and the left child is taken.
  lemma TiesStay<K, V>(cmp: (K, K) -> int, s: seq<Entry<K, V>>, cur: nat)
    requires cur < |s|
    ensures cur > 0 && cmp(s[cur].key, s[Par(cur)].key) >= 0 ==> SiftUp(cmp, s, cur) == s
    ensures 2 * cur + 2 < |s| && cmp(s[2 * cur + 1].key, s[2 * cur + 2].key) == 0 ==> SmallerChild(cmp, s, cur) == 2 * cur + 1
    ensures 2 * cur + 1 < |s| && cmp(s[cur].key, s[SmallerChild(cmp, s, cur)].key) == 0 ==> SiftDown(cmp, s, cur) == s
  {
  }

  function Inserted<K, V>(cmp: (K, K) -> int, s: seq<Entry<K, V>>, x: Entry<K, V>): seq<Entry<K, V>> {
    SiftUp(cmp, s + [x], |s|)
  }

  function MinRemoved<K, V>(cmp: (K, K) -> int, s: seq<Entry<K, V>>): seq<Entry<K, V>>
    requires s != []
  {
    if |s| == 1 then [] else SiftDown(cmp, s[..|s| - 1][0 := s[|s| - 1]], 0)
  }

  lemma InsertedIsHeap<K(!new), V>(cmp: (K, K) -> int, s: seq<Entry<K, V>>, x: Entry<K, V>)
    requires TotalPreorder(cmp) && Ordered(cmp, s)
    ensures Ordered(cmp, Inserted(cmp, s, x))
    ensures multiset(Inserted(cmp, s, x)) == multiset(s) + multiset{x}
  {
    var t := s + [x];
    forall i: nat | i < |t| && i != |s| ensures OrderedAt(cmp, t, i) {
      assert OrderedAt(cmp, s, i);
    }
    SiftUpOrders(cmp, t, |s|);
    SiftUpKeeps(cmp, t, |s|);
  }

  lemma MinRemovedIsHeap<K(!new), V>(cmp: (K, K) -> int, s: seq<Entry<K, V>>)
    requires TotalPreorder(cmp) && Ordered(cmp, s) && s != []
    ensures Ordered(cmp, MinRemoved(cmp, s))
    ensures multiset(s) == multiset(MinRemoved(cmp, s)) + multiset{s[0]}
    ensures forall e :: e in s ==> Le(cmp, s[0], e)
  {
    forall e | e in s ensures Le(cmp, s[0], e) {
      var i :| 0 <= i < |s| && s[i] == e;
      RootIsLeast(cmp, s, i);
    }
    var n := |s| - 1;
    assert s == s[..n] + [s[n]];
    if n > 0 {
      var t := s[..n][0 := s[n]];
      forall i: nat | 0 < i < |t| && Par(i) != 0 ensures OrderedAt(cmp, t, i) {
        assert OrderedAt(cmp, s, i);
      }
      SiftDownOrders(cmp, t, 0);
      SiftDownKeeps(cmp, t, 0);
      assert s[..n] == [s[0]] + s[1..n];
      assert t == [s[n]] + s[1..n];
    }
  }

  // ----- draining -----

  function Drained<K, V>(cmp: (K, K) -> int, s: seq<Entry<K, V>>): (t: seq<Entry<K, V>>)
    decreases |s|
  {
    if s == [] then [] else [s[0]] + Drained(cmp, MinRemoved(cmp, s))
  }

  ghost predicate Sorted<K, V>(cmp: (K, K) -> int, s: seq<Entry<K, V>>) {
    forall i, j :: 0 <= i < j < |s| ==> Le(cmp, s[i], s[j])
  }

  // Draining a heap yields its entries in order, none lost and none repeated.
  lemma {:induction false} DrainedSorts<K(!new), V>(cmp: (K, K) -> int, s: seq<Entry<K, V>>)
    requires TotalPreorder(cmp) && Ordered(cmp, s)
    ensures multiset(Drained(cmp, s)) == multiset(s)
    ensures Sorted(cmp, Drained(cmp, s))
    decreases |s|
  {
    if s != [] {
      var r := MinRemoved(cmp, s);
      MinRemovedIsHeap(cmp, s);
      DrainedSorts(cmp, r);
      forall e | e in Drained(cmp, r) ensures Le(cmp, s[0], e) {
        SameElements(r, Drained(cmp, r), e);
        InLarger(r, s, multiset{s[0]}, e);
      }
      PrependSorted(cmp, s[0], Drained(cmp, r));
    }
  }

  lemma SameElements<T>(s: seq<T>, t: seq<T>, e: T)
    requires multiset(s) == multiset(t) && e in t
    ensures e in s
  {
    assert e in multiset(t);
  }

  lemma InLarger<T>(r: seq<T>, s: seq<T>, m: multiset<T>, e: T)
    requires multiset(s) == multiset(r) + m && e in r
    ensures e in s
  {
    assert e in multiset(r);
    assert e in multiset(s);
  }

  lemma PrependSorted<K, V>(cmp: (K, K) -> int, x: Entry<K, V>, d: seq<Entry<K, V>>)
    requires Sorted(cmp, d) && forall e :: e in d ==> Le(cmp, x, e)
    ensures Sorted(cmp, [x] + d)
  {
  }
}
