/** The eviction queue: page headers linked both ways, from the least recently
    touched at the bottom to the last touched at the top. */
module Lru {
  import opened Sequences

  class Page {
    var processing: bool
    var next: Page?
    var prev: Page?

    constructor ()
      ensures !processing && next == null && prev == null
    {
      processing, next, prev := false, null, null;
    }
  }

  // Where an item first occurs; the length where it does not.
  function IndexOf<T(==)>(q: seq<T>, p: T): (i: nat)
    ensures i <= |q| && (i < |q| <==> p in q) && (i < |q| ==> q[i] == p)
    ensures forall j :: 0 <= j < i ==> q[j] != p
  {
    if q == [] then 0 else if q[0] == p then 0 else 1 + IndexOf(q[1..], p)
  }

  // What touching makes of a queue: a page that waits already cuts off every
  // page behind it, another one joins at the end.
  function Touched<T(==)>(q: seq<T>, p: T): seq<T> {
    if p in q then q[..IndexOf(q, p) + 1] else q + [p]
  }

  ghost predicate Distinct<T>(q: seq<T>) {
    forall i, j :: 0 <= i < j < |q| ==> q[i] != q[j]
  }

  lemma WithoutDistinct<T>(q: seq<T>, k: nat)
    requires Distinct(q) && k < |q|
    ensures Distinct(Without(q, k)) && q[k] !in Without(q, k)
    ensures forall i :: 0 <= i < |q| - 1 ==> Without(q, k)[i] == q[if i < k then i else i + 1]
  {
  }

  ghost function Nth(q: seq<Page>, i: int): Page? {
    if 0 <= i < |q| then q[i] else null
  }

  ghost predicate NextOk(q: seq<Page>, i: int)
    requires 0 <= i < |q|
    reads q[i]
  {
    q[i].next == Nth(q, i + 1)
  }

  ghost predicate PrevOk(q: seq<Page>, i: int)
    requires 0 < i < |q|
    reads q[i]
  {
    q[i].prev == q[i - 1]
  }

  // The pages reached from the bottom, in this order and no others.
  ghost predicate Forward(q: seq<Page>, bottom: Page?)
    reads q
  {
    bottom == Nth(q, 0) && Distinct(q) && forall i :: 0 <= i < |q| ==> NextOk(q, i)
  }

  ghost predicate Backward(q: seq<Page>)
    reads q
  {
    forall i :: 0 < i < |q| ==> PrevOk(q, i)
  }

  // The least recent page that is not being processed.
  ghost predicate FirstIdle(q: seq<Page>, k: nat)
    reads q
  {
    k < |q| && !q[k].processing && forall i :: 0 <= i < k ==> q[i].processing
  }

  ghost function Beside(q: seq<Page>, k: nat): set<Page> {
    (if 0 < k <= |q| then {q[k - 1]} else {}) + (if k + 1 < |q| then {q[k + 1]} else {})
  }

  lemma NthWithout(q: seq<Page>, k: nat, i: int)
    requires k < |q| && -1 <= i < |q| - 1
    ensures Nth(Without(q, k), i) == Nth(q, if i < k then i else i + 1)
    ensures Nth(Without(q, k), i - 1) == Nth(q, if i - 1 < k then i - 1 else i)
    ensures Nth(Without(q, k), i + 1) == Nth(q, if i + 1 < k then i + 1 else i + 2)
  {
  }

  class Queue {
    var top: Page?
    var bottom: Page?

    // The pages that can be reached from the bottom.
    ghost var q: seq<Page>

    // The top may be forgotten, or be a page that the bottom does not lead to.
    ghost predicate Linked()
      reads this, q
    {
      Forward(q, bottom) && Backward(q) && (top == Nth(q, |q| - 1) || top !in q)
    }

    // The next page joins: the queue is empty or knows its top.
    ghost predicate Valid()
      reads this, q
    {
      Linked() && (q == [] || top == q[|q| - 1])
    }

    constructor ()
      ensures Valid() && q == []
    {
      top, bottom, q := null, null, [];
    }

    // lru_touch_page. A page that waits nowhere joins exactly when the queue is
    // empty or knows its top, and is lost otherwise. A page that waits already
    // cuts off the pages behind it; the top page is linked to itself.
    method Touch(p: Page)
      requires Linked()
      modifies this, p, if top == null then {} else {top}
      ensures top == p
      ensures old(p !in q && p != top) ==> Linked()
      ensures old(p !in q && p != top && Valid()) ==> Valid() && q == Touched(old(q), p)
      ensures old(p !in q && p != top && !Valid()) ==> q == old(q) && p !in q
      ensures old(p in q && p != top) ==> Forward(q, bottom) && q == Touched(old(q), p) && p == q[|q| - 1]
      ensures old(p in q && p != top) ==> p.prev == old(top)
      ensures old(p == top) ==> p.next == p && p.prev == p
      ensures old(top != null && top != p) ==> old(top).prev == old(top.prev) && old(top).next == p
    {
      ghost var before, was := q, top;
      p.prev := top;
      p.next := null;
      if top != null {
        top.next := p;
      }
      if bottom == null {
        bottom := p;
      }
      top := p;
      if p in before {
        q := Touched(before, p);
      } else if before == [] || was == before[|before| - 1] {
        q := before + [p];
      }
      if p != was {
        forall i | 0 <= i < |q| ensures NextOk(q, i) {
          if i < |before| {
            assert old(NextOk(before, i));
          }
        }
        if p !in before {
          forall i | 0 < i < |q| ensures PrevOk(q, i) {
            if i < |before| {
              assert old(PrevOk(before, i));
            }
          }
        }
      }
    }

    // The loop of least_recent_page: round and round from the bottom until a
    // page is not being processed.
    method FirstNotProcessing(ghost k: nat) returns (lr: Page)
      requires Linked() && FirstIdle(q, k)
      ensures lr == q[k]
    {
      var at: Page? := bottom;
      ghost var i: nat := 0;
      while at.processing
        invariant i <= k && at == q[i]
        decreases k - i
      {
        assert NextOk(q, i);
        at := at.next;
        if at == null {
          at := bottom;
        }
        i := i + 1;
      }
      lr := at;
    }

    // The links around the page found, which leaves the queue.
    method Unlink(lr: Page, ghost k: nat)
      requires Forward(q, bottom) && Backward(q) && k < |q| && lr == q[k]
      modifies this`bottom, this`q, Beside(q, k)
      ensures q == Without(old(q), k) && Forward(q, bottom) && Backward(q)
    {
      assert forall i, j :: 0 <= i < j < |q| ==> q[i] != q[j];
      ghost var before := q;
      assert NextOk(before, k) && (k > 0 ==> PrevOk(before, k));
      q := Without(q, k);
      WithoutDistinct(before, k);
      if lr == bottom {
        bottom := lr.next;
        if bottom != null {
          bottom.prev := null;
        }
      } else {
        if lr.next != null {
          lr.next.prev := lr.prev;
        }
        if lr.prev != null {
          lr.prev.next := lr.next;
        }
      }
      forall i | 0 <= i < |q| ensures NextOk(q, i) {
        var j := if i < k then i else i + 1;
        assert old(NextOk(before, j));
        NthWithout(before, k, i);
        assert j != k - 1 && j != k + 1 ==> before[j] !in Beside(before, k);
      }
      forall i | 0 < i < |q| ensures PrevOk(q, i) {
        var j := if i < k then i else i + 1;
        assert old(PrevOk(before, j));
        NthWithout(before, k, i);
        assert j != k - 1 && j != k + 1 ==> before[j] !in Beside(before, k);
      }
    }

    // The rest of least_recent_page. The queue goes on as it was exactly when it
    // is empty now, or knew its top and lost another page.
    method LeastRecent(ghost k: nat) returns (lr: Page)
      requires Linked() && FirstIdle(q, k)
      modifies this, Beside(q, k)
      ensures lr == old(q)[k] && q == Without(old(q), k) && Linked()
      ensures Valid() <==> q == [] || (old(Valid()) && k < |old(q)| - 1)
      ensures top == if old(top) == lr then null else old(top)
    {
      hide Forward, Backward;
      lr := FirstNotProcessing(k);
      OnceEach(q, bottom);
      WithoutDistinct(q, k);
      NthWithout(q, k, |q| - 2);
      if lr == top {
        top := null;
      }
      Unlink(lr, k);
    }
  }

  lemma OnceEach(q: seq<Page>, bottom: Page?)
    requires Forward(q, bottom)
    ensures Distinct(q)
  {
  }
}
