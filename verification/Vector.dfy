/** The growable array under the page headers and their key lists. */
module Vector {
  import opened Bytes
  import opened Options
  import opened Sequences

  // capacity > 0 || 4 is a truth value in C: always 1.
  const INIT_CAPACITY: nat := 1

  function Grown(capacity: nat): nat {
    capacity * 3 / 2
  }

  // Growing makes room exactly from capacity 2 on.
  lemma GrowsIff(capacity: nat)
    ensures Grown(capacity) > capacity <==> capacity >= 2
  {
  }

  // One and a half times as much, cut down to a whole number.
  lemma GrownIs(capacity: nat)
    ensures 2 * Grown(capacity) == if capacity % 2 == 0 then 3 * capacity else 3 * capacity - 1
  {
  }

  class Vector<T> {
    var items: array<Option<T>>
    var total: nat

    ghost predicate Valid()
      reads this, items
    {
      total <= items.Length && forall i :: 0 <= i < total ==> items[i].Some?
    }

    function Capacity(): nat
      reads this
    {
      items.Length
    }

    ghost function Contents(): seq<T>
      requires Valid()
      reads this, items
    {
      seq(total, i requires 0 <= i < total && Valid() reads this, items => items[i].value)
    }

    constructor (capacity: nat)
      ensures Valid() && fresh(items) && Contents() == [] && Capacity() == INIT_CAPACITY
    {
      items := new Option<T>[INIT_CAPACITY](_ => None);
      total := 0;
    }

    // What the constructor evidently means to do: room for a few items.
    constructor WithRoom(capacity: nat)
      requires capacity >= 2
      ensures Valid() && fresh(items) && Contents() == [] && Capacity() == capacity
    {
      items := new Option<T>[capacity](_ => None);
      total := 0;
    }

    method Resize(capacity: nat)
      requires Valid() && total <= capacity
      modifies this`items
      ensures Valid() && fresh(items) && Contents() == old(Contents()) && Capacity() == capacity
    {
      var oldItems := items;
      var freshItems := new Option<T>[capacity](_ => None);
      forall i | 0 <= i < total {
        freshItems[i] := oldItems[i];
      }
      items := freshItems;
    }

    // False: the item would be written behind the array. That happens exactly
    // when the array is full and too small for growing to make room.
    method Add(item: T) returns (ok: bool)
      requires Valid()
      modifies this, items
      ensures Valid() && (items == old(items) || fresh(items))
      ensures ok <==> old(total) < old(Capacity()) || old(Capacity()) >= 2
      ensures ok ==> Contents() == old(Contents()) + [item] && old(Capacity()) <= Capacity()
      ensures !ok ==> Contents() == old(Contents())
      ensures !ok || old(total) < old(Capacity()) ==> Capacity() == old(Capacity())
      ensures ok && old(total) == old(Capacity()) ==> Capacity() == old(Capacity()) + old(Capacity()) / 2
    {
      GrownIs(items.Length);
      if items.Length == total {
        GrowsIff(items.Length);
        if Grown(items.Length) == items.Length || items.Length == 0 {
          return false;
        }
        Resize(Grown(items.Length));
      }
      items[total] := Some(item);
      total := total + 1;
      ok := true;
    }

    method Get(index: nat) returns (item: Option<T>)
      requires Valid()
      ensures item == if index < |Contents()| then Some(Contents()[index]) else None
    {
      item := if index < total then items[index] else None;
    }

    // Shifts the later items down by one; halves an array that is a quarter full.
    method Delete(index: nat)
      requires Valid()
      modifies this, items
      ensures Valid() && (items == old(items) || fresh(items))
      ensures Contents() == if index < |old(Contents())| then Without(old(Contents()), index) else old(Contents())
      ensures old(Capacity()) >= 2 ==> Capacity() >= 2
      ensures old(Capacity()) <= 1 ==> Capacity() == old(Capacity())
      ensures Capacity() ==
        if index < old(total) && 1 < old(total) == old(Capacity()) / 4 + 1 then old(Capacity()) / 2 else old(Capacity())
    {
      if index >= total {
        return;
      }
      ghost var before := Contents();
      items[index] := None;
      var i: nat := index;
      while i < total - 1
        invariant index <= i <= total - 1 && total == old(total) && items == old(items)
        invariant forall k :: 0 <= k < total && k != i ==> items[k].Some?
        invariant forall k :: 0 <= k < index ==> items[k] == Some(before[k])
        invariant forall k :: index <= k < i ==> items[k] == Some(before[k + 1])
        invariant forall k :: i < k < total ==> items[k] == Some(before[k])
      {
        items[i] := items[i + 1];
        i := i + 1;
      }
      total := total - 1;
      items[total] := None;
      assert Contents() == Without(before, index);
      if total > 0 && total == items.Length / 4 {
        Resize(items.Length / 2);
      }
    }
  }

  // The second item of a vector made the ordinary way already does not fit.
  method SecondItemHasNoRoom<T>(a: T, b: T, capacity: nat) returns (first: bool, second: bool)
    ensures first && !second
  {
    var v := new Vector<T>(capacity);
    assert |v.Contents()| == v.total;
    first := v.Add(a);
    assert |v.Contents()| == v.total;
    second := v.Add(b);
  }
}
