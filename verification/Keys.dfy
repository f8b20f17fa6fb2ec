/** The order of keys used by every tree of the index: shorter keys first, then
    byte by byte. */
module Keys {
  import opened Bytes

  // memcmp on strings of one length: negative, zero or positive.
  function Memcmp(a: seq<Byte>, b: seq<Byte>): int
    requires |a| == |b|
  {
    if a == [] then 0
    else if a[0] != b[0] then a[0] as int - b[0] as int
    else Memcmp(a[1..], b[1..])
  }

  // Positive when the first key comes before the second.
  function KeyComp(first: Str, second: Str): int {
    if |first| != |second| then |second| - |first| else Memcmp(second, first)
  }

  predicate Before(a: Str, b: Str) {
    KeyComp(a, b) > 0
  }

  lemma {:induction false} MemcmpZero(a: seq<Byte>, b: seq<Byte>)
    requires |a| == |b|
    ensures Memcmp(a, b) == 0 <==> a == b
    ensures Memcmp(a, b) == -Memcmp(b, a)
  {
    if a != [] && a[0] == b[0] {
      MemcmpZero(a[1..], b[1..]);
      assert a == [a[0]] + a[1..] && b == [b[0]] + b[1..];
    }
  }

  lemma {:induction false} MemcmpTransitive(a: seq<Byte>, b: seq<Byte>, c: seq<Byte>)
    requires |a| == |b| == |c| && Memcmp(a, b) > 0 && Memcmp(b, c) > 0
    ensures Memcmp(a, c) > 0
  {
    if a[0] == b[0] && b[0] == c[0] {
      MemcmpTransitive(a[1..], b[1..], c[1..]);
    }
  }

  // The comparison tells equal keys from different ones and orders any two.
  lemma KeyCompOrders(a: Str, b: Str)
    ensures KeyComp(a, b) == 0 <==> a == b
    ensures KeyComp(a, b) == -KeyComp(b, a)
  {
    if |a| == |b| {
      MemcmpZero(b, a);
    }
  }

  // A shorter key comes first; of two equally long ones the one with the smaller
  // byte where they first differ.
  lemma ShorterFirst(a: Str, b: Str)
    ensures |a| < |b| ==> Before(a, b)
    ensures |a| > |b| ==> !Before(a, b)
  {
  }

  lemma {:induction false} FirstDifference(a: seq<Byte>, b: seq<Byte>, i: nat)
    requires i < |a| == |b| && a[..i] == b[..i] && a[i] != b[i]
    ensures Memcmp(a, b) > 0 <==> a[i] > b[i]
  {
    if i > 0 {
      assert a[0] == a[..i][0] == b[..i][0] == b[0];
      assert a[1..][..i - 1] == a[..i][1..] && b[1..][..i - 1] == b[..i][1..];
      FirstDifference(a[1..], b[1..], i - 1);
    }
  }

  lemma SmallerFirst(a: Str, b: Str, i: nat)
    requires i < |a| == |b| && a[..i] == b[..i] && a[i] != b[i]
    ensures Before(a, b) <==> a[i] < b[i]
  {
    FirstDifference(b, a, i);
  }

  lemma BeforeTransitive(a: Str, b: Str, c: Str)
    requires Before(a, b) && Before(b, c)
    ensures Before(a, c)
  {
    if |a| == |b| && |b| == |c| {
      MemcmpTransitive(c, b, a);
    }
  }
}
