/** The per-level hash: a modular sum of the bytes of the key, with a multiplier
    chosen by the depth of the table. */
module Hash {
  import opened Bytes

  const MAX_HASH_NODE: nat := 20024
  const MAX_HASH_DEP: nat := 10024

  function Multiplier(dep: int): nat {
    match dep
    case 1 => 57
    case 2 => 97
    case 3 => 71
    case 4 => 107
    case _ => 89
  }

  // A byte read through a signed char, and the wrap of 32-bit unsigned words.
  function Char(b: Byte): int {
    if b < 128 then b else b - 256
  }

  function Word(x: int): nat {
    x % 0x1_0000_0000
  }

  // The words that are added up, with nothing reduced.
  function WordSum(key: seq<Byte>, p: nat): nat {
    if key == [] then 0 else WordSum(key[..|key| - 1], p) + Word(p * Char(key[|key| - 1]))
  }

  function HashOf(key: seq<Byte>, dep: int): (h: nat)
    ensures h < MAX_HASH_NODE
  {
    WordSum(key, Multiplier(dep)) % MAX_HASH_NODE
  }

  lemma AddReduced(a: nat, t: nat)
    ensures (a % 20024 + t % 20024) % 20024 == (a + t) % 20024
  {
  }

  lemma SmallWord(x: nat)
    requires x < 0x1_0000_0000
    ensures Word(x) == x
  {
  }

  // The loop reduces at every step and never exceeds a word.
  method HashLoop(key: Str, dep: int) returns (mid: nat)
    ensures mid == HashOf(key, dep)
  {
    var p, m := Multiplier(dep), MAX_HASH_NODE;
    mid := 0;
    hide Word;
    var i: nat := 0;
    while i < |key|
      invariant i <= |key| && mid == WordSum(key[..i], p) % m
    {
      assert key[..i + 1][..i] == key[..i];
      AddReduced(WordSum(key[..i], p), Word(p * Char(key[i])));
      SmallWord(mid + Word(p * Char(key[i])) % m);
      mid := Word(mid + Word(p * Char(key[i])) % m);
      mid := mid % m;
      i := i + 1;
    }
    assert key[..i] == key;
  }

  // ----- what the hash depends on -----

  function CharSum(key: seq<Byte>): int {
    if key == [] then 0 else CharSum(key[..|key| - 1]) + Char(key[|key| - 1])
  }

  // The bytes a signed char reads as negative.
  function Highs(key: seq<Byte>): nat {
    if key == [] then 0 else Highs(key[..|key| - 1]) + (if key[|key| - 1] < 128 then 0 else 1)
  }

  predicate SevenBit(key: seq<Byte>) {
    forall i :: 0 <= i < |key| ==> key[i] < 128
  }

  function ByteSum(key: seq<Byte>): nat {
    if key == [] then 0 else ByteSum(key[..|key| - 1]) + key[|key| - 1]
  }

  lemma WordOfChar(p: nat, b: Byte)
    requires 0 < p <= 107
    ensures Word(p * Char(b)) == p * Char(b) + (if b < 128 then 0 else 0x1_0000_0000)
  {
    var x := p * Char(b);
    assert -128 * 107 <= x <= 127 * 107 && (x < 0 <==> b >= 128);
  }

  lemma {:induction false} WordSumIs(key: seq<Byte>, p: nat)
    requires 0 < p <= 107
    ensures WordSum(key, p) == p * CharSum(key) + 0x1_0000_0000 * Highs(key)
  {
    if key != [] {
      var b := key[|key| - 1];
      WordSumIs(key[..|key| - 1], p);
      WordOfChar(p, b);
      assert p * CharSum(key) == p * CharSum(key[..|key| - 1]) + p * Char(b);
    }
  }

  lemma {:induction false} SevenBitSums(key: seq<Byte>)
    requires SevenBit(key)
    ensures Highs(key) == 0 && CharSum(key) == ByteSum(key)
  {
    if key != [] {
      SevenBitSums(key[..|key| - 1]);
    }
  }

  // For 7-bit keys the hash is the multiplier times the byte sum.
  lemma SevenBitHash(key: seq<Byte>, dep: int)
    requires SevenBit(key)
    ensures HashOf(key, dep) == Multiplier(dep) * ByteSum(key) % MAX_HASH_NODE
  {
    WordSumIs(key, Multiplier(dep));
    SevenBitSums(key);
  }

  // ----- every multiplier can be divided out -----

  function Inverse(dep: int): nat {
    match dep
    case 1 => 3513
    case 2 => 6193
    case 3 => 9871
    case 4 => 10667
    case _ => 225
  }

  lemma Coprime(dep: int)
    ensures Multiplier(dep) * Inverse(dep) % MAX_HASH_NODE == 1
  {
  }

  ghost predicate Divides(m: nat, x: int) {
    exists k: int :: x == m * k
  }

  lemma Congruent(a: int, b: int, m: nat)
    requires m > 0
    ensures a % m == b % m <==> Divides(m, a - b)
  {
    if a % m == b % m {
      assert a - b == m * (a / m - b / m);
    } else if Divides(m, a - b) {
      var k :| a - b == m * k;
      assert a == m * (b / m + k) + b % m;
      ModuloIs(a, m, b / m + k, b % m);
    }
  }

  // A factor with an inverse can be divided out.
  lemma DivideUnit(m: nat, f: nat, inverse: nat, x: int)
    requires m > 0 && f * inverse % m == 1
    ensures Divides(m, f * x) <==> Divides(m, x)
  {
    if Divides(m, x) {
      DividesTimes(m, x, f);
    }
    if Divides(m, f * x) {
      var k :| f * x == m * k;
      var c := f * inverse / m;
      assert f * inverse == m * c + 1;
      UnitQuotient(m, f, inverse, x, k, c);
      assert x == m * (inverse * k - c * x);
    }
  }

  lemma UnitQuotient(m: int, f: int, inverse: int, x: int, k: int, c: int)
    requires f * x == m * k && f * inverse == m * c + 1
    ensures x == m * (inverse * k - c * x)
  {
    calc {
      x;
      (f * inverse - m * c) * x;
      inverse * (f * x) - m * (c * x);
      inverse * (m * k) - m * (c * x);
      m * (inverse * k - c * x);
    }
  }

  lemma DividesTimes(m: nat, x: int, f: int)
    requires Divides(m, x)
    ensures Divides(m, f * x)
  {
    var k :| x == m * k;
    assert f * x == m * (f * k) by {
      assert f * (m * k) == m * (f * k);
    }
  }

  lemma DivideOut(dep: int, x: int)
    ensures Divides(MAX_HASH_NODE, Multiplier(dep) * x) <==> Divides(MAX_HASH_NODE, x)
  {
    Coprime(dep);
    DivideUnit(MAX_HASH_NODE, Multiplier(dep), Inverse(dep), x);
  }

  // What the words add up to differs by the multiplied sums and by a word for
  // every high byte.
  function Gap(a: seq<Byte>, b: seq<Byte>): int {
    CharSum(a) - CharSum(b)
  }

  function HighGap(a: seq<Byte>, b: seq<Byte>): int {
    Highs(a) - Highs(b)
  }

  // When two keys collide at a depth.
  lemma CollideIff(a: seq<Byte>, b: seq<Byte>, dep: int)
    ensures HashOf(a, dep) == HashOf(b, dep)
      <==> Divides(MAX_HASH_NODE, Multiplier(dep) * Gap(a, b) + 0x1_0000_0000 * HighGap(a, b))
  {
    hide WordSum, CharSum, Highs, Divides;
    var p := Multiplier(dep);
    WordSumIs(a, p);
    WordSumIs(b, p);
    Congruent(WordSum(a, p), WordSum(b, p), MAX_HASH_NODE);
    assert p * CharSum(a) - p * CharSum(b) == p * Gap(a, b);
  }

  // Keys that collide at one depth collide at another exactly when the
  // difference of the multipliers takes their sums apart by whole tables.
  lemma CollideElsewhereIff(a: seq<Byte>, b: seq<Byte>, dep: int, other: int)
    requires HashOf(a, dep) == HashOf(b, dep)
    ensures HashOf(a, other) == HashOf(b, other)
      <==> Divides(MAX_HASH_NODE, (Multiplier(dep) - Multiplier(other)) * Gap(a, b))
  {
    hide CharSum, Highs, Divides, HashOf, Multiplier;
    CollideIff(a, b, dep);
    CollideIff(a, b, other);
    var p: int, q: int, g, h := Multiplier(dep), Multiplier(other), Gap(a, b), 0x1_0000_0000 * HighGap(a, b);
    assert (p - q) * g == (p * g + h) - (q * g + h);
    DividesDifference(MAX_HASH_NODE, p * g + h, q * g + h);
  }

  lemma DividesDifference(m: nat, x: int, y: int)
    requires Divides(m, x)
    ensures Divides(m, y) <==> Divides(m, x - y)
  {
    var k :| x == m * k;
    if Divides(m, y) {
      var l :| y == m * l;
      assert x - y == m * (k - l);
    }
    if Divides(m, x - y) {
      var l :| x - y == m * l;
      assert y == m * (k - l);
    }
  }

  lemma EightOff(x: int)
    ensures Divides(MAX_HASH_NODE, 8 * x) <==> Divides(2503, x)
  {
    if Divides(MAX_HASH_NODE, 8 * x) {
      var k :| 8 * x == 20024 * k;
      assert x == 2503 * k;
    }
    if Divides(2503, x) {
      var k :| x == 2503 * k;
      assert 8 * x == MAX_HASH_NODE * k;
    }
  }

  // A word is a multiple of 8, the part of the table's size besides 2503.
  lemma WordFactor(h: int)
    ensures Divides(MAX_HASH_NODE, 0x1_0000_0000 * h) <==> Divides(2503, h)
    ensures Divides(2503, 0x1_0000_0000 * h) <==> Divides(2503, h)
  {
    EightOff(0x2000_0000 * h);
    DivideUnit(2503, 0x2000_0000, 1272, h);
    DivideUnit(2503, 0x1_0000_0000, 159, h);
  }

  // Two multipliers differ by nothing, or by something that 2503 has no factor
  // in common with.
  function DifferenceInverse(d: nat): nat {
    match d
    case 8 => 313
    case 10 => 751
    case 14 => 894
    case 18 => 2364
    case 26 => 1059
    case 32 => 704
    case 36 => 1182
    case 40 => 2065
    case 50 => 1652
    case _ => 0
  }

  lemma MultipliersApart(dep: int, other: int)
    ensures var d := Multiplier(dep) - Multiplier(other);
      d == 0 || (if d > 0 then d * DifferenceInverse(d) % 2503 == 1 else (-d) * DifferenceInverse(-d) % 2503 == 1)
  {
  }

  lemma DividesPart(n: nat, d: nat, x: int)
    requires Divides(n * d, x)
    ensures Divides(n, x)
  {
    var k :| x == n * d * k;
    assert x == n * (d * k);
  }

  // So keys that collide at one depth collide at another exactly when it has
  // the same multiplier, or their numbers of high bytes differ by multiples of
  // 2503, none for one.
  lemma CollideAgainIff(a: seq<Byte>, b: seq<Byte>, dep: int, other: int)
    requires HashOf(a, dep) == HashOf(b, dep)
    ensures HashOf(a, other) == HashOf(b, other)
      <==> Multiplier(dep) == Multiplier(other) || Divides(2503, HighGap(a, b))
  {
    hide CharSum, Highs, Divides, HashOf, Multiplier, DifferenceInverse;
    var p: int, q: int, g, h := Multiplier(dep), Multiplier(other), Gap(a, b), HighGap(a, b);
    CollideElsewhereIff(a, b, dep, other);
    CollideIff(a, b, dep);
    WordFactor(h);
    if p == q {
      assert (p - q) * g == 0;
      DividesZero(MAX_HASH_NODE);
    } else if Divides(2503, h) {
      DividesDifference(MAX_HASH_NODE, 0x1_0000_0000 * h, 0x1_0000_0000 * h + p * g);
      DividesNegated(MAX_HASH_NODE, p * g);
      DivideOut(dep, g);
      DividesTimes(MAX_HASH_NODE, g, p - q);
    } else if HashOf(a, other) == HashOf(b, other) {
      MultipliersApart(dep, other);
      DividesPart(2503, 8, (p - q) * g);
      DivideDifference(p - q, g);
      DividesTimes(2503, g, p);
      DividesPart(2503, 8, p * g + 0x1_0000_0000 * h);
      DividesDifference(2503, p * g, p * g + 0x1_0000_0000 * h);
      assert p * g - (p * g + 0x1_0000_0000 * h) == -(0x1_0000_0000 * h);
      DividesNegated(2503, 0x1_0000_0000 * h);
    }
  }

  lemma DividesZero(m: nat)
    ensures Divides(m, 0)
  {
    assert 0 == m * 0;
  }

  lemma DividesNegated(m: nat, x: int)
    ensures Divides(m, -x) <==> Divides(m, x)
  {
    if Divides(m, -x) {
      var k :| -x == m * k;
      assert x == m * (-k);
    }
    if Divides(m, x) {
      var k :| x == m * k;
      assert -x == m * (-k);
    }
  }

  lemma DivideDifference(d: int, x: int)
    requires Divides(2503, d * x) && d != 0
    requires if d > 0 then d * DifferenceInverse(d) % 2503 == 1 else (-d) * DifferenceInverse(-d) % 2503 == 1
    ensures Divides(2503, x)
  {
    if d > 0 {
      DivideUnit(2503, d, DifferenceInverse(d), x);
    } else {
      DividesNegated(2503, d * x);
      assert -(d * x) == (-d) * x;
      DivideUnit(2503, -d, DifferenceInverse(-d), x);
    }
  }

  // At every depth, or not: exactly so for keys that collide at one.
  lemma CollideEverywhereIff(a: seq<Byte>, b: seq<Byte>, dep: int)
    requires HashOf(a, dep) == HashOf(b, dep)
    ensures (forall other :: HashOf(a, other) == HashOf(b, other)) <==> Divides(2503, HighGap(a, b))
  {
    hide HashOf, Multiplier, Divides;
    forall other
      ensures HashOf(a, other) == HashOf(b, other)
        <==> Multiplier(dep) == Multiplier(other) || Divides(2503, HighGap(a, b))
    {
      CollideAgainIff(a, b, dep, other);
    }
    TwoMultipliers();
    var other := if Multiplier(dep) == Multiplier(1) then 2 else 1;
    assert Multiplier(other) != Multiplier(dep);
  }

  lemma TwoMultipliers()
    ensures Multiplier(1) != Multiplier(2)
  {
  }

  // So a child table takes two keys of one slot apart exactly in the first five
  // levels, and when their numbers of high bytes differ by no multiple of 2503.
  lemma ChildSeparatesIff(a: seq<Byte>, b: seq<Byte>, dep: nat)
    requires HashOf(a, dep) == HashOf(b, dep)
    ensures HashOf(a, dep + 1) != HashOf(b, dep + 1) <==> dep < 5 && !Divides(2503, HighGap(a, b))
  {
    hide HashOf, Divides;
    CollideAgainIff(a, b, dep, dep + 1);
  }

  // 7-bit keys of one slot share a slot in every child.
  lemma OneChildSlot(keys: set<Str>, dep: nat)
    requires forall a, b :: a in keys && b in keys ==> HashOf(a, dep) == HashOf(b, dep)
    requires forall a :: a in keys ==> SevenBit(a)
    ensures forall a, b :: a in keys && b in keys ==> HashOf(a, dep + 1) == HashOf(b, dep + 1)
  {
    hide HashOf;
    forall a, b | a in keys && b in keys
      ensures HashOf(a, dep + 1) == HashOf(b, dep + 1)
    {
      SevenBitSums(a);
      SevenBitSums(b);
      DividesZero(2503);
      ChildSeparatesIff(a, b, dep);
    }
  }

  // Seven high bytes against none: a collision that ends at the next depth.
  lemma HighBytesSeparate()
    ensures var a: Str, b: Str := [128, 128, 128, 128, 128, 128, 128], [92, 92];
      HashOf(a, 3) == HashOf(b, 3) && HashOf(a, 4) != HashOf(b, 4)
  {
    var a: Str, b: Str := [128, 128, 128, 128, 128, 128, 128], [92, 92];
    hide HashOf, CharSum, Highs;
    Alike(a, 128);
    Alike(b, 92);
    CollideIff(a, b, 3);
    assert Gap(a, b) == -1080 && HighGap(a, b) == 7;
    assert Multiplier(3) * Gap(a, b) + 0x1_0000_0000 * HighGap(a, b) == MAX_HASH_NODE * 1501433;
    ChildSeparatesIff(a, b, 3);
  }

  lemma {:induction false} Alike(a: seq<Byte>, x: Byte)
    requires forall i :: 0 <= i < |a| ==> a[i] == x
    ensures CharSum(a) == Char(x) * |a| && Highs(a) == if x < 128 then 0 else |a|
  {
    if a != [] {
      Alike(a[..|a| - 1], x);
      assert Char(x) * |a| == Char(x) * (|a| - 1) + Char(x);
    }
  }
}
