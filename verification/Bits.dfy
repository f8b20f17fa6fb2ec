/** Powers of two and the ceiling logarithm that the allocator calls `bsqrt`. */
module Bits {

  function Pow2(n: nat): (r: nat)
    ensures r >= 1
  {
    if n == 0 then 1 else 2 * Pow2(n - 1)
  }

  lemma {:induction false} Pow2Monotone(m: nat, n: nat)
    requires m <= n
    ensures Pow2(m) <= Pow2(n)
    ensures m < n ==> 2 * Pow2(m) <= Pow2(n)
  {
    if m < n {
      Pow2Monotone(m, n - 1);
    }
  }

  lemma {:induction false} Pow2Add(m: nat, n: nat)
    ensures Pow2(m + n) == Pow2(m) * Pow2(n)
  {
    if m > 0 {
      Pow2Add(m - 1, n);
      assert Pow2(m) * Pow2(n) == 2 * (Pow2(m - 1) * Pow2(n));
    }
  }

  // The least exponent whose power of two is at least `num`.
  function CeilLog2(num: nat): (r: nat)
    requires num > 0
    ensures num <= Pow2(r) && (r > 0 ==> Pow2(r - 1) < num)
  {
    if num == 1 then 0 else 1 + CeilLog2((num + 1) / 2)
  }

  lemma CeilLog2Unique(num: nat, r: nat)
    requires num > 0
    requires num <= Pow2(r) && (r > 0 ==> Pow2(r - 1) < num)
    ensures r == CeilLog2(num)
  {
    var c := CeilLog2(num);
    if r < c {
      Pow2Monotone(r, c - 1);
    } else if c < r {
      Pow2Monotone(c, r - 1);
    }
  }

  // The shift loop of `bsqrt`. The shift by the full word width is undefined
  // in C, so the argument stays below the sign bit; for zero the final shift
  // amount is negative.
  method Bsqrt(num: nat) returns (r: nat)
    requires 0 < num < 0x8000_0000
    ensures r == CeilLog2(num)
    ensures r <= 31
  {
    var rv := 0;
    while num / Pow2(rv) != 0
      invariant rv == 0 || Pow2(rv - 1) <= num
      invariant rv <= 31
      decreases num - rv
    {
      QuotientZero(num, rv);
      RvBelow(num, rv);
      rv := rv + 1;
    }
    QuotientZero(num, rv);
    assert rv > 0;
    r := if Pow2(rv - 1) == num then rv - 1 else rv;
    if Pow2(rv - 1) == num && rv > 1 {
      assert Pow2(rv - 1) == 2 * Pow2(rv - 2);
    }
    CeilLog2Unique(num, r);
  }

  lemma QuotientZero(num: nat, rv: nat)
    ensures num / Pow2(rv) == 0 <==> num < Pow2(rv)
  {
    DivisionZero(num, Pow2(rv));
  }

  lemma DivisionZero(n: nat, d: nat)
    requires d > 0
    ensures n / d == 0 <==> n < d
  {
  }

  lemma RvBelow(num: nat, rv: nat)
    requires num < 0x8000_0000 && Pow2(rv) <= num
    ensures rv < 31 && rv < num
  {
    if rv >= 31 {
      Pow2Monotone(31, rv);
      assert Pow2(31) == 0x8000_0000 by { Pow2Values(); }
    }
    Pow2Exceeds(rv);
  }

  lemma {:induction false} Pow2Exceeds(n: nat)
    ensures n < Pow2(n)
  {
    if n > 0 {
      Pow2Exceeds(n - 1);
    }
  }

  lemma Pow2Values()
    ensures Pow2(10) == 0x400 && Pow2(21) == 0x20_0000 && Pow2(31) == 0x8000_0000
  {
    assert Pow2(5) == 32;
    Pow2Add(5, 5);
    Pow2Add(10, 10);
    Pow2Add(20, 1);
    Pow2Add(10, 21);
  }
}
