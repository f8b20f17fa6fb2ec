/** Bytes, little-endian integers, and files with a moving position. */
module Bytes {
  import opened Bits

  type Byte = x: nat | x < 256

  // A string of the original carries its length in two bytes.
  type Str = s: seq<Byte> | |s| < 0x1_0000

  function Le(n: nat, width: nat): (s: seq<Byte>)
    ensures |s| == width
  {
    if width == 0 then [] else [n % 256] + Le(n / 256, width - 1)
  }

  function LeValue(s: seq<Byte>): nat {
    if s == [] then 0 else s[0] + 256 * LeValue(s[1..])
  }

  lemma {:induction false} LeRoundTrip(n: nat, width: nat)
    requires n < Pow2(8 * width)
    ensures LeValue(Le(n, width)) == n
  {
    if width > 0 {
      Pow2Add(8 * (width - 1), 8);
      assert Pow2(4) == 16;
      Pow2Add(4, 4);
      DivideBelow(n, Pow2(8 * (width - 1)));
      LeRoundTrip(n / 256, width - 1);
      assert Le(n, width)[1..] == Le(n / 256, width - 1);
    }
  }

  // Written to fewer bytes than it needs, a number wraps.
  lemma {:induction false} LeWraps(n: nat, width: nat)
    ensures LeValue(Le(n, width)) == n % Pow2(8 * width)
  {
    if width > 0 {
      var p := Pow2(8 * (width - 1));
      Pow2Add(8 * (width - 1), 8);
      assert Pow2(4) == 16;
      Pow2Add(4, 4);
      LeWraps(n / 256, width - 1);
      assert Le(n, width)[1..] == Le(n / 256, width - 1);
      SplitModulo(n, p);
    }
  }

  lemma SplitModulo(n: nat, p: nat)
    requires p > 0
    ensures n % 256 + 256 * (n / 256 % p) == n % (p * 256)
  {
    var q := n / 256;
    var r := n % 256 + 256 * (q % p);
    assert q == p * (q / p) + q % p;
    assert n == 256 * q + n % 256;
    assert n == (p * 256) * (q / p) + r by {
      assert 256 * (p * (q / p)) == (p * 256) * (q / p);
    }
    ModuloIs(n, p * 256, q / p, r);
  }

  lemma ModuloIs(n: int, m: nat, q: int, r: nat)
    requires m > 0 && n == m * q + r && r < m
    ensures n % m == r
  {
    var e := q - n / m;
    assert m * e == n % m - r by {
      assert m * e == m * q - m * (n / m);
    }
  }

  lemma DivideBelow(n: nat, p: nat)
    requires n < p * 256
    ensures n / 256 < p
  {
  }

  lemma {:induction false} LeValueBelow(s: seq<Byte>)
    ensures LeValue(s) < Pow2(8 * |s|)
  {
    if s != [] {
      LeValueBelow(s[1..]);
      Pow2Add(8 * (|s| - 1), 8);
      assert Pow2(4) == 16;
      Pow2Add(4, 4);
    }
  }

  lemma WidthBounds()
    ensures Pow2(8 * 2) == 0x1_0000 && Pow2(8 * 8) == 0x1_0000_0000_0000_0000
  {
    Pow2Values();
    Pow2Add(10, 6);
    assert Pow2(6) == 64;
    Pow2Add(31, 1);
    Pow2Add(32, 32);
  }

  // What writing data at a position leaves in a file; a gap reads as zeros.
  function Overwritten(file: seq<Byte>, pos: nat, data: seq<Byte>): (r: seq<Byte>) {
    if pos <= |file| then
      file[..pos] + data + (if pos + |data| <= |file| then file[pos + |data|..] else [])
    else
      file + Zeros(pos - |file|) + data
  }

  function Zeros(n: nat): (s: seq<Byte>)
    ensures |s| == n && forall i :: 0 <= i < n ==> s[i] == 0
  {
    if n == 0 then [] else [0] + Zeros(n - 1)
  }

  function ReadAt(file: seq<Byte>, pos: nat, n: nat): (r: seq<Byte>)
    ensures pos + n <= |file| ==> r == file[pos..pos + n]
    ensures pos + n > |file| && n > 0 ==> |r| < n
  {
    if pos >= |file| then [] else if pos + n <= |file| then file[pos..pos + n] else file[pos..]
  }

  lemma Reassociate(a: seq<Byte>, b: seq<Byte>, c: seq<Byte>)
    ensures (a + b) + c == a + (b + c)
    ensures (a + b)[|a|..] == b && (a + b)[..|a|] == a
  {
  }

  lemma SliceOfSlice(all: seq<Byte>, at: nat, size: nat, from: nat, end: nat)
    requires at + size <= |all| && from <= end <= size
    ensures all[at + from..at + end] == all[at..at + size][from..end]
  {
    var part := all[at..at + size];
    forall k | 0 <= k < end - from ensures all[at + from..at + end][k] == part[from..end][k] {
    }
  }

  class File {
    var bytes: seq<Byte>
    var pos: nat

    constructor (content: seq<Byte>)
      ensures bytes == content && pos == 0
    {
      bytes, pos := content, 0;
    }

    method SeekSet(offset: nat)
      modifies this`pos
      ensures pos == offset
    {
      pos := offset;
    }

    method SeekCur(offset: nat)
      modifies this`pos
      ensures pos == old(pos) + offset
    {
      pos := pos + offset;
    }

    method SeekEnd()
      modifies this`pos
      ensures pos == |bytes|
    {
      pos := |bytes|;
    }

    method Write(data: seq<Byte>)
      modifies this
      ensures bytes == Overwritten(old(bytes), old(pos), data) && pos == old(pos) + |data|
    {
      bytes := Overwritten(bytes, pos, data);
      pos := pos + |data|;
    }

    // Reads up to n bytes; fewer only at the end of the file.
    method Read(n: nat) returns (data: seq<Byte>)
      modifies this`pos
      ensures data == ReadAt(bytes, old(pos), n) && pos == old(pos) + |data|
    {
      data := ReadAt(bytes, pos, n);
      pos := pos + |data|;
    }
  }
}
