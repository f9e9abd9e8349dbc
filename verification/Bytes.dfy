/** Byte strings and Python's `int.from_bytes(.., "big")` and `to_bytes(n, "big")`. */
module Bytes {
  import opened Bits

  type byte = x: int | 0 <= x < 256
  type bytes = seq<byte>

  /** `int.from_bytes(s, "big")`. */
  function FromBigEndian(s: bytes): nat {
    if s == [] then 0 else 256 * FromBigEndian(s[..|s| - 1]) + s[|s| - 1]
  }

  /** The low `n` bytes of `v`, most significant first. */
  function BigEndian(v: nat, n: nat): (s: bytes)
    ensures |s| == n
  {
    if n == 0 then [] else BigEndian(v / 256, n - 1) + [v % 256]
  }

  /** `bytes(n)`. */
  function Zeros(n: nat): (s: bytes)
    ensures |s| == n
  {
    seq(n, i => 0)
  }

  /** `s[from:to]` with Python's clamping of both ends to the length. */
  function Slice(s: bytes, from: nat, to: nat): bytes {
    var b := Min(to, |s|);
    var a := Min(from, b);
    s[a..b]
  }

  lemma {:induction false} FromBigEndianBound(s: bytes)
    ensures FromBigEndian(s) < Pow2(8 * |s|)
  {
    if s == [] {
    } else {
      FromBigEndianBound(s[..|s| - 1]);
      ScaleByByte(8 * (|s| - 1));
    }
  }

  /** Printing then reading gives the number back. */
  lemma {:induction false} FromToBigEndian(v: nat, n: nat)
    requires v < Pow2(8 * n)
    ensures FromBigEndian(BigEndian(v, n)) == v
  {
    if n == 0 {
    } else {
      ScaleByByte(8 * (n - 1));
      FromToBigEndian(v / 256, n - 1);
      var s := BigEndian(v, n);
      assert s[..|s| - 1] == BigEndian(v / 256, n - 1);
    }
  }

  /** Reading then printing with the same length gives the bytes back. */
  lemma {:induction false} ToFromBigEndian(s: bytes)
    ensures BigEndian(FromBigEndian(s), |s|) == s
  {
    if s == [] {
    } else {
      var front, last := s[..|s| - 1], s[|s| - 1];
      ToFromBigEndian(front);
      assert FromBigEndian(s) / 256 == FromBigEndian(front);
      assert s == front + [last];
    }
  }

  lemma ScaleByByte(n: nat)
    ensures Pow2(n + 8) == 256 * Pow2(n)
  {
    Pow2Add(n, 8);
    assert Pow2(8) == 256;
  }

  /** The first byte of an `n`-byte number is its top eight bits. */
  lemma {:induction false} BigEndianFirst(v: nat, n: nat)
    requires n >= 1 && v < Pow2(8 * n)
    ensures BigEndian(v, n)[0] == v / Pow2(8 * (n - 1))
  {
    if n == 1 {
      assert Pow2(8) == 256;
      assert BigEndian(v, 1) == [v % 256];
    } else {
      var p := Pow2(8 * (n - 2));
      ScaleByByte(8 * (n - 2));
      ScaleByByte(8 * (n - 1));
      assert v / 256 < 256 * p;
      BigEndianFirst(v / 256, n - 1);
      DivThenDiv(v, 256, p);
      assert BigEndian(v, n)[0] == BigEndian(v / 256, n - 1)[0];
    }
  }

  // ----- Slices of byte strings that agree in part

  lemma PrefixSlice(data: bytes, other: bytes, to: nat, a: nat, b: nat)
    requires a <= b <= to <= |data| && to <= |other| && data[..to] == other[..to]
    ensures data[a..b] == other[a..b]
  {
    assert data[a..b] == data[..to][a..b];
    assert other[a..b] == other[..to][a..b];
  }

  lemma SuffixSlice(data: bytes, other: bytes, from: nat, a: nat, b: nat)
    requires |data| == |other| && from <= a <= b <= |data| && data[from..] == other[from..]
    ensures data[a..b] == other[a..b]
  {
    forall k | a <= k < b
      ensures data[k] == other[k]
    {
      assert data[from..][k - from] == other[from..][k - from];
    }
  }

  lemma PartOf(data: bytes, s: nat, p: bytes, a: nat, b: nat)
    requires a <= b <= |p| && s + |p| <= |data| && data[s..s + |p|] == p
    ensures data[s + a..s + b] == p[a..b]
  {
    forall k | a <= k < b
      ensures data[s + k] == p[k]
    {
      assert data[s..s + |p|][k] == p[k];
    }
  }
}
