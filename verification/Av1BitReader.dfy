/** The most-significant-bit-first reader over a byte string followed by endless zeros. */
module BitStream {
  import opened Bits
  import opened Bytes

  /** Bit `i` of the zero-extended stream. */
  function StreamBit(data: bytes, i: nat): (bit: nat)
    ensures bit < 2
  {
    if i / 8 < |data| then Shr(data[i / 8], 7 - i % 8) % 2 else 0
  }

  /** The `n` bits from position `from` on, as an unsigned number. */
  function ReadBits(data: bytes, from: nat, n: nat): nat {
    if n == 0 then 0 else 2 * ReadBits(data, from, n - 1) + StreamBit(data, from + n - 1)
  }

  lemma {:induction false} ReadBitsBound(data: bytes, from: nat, n: nat)
    ensures ReadBits(data, from, n) < Pow2(n)
  {
    if n > 0 {
      ReadBitsBound(data, from, n - 1);
    }
  }

  lemma DoubleProduct(x: int, p: int)
    ensures x * (2 * p) == 2 * (x * p)
  {
  }

  /** A longer read is two shorter ones side by side. */
  lemma {:induction false} ReadBitsSplit(data: bytes, from: nat, a: nat, b: nat)
    ensures ReadBits(data, from, a + b) == ReadBits(data, from, a) * Pow2(b) + ReadBits(data, from + a, b)
  {
    if b == 0 {
    } else {
      ReadBitsSplit(data, from, a, b - 1);
      assert a + b - 1 == a + (b - 1);
      DoubleProduct(ReadBits(data, from, a), Pow2(b - 1));
    }
  }

  /** Past the end of the data there are only zeros. */
  lemma {:induction false} ReadBitsPastEnd(data: bytes, from: nat, n: nat)
    requires from >= 8 * |data|
    ensures ReadBits(data, from, n) == 0
  {
    if n > 0 {
      ReadBitsPastEnd(data, from, n - 1);
    }
  }

  /** Reads agree on byte strings that have the same zero-extended stream. */
  lemma {:induction false} ReadBitsSameStream(data: bytes, other: bytes, from: nat, n: nat)
    requires forall i: nat :: StreamBit(data, i) == StreamBit(other, i)
    ensures ReadBits(data, from, n) == ReadBits(other, from, n)
  {
    if n > 0 {
      ReadBitsSameStream(data, other, from, n - 1);
    }
  }

  /** Appending zero bytes leaves the zero-extended stream alone. */
  lemma ZerosKeepStream(data: bytes, n: nat, i: nat)
    ensures StreamBit(data + Zeros(n), i) == StreamBit(data, i)
  {
    if |data| <= i / 8 < |data| + n {
      assert (data + Zeros(n))[i / 8] == 0;
      DivModUnique(0, Pow2(7 - i % 8), 0, 0);
    }
  }

  /** The first `n` bits of a byte are its top `n` bits. */
  lemma {:induction false} ReadByte(data: bytes, k: nat, n: nat)
    requires k < |data| && n <= 8
    ensures ReadBits(data, 8 * k, n) == Shr(data[k], 8 - n)
  {
    if n == 0 {
      DivModUnique(data[k], Pow2(8), 0, data[k]);
    } else {
      ReadByte(data, k, n - 1);
      DivModUnique(8 * k + n - 1, 8, k, n - 1);
      DivThenDiv(data[k], Pow2(8 - n), 2);
      assert Pow2(9 - n) == Pow2(8 - n) * 2;
    }
  }

  /** Reading a whole byte string as bits is reading it as a big-endian number. */
  lemma {:induction false} ReadBitsIsBigEndian(data: bytes, n: nat)
    requires n <= |data|
    ensures ReadBits(data, 0, 8 * n) == FromBigEndian(data[..n])
  {
    hide Pow2, StreamBit;
    if n == 0 {
    } else {
      ReadBitsIsBigEndian(data, n - 1);
      ReadBitsSplit(data, 0, 8 * (n - 1), 8);
      ReadByte(data, n - 1, 8);
      Pow2Values();
      var front, last := data[..n - 1], data[n - 1];
      assert data[..n][..n - 1] == front;
      assert Shr(last, 0) == last;
      assert ReadBits(data, 0, 8 * n) == FromBigEndian(front) * 256 + last;
    }
  }

  lemma AndOne(x: nat)
    ensures And(x, 1) == x % 2
  {
    if x > 0 {
      assert And(x, 1) == 2 * And(x / 2, 0) + x % 2;
    }
  }

  lemma OrLowBit(v: nat, bit: nat)
    requires bit < 2
    ensures Or(Shl(v, 1), bit) == 2 * v + bit
  {
    assert Pow2(1) == 2;
    if v > 0 && bit == 1 {
      assert Or(2 * v, 1) == 2 * Or(v, 0) + 1;
    }
  }

  class BitReader {
    const data: bytes
    var pos: nat  // bit position

    constructor (data: bytes)
      ensures this.data == data && pos == 0
    {
      this.data := data;
      pos := 0;
    }

    method Get(n: nat) returns (v: nat)
      modifies this`pos
      ensures v == ReadBits(data, old(pos), n)
      ensures pos == old(pos) + n
    {
      v := 0;
      for i := 0 to n
        invariant pos == old(pos) + i
        invariant v == ReadBits(data, old(pos), i)
      {
        var byteIdx := pos / 8;
        var bitIdx := 7 - pos % 8;
        var bit := if byteIdx < |data| then And(Shr(data[byteIdx], bitIdx), 1) else 0;
        assert bit == StreamBit(data, pos) by {
          if byteIdx < |data| {
            AndOne(Shr(data[byteIdx], bitIdx));
          }
        }
        OrLowBit(v, bit);
        v := Or(Shl(v, 1), bit);
        pos := pos + 1;
      }
    }
  }
}
