/**
 EBML variable-length integers (section 4 of RFC 8794), Element IDs and Element Data Sizes
 (sections 5 and 6): the printers and the reader.
 */
module EbmlVint {
  import opened Bits
  import opened Bytes
  import opened Wrappers

  /** The Python exceptions the printers and the reader can end with. */
  datatype Error = ValueError | IndexError | StopIteration

  // ----- Printing

  /** The first exclusive bound on values that fit `n` bytes: the all-ones pattern is reserved. */
  function Limit(n: nat): nat {
    Pow2(7 * n) - 1
  }

  /** `next(n for n in range(from, 9) if value < (1 << (7 * n)) - 1)`. */
  function DefaultLength(value: nat, from: nat): Option<nat>
    decreases 9 - from
  {
    if from > 8 then None
    else if value < Limit(from) then Some(from)
    else DefaultLength(value, from + 1)
  }

  function VintWithLength(value: nat, length: nat): Result<bytes, Error> {
    if !(1 <= length <= 8) || value >= Limit(length) then Failure(ValueError)
    else Success(BigEndian(Or(value, Pow2(7 * length)), length))
  }

  function Vint(value: nat): Result<bytes, Error> {
    match DefaultLength(value, 1)
    case None => Failure(StopIteration)
    case Some(n) => VintWithLength(value, n)
  }

  function EbmlId(value: nat): bytes {
    BigEndian(value, Max(1, (BitLength(value) + 7) / 8))
  }

  function EbmlElement(id: nat, payload: bytes): Result<bytes, Error> {
    var size :- Vint(|payload|);
    Success(EbmlId(id) + size + payload)
  }

  // ----- Reading

  datatype Header = Header(value: nat, length: nat)

  /** The position of the first set bit of `first`, counted from `k` with 1 for the top bit; 9 if there is none. */
  function MarkerPosition(first: byte, k: nat): (length: nat)
    requires 1 <= k <= 9
    ensures k <= length <= 9
    decreases 9 - k
  {
    if k <= 8 && And(first, Pow2(8 - k)) == 0 then MarkerPosition(first, k + 1) else k
  }

  function ReadHeader(data: bytes, offset: nat, size: bool): (r: Result<Header, Error>)
    ensures r.Success? ==> 1 <= r.value.length <= 8 && offset + r.value.length <= |data|
  {
    if offset >= |data| then Failure(IndexError)
    else
      var length := MarkerPosition(data[offset], 1);
      if length > 8 || offset + length > |data| then Failure(ValueError)
      else
        var raw := FromBigEndian(Slice(data, offset, offset + length));
        Success(Header(if size then And(raw, Pow2(7 * length) - 1) else raw, length))
  }

  lemma ShiftMask(length: nat)
    requires 1 <= length <= 8
    ensures Shr(Pow2(8 - length), 1) == if length < 8 then Pow2(7 - length) else 0
  {
    assert Pow2(1) == 2;
  }

  /** The reader's loop: shifts the mask right until it meets the marker bit. */
  method ReadEbmlHeader(data: bytes, offset: nat, size: bool) returns (r: Result<Header, Error>)
    ensures r == ReadHeader(data, offset, size)
  {
    hide And, FromBigEndian, Slice;
    if offset >= |data| {
      return Failure(IndexError);
    }
    var first := data[offset];
    var mask := 0x80;
    var length := 1;
    Pow2Values();
    hide Pow2;
    while length <= 8 && And(first, mask) == 0
      invariant 1 <= length <= 9
      invariant mask == if length <= 8 then Pow2(8 - length) else 0
      invariant MarkerPosition(first, 1) == MarkerPosition(first, length)
    {
      ShiftMask(length);
      mask := Shr(mask, 1);
      length := length + 1;
    }
    if length > 8 || offset + length > |data| {
      return Failure(ValueError);
    }
    var raw := FromBigEndian(Slice(data, offset, offset + length));
    return Success(Header(if size then And(raw, Shl(1, 7 * length) - 1) else raw, length));
  }

  // ----- The marker bit gives the length

  /** A number whose top bit is bit `7n`, the shape of every printed size and of every well-formed ID. */
  ghost predicate Marked(x: nat, n: nat) {
    1 <= n <= 8 && Pow2(7 * n) <= x < 2 * Pow2(7 * n)
  }

  lemma MarkedSplit(n: nat)
    requires 1 <= n <= 8
    ensures Pow2(7 * n) == Pow2(8 - n) * Pow2(8 * (n - 1))
    ensures 2 * Pow2(7 * n) <= Pow2(8 * n)
  {
    Pow2Add(8 - n, 8 * (n - 1));
    Pow2Monotone(7 * n + 1, 8 * n);
  }

  /** The bit a number is just long enough for is set exactly if the number reaches it. */
  lemma TopBit(x: nat, n: nat)
    requires x < 2 * Pow2(n)
    ensures And(x, Pow2(n)) == 0 <==> x < Pow2(n)
  {
    hide And, Pow2;
    AndSingleBit(x, n);
    if x < Pow2(n) {
      DivModUnique(x, Pow2(n), 0, x);
    } else {
      DivModUnique(x, Pow2(n), 1, x - Pow2(n));
    }
  }

  lemma {:induction false} MarkerFound(first: byte, n: nat, k: nat)
    requires 1 <= k <= n <= 8
    requires Pow2(8 - n) <= first < 2 * Pow2(8 - n)
    ensures MarkerPosition(first, k) == n
    decreases n - k
  {
    hide And;
    if k < n {
      Pow2Monotone(9 - n, 8 - k);
      TopBit(first, 8 - k);
      MarkerFound(first, n, k + 1);
    } else {
      TopBit(first, 8 - n);
    }
  }

  /** What the marker's position says about the first byte. */
  lemma {:induction false} MarkerMeans(first: byte, k: nat)
    requires 1 <= k <= 9 && first < Pow2(9 - k)
    ensures var n := MarkerPosition(first, k);
            n <= 8 ==> Pow2(8 - n) <= first < 2 * Pow2(8 - n)
    decreases 9 - k
  {
    hide And;
    if k <= 8 {
      TopBit(first, 8 - k);
      if first < Pow2(8 - k) {
        MarkerMeans(first, k + 1);
      }
    }
  }

  /** The first byte of an `n`-byte number tells whether the number has its top bit at `7n`. */
  lemma MarkedFirst(x: nat, n: nat)
    requires 1 <= n <= 8 && x < Pow2(8 * n)
    ensures Marked(x, n) <==> Pow2(8 - n) <= BigEndian(x, n)[0] < 2 * Pow2(8 - n)
  {
    MarkedSplit(n);
    BigEndianFirst(x, n);
    var p, q := Pow2(8 * (n - 1)), Pow2(8 - n);
    DivModIdentity(x, p);
    QuotientBounds(x / p, x % p, p, q);
  }

  lemma QuotientBounds(d: int, r: int, p: int, q: int)
    requires 0 <= r < p
    ensures q * p <= d * p + r < 2 * (q * p) <==> q <= d < 2 * q
  {
    assert (d + 1) * p == d * p + p;
    if d < q {
      MulMonotone(d + 1, q, p);
    } else {
      MulMonotone(q, d, p);
      if d < 2 * q {
        MulMonotone(d + 1, 2 * q, p);
      } else {
        MulMonotone(2 * q, d, p);
      }
    }
  }

  // ----- Round trips

  /** Bytes that spell a marked number are read back as that number, wherever they stand. */
  lemma ReadMarked(data: bytes, offset: nat, x: nat, n: nat)
    requires Marked(x, n) && offset + n <= |data| && data[offset..offset + n] == BigEndian(x, n)
    ensures ReadHeader(data, offset, false) == Success(Header(x, n))
    ensures ReadHeader(data, offset, true) == Success(Header(x - Pow2(7 * n), n))
  {
    hide And, Pow2, FromBigEndian, BigEndian, MarkerPosition, Marked;
    MarkedWidth(x, n);
    var s := data[offset..offset + n];
    assert Slice(data, offset, offset + n) == s;
    assert data[offset] == s[0];
    MarkedBytes(x, n);
    MarkedMask(x, n);
  }

  lemma MarkedWidth(x: nat, n: nat)
    requires Marked(x, n)
    ensures 1 <= n <= 8 && Pow2(7 * n) <= x
  {
  }

  lemma MarkedBytes(x: nat, n: nat)
    requires Marked(x, n)
    ensures MarkerPosition(BigEndian(x, n)[0], 1) == n
    ensures FromBigEndian(BigEndian(x, n)) == x
  {
    MarkedSplit(n);
    MarkedFirst(x, n);
    MarkerFound(BigEndian(x, n)[0], n, 1);
    FromToBigEndian(x, n);
  }

  lemma MarkedMask(x: nat, n: nat)
    requires Marked(x, n)
    ensures And(x, Pow2(7 * n) - 1) == x - Pow2(7 * n)
  {
    AndLowMask(x, 7 * n);
    DivModUnique(x, Pow2(7 * n), 1, x - Pow2(7 * n));
  }

  /** Whatever the reader accepts is exactly the printed form of what it returns. */
  lemma ReadMeans(data: bytes, offset: nat)
    requires ReadHeader(data, offset, false).Success?
    ensures var Header(x, n) := ReadHeader(data, offset, false).value;
            && Marked(x, n)
            && data[offset..offset + n] == BigEndian(x, n)
            && ReadHeader(data, offset, true) == Success(Header(x - Pow2(7 * n), n))
  {
    Pow2Values();
    hide And, Pow2, FromBigEndian, BigEndian, MarkerPosition;
    var Header(x, n) := ReadHeader(data, offset, false).value;
    var s := data[offset..offset + n];
    assert Slice(data, offset, offset + n) == s;
    MarkerMeans(data[offset], 1);
    ToFromBigEndian(s);
    FromBigEndianBound(s);
    MarkedFirst(x, n);
    ReadMarked(data, offset, x, n);
  }

  /** The reader looks at no byte beyond the header it returns. */
  lemma ReadIsLocal(data: bytes, other: bytes, offset: nat, size: bool)
    requires |data| == |other| && ReadHeader(data, offset, size).Success?
    requires var n := ReadHeader(data, offset, size).value.length;
             data[offset..offset + n] == other[offset..offset + n]
    ensures ReadHeader(other, offset, size) == ReadHeader(data, offset, size)
  {
    var n := ReadHeader(data, offset, size).value.length;
    assert data[offset] == data[offset..offset + n][0];
    assert other[offset] == other[offset..offset + n][0];
  }

  /** A printed size is a marked number, never the reserved all-ones pattern. */
  lemma VintShape(value: nat, n: nat)
    requires VintWithLength(value, n).Success?
    ensures 1 <= n <= 8 && value < Limit(n)
    ensures VintWithLength(value, n).value == BigEndian(value + Pow2(7 * n), n)
    ensures Marked(value + Pow2(7 * n), n) && value + Pow2(7 * n) != 2 * Pow2(7 * n) - 1
  {
    hide Pow2, BigEndian, Or;
    OrHighBit(value, 7 * n);
  }

  /** Every size below the limit of its width is read back, wherever it stands. */
  lemma VintRoundTrip(data: bytes, offset: nat, value: nat, n: nat)
    requires VintWithLength(value, n).Success? && offset + n <= |data|
    requires data[offset..offset + n] == VintWithLength(value, n).value
    ensures ReadHeader(data, offset, true) == Success(Header(value, n))
  {
    hide ReadHeader, Pow2, BigEndian, VintWithLength;
    VintShape(value, n);
    ReadMarked(data, offset, value + Pow2(7 * n), n);
  }

  /** The default width exists exactly below the eight-byte limit and is the smallest that fits. */
  lemma {:induction false} DefaultLengthIsMinimal(value: nat, from: nat)
    requires 1 <= from <= 9
    requires from > 1 ==> value >= Limit(from - 1)
    ensures DefaultLength(value, from).Some? <==> value < Limit(8)
    ensures match DefaultLength(value, from)
            case None => true
            case Some(n) => from <= n <= 8 && value < Limit(n) && forall m: nat :: from <= m < n ==> value >= Limit(m)
    decreases 9 - from
  {
    hide Pow2;
    if from <= 8 {
      Pow2Monotone(7 * from, 56);
      if value >= Limit(from) {
        DefaultLengthIsMinimal(value, from + 1);
        if DefaultLength(value, from).Some? {
          forall m: nat | from <= m < DefaultLength(value, from).value
            ensures value >= Limit(m)
          {
            assert m == from || from + 1 <= m;
          }
        }
      }
    }
  }

  /** `vint` without a width succeeds exactly below `2^56 - 1`, with the smallest width that can hold the value. */
  lemma VintIsMinimal(value: nat)
    ensures Vint(value).Success? <==> value < Limit(8)
    ensures Vint(value).Success? ==>
              var n := |Vint(value).value|;
              && Vint(value) == VintWithLength(value, n)
              && forall m: nat :: m < n ==> VintWithLength(value, m).Failure?
  {
    DefaultLengthIsMinimal(value, 1);
    if DefaultLength(value, 1).Some? {
      var n := DefaultLength(value, 1).value;
      forall m: nat | m < n
        ensures VintWithLength(value, m).Failure?
      {
        if m >= 1 {
          assert value >= Limit(m);
        }
      }
    }
  }

  /** A well-formed Element ID is printed on as many bytes as its marker announces. */
  lemma IdShape(id: nat, n: nat)
    requires Marked(id, n)
    ensures EbmlId(id) == BigEndian(id, n)
  {
    BitLengthUnique(id, 7 * n);
  }

  /** Every ID with its marker at bit `7n` is read back, wherever it stands. */
  lemma IdRoundTrip(data: bytes, offset: nat, id: nat, n: nat)
    requires Marked(id, n) && offset + n <= |data| && data[offset..offset + n] == EbmlId(id)
    ensures ReadHeader(data, offset, false) == Success(Header(id, n))
  {
    IdShape(id, n);
    ReadMarked(data, offset, id, n);
  }
}
